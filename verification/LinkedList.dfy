/**
 LinkedList (base/linked_list.h): an intrusive circular list. Nodes hold their own links; the root is
 a node too, so that an empty list is the root linked to itself. The list stands for the sequence of
 nodes met from the root on.
 */
module LinkedList {

  class LinkNode {
    var previous: LinkNode?
    var next: LinkNode?

    constructor ()
      ensures previous == null && next == null
    {
      previous, next := null, null;
    }

    /** Links this node in before `e`, the node at `k` of the ring. */
    method InsertBefore(e: LinkNode, ghost ring: seq<LinkNode>, ghost k: nat)
      requires IsRing(ring) && k < |ring| && ring[k] == e && this !in ring
      modifies this, e, e.previous
      ensures IsRing(ring[..k] + [this] + ring[k..])
    {
      hide IsRing;
      RingLinks(ring);
      next := e;
      previous := e.previous;
      e.previous.next := this;
      e.previous := this;
      Closed(ring, Before(k, |ring|), k, this);
    }

    /** Links this node in after `e`. */
    method InsertAfter(e: LinkNode, ghost ring: seq<LinkNode>, ghost k: nat)
      requires IsRing(ring) && k < |ring| && ring[k] == e && this !in ring
      modifies this, e, e.next
      ensures IsRing(ring[..k + 1] + [this] + ring[k + 1..])
    {
      hide IsRing;
      RingLinks(ring);
      next := e.next;
      previous := e;
      e.next.previous := this;
      e.next := this;
      ClosedAfter(ring, k, this);
    }

    /** Takes this node out; its own links stay as they are. */
    method RemoveFromList(ghost ring: seq<LinkNode>, ghost k: nat)
      requires IsRing(ring) && k < |ring| && ring[k] == this && |ring| > 1
      modifies previous, next
      ensures IsRing(ring[..k] + ring[k + 1..])
      ensures previous == old(previous) && next == old(next)
    {
      hide IsRing;
      RingLinks(ring);
      previous.next := next;
      next.previous := previous;
      ClosedWithout(ring, k);
    }
  }

  ghost predicate Linked(a: LinkNode, b: LinkNode)
    reads a, b
  {
    a.next == b && b.previous == a
  }

  function After(k: nat, n: nat): (i: nat)
    requires k < n
    ensures i < n
  {
    if k + 1 < n then k + 1 else 0
  }

  function Before(k: nat, n: nat): (i: nat)
    requires k < n
    ensures i < n && After(i, n) == k
  {
    if k > 0 then k - 1 else n - 1
  }

  ghost predicate DistinctNodes(ring: seq<LinkNode>) {
    forall i, j :: 0 <= i < j < |ring| ==> ring[i] != ring[j]
  }

  /** Distinct nodes, each linked with the next one, the last with the first. */
  ghost predicate IsRing(ring: seq<LinkNode>)
    reads ring
  {
    && |ring| > 0 && DistinctNodes(ring)
    && forall i :: 0 <= i < |ring| ==> Linked(ring[i], ring[After(i, |ring|)])
  }

  lemma RingAround(ring: seq<LinkNode>, k: nat)
    requires IsRing(ring) && k < |ring|
    ensures ring[k].next == ring[After(k, |ring|)] && ring[k].previous == ring[Before(k, |ring|)]
    ensures DistinctNodes(ring)
  {
    assert Linked(ring[k], ring[After(k, |ring|)]);
    assert Linked(ring[Before(k, |ring|)], ring[k]);
  }

  /** All links of a ring. */
  lemma RingLinks(ring: seq<LinkNode>)
    requires IsRing(ring)
    ensures RightBut(ring, -1, -1)
  {
    forall i | 0 <= i < |ring|
      ensures ring[i].next == ring[After(i, |ring|)] && ring[i].previous == ring[Before(i, |ring|)]
    {
      RingAround(ring, i);
    }
  }

  /** Every link is right, except perhaps the next one of the node at `a` and the previous one of the node at `b`. */
  ghost predicate RightBut(ring: seq<LinkNode>, a: int, b: int)
    reads ring
  {
    && DistinctNodes(ring)
    && (forall i :: 0 <= i < |ring| && i != a ==> ring[i].next == ring[After(i, |ring|)])
    && (forall i :: 0 <= i < |ring| && i != b ==> ring[i].previous == ring[Before(i, |ring|)])
  }

  lemma RingFromLinks(ring: seq<LinkNode>)
    requires ring != [] && RightBut(ring, -1, -1)
    ensures IsRing(ring)
  {
    assert forall i :: 0 <= i < |ring| ==> Before(After(i, |ring|), |ring|) == i;
  }

  lemma InsertIsDistinct(ring: seq<LinkNode>, k: nat, n: LinkNode)
    requires DistinctNodes(ring) && k <= |ring| && n !in ring
    ensures DistinctNodes(ring[..k] + [n] + ring[k..])
  {
    var after := ring[..k] + [n] + ring[k..];
    forall i, j | 0 <= i < j < |after| ensures after[i] != after[j] {
      assert after[i] == if i < k then ring[i] else if i == k then n else ring[i - 1];
      assert after[j] == if j < k then ring[j] else if j == k then n else ring[j - 1];
    }
  }

  lemma RemoveIsDistinct(ring: seq<LinkNode>, k: nat)
    requires DistinctNodes(ring) && k < |ring|
    ensures DistinctNodes(ring[..k] + ring[k + 1..])
  {
    var after := ring[..k] + ring[k + 1..];
    forall i, j | 0 <= i < j < |after| ensures after[i] != after[j] {
      assert after[i] == ring[if i < k then i else i + 1];
      assert after[j] == ring[if j < k then j else j + 1];
    }
  }

  /** The node `n` between two neighbours closes the ring again. */
  lemma Closed(ring: seq<LinkNode>, a: nat, k: nat, n: LinkNode)
    requires k < |ring| && a == Before(k, |ring|) && n !in ring && RightBut(ring, a, k)
    requires n.next == ring[k] && n.previous == ring[a] && ring[a].next == n && ring[k].previous == n
    ensures IsRing(ring[..k] + [n] + ring[k..])
  {
    var after := ring[..k] + [n] + ring[k..];
    InsertIsDistinct(ring, k, n);
    hide DistinctNodes;
    forall i | 0 <= i < |after| ensures Linked(after[i], after[After(i, |after|)]) {
      if i != k && After(i, |after|) != k {
        var j := if i < k then i else i - 1;
        assert after[i] == ring[j] && after[After(i, |after|)] == ring[After(j, |ring|)];
      }
    }
  }

  lemma ClosedAfter(ring: seq<LinkNode>, k: nat, n: LinkNode)
    requires k < |ring| && n !in ring && RightBut(ring, k, After(k, |ring|))
    requires n.next == ring[After(k, |ring|)] && n.previous == ring[k]
    requires ring[k].next == n && ring[After(k, |ring|)].previous == n
    ensures IsRing(ring[..k + 1] + [n] + ring[k + 1..])
  {
    var after := ring[..k + 1] + [n] + ring[k + 1..];
    InsertIsDistinct(ring, k + 1, n);
    hide DistinctNodes;
    forall i | 0 <= i < |after| ensures Linked(after[i], after[After(i, |after|)]) {
      if i != k + 1 && After(i, |after|) != k + 1 {
        var j := if i <= k then i else i - 1;
        assert after[i] == ring[j] && after[After(i, |after|)] == ring[After(j, |ring|)];
      }
    }
  }

  /** The neighbours of a node, linked with each other, make a ring without it. */
  lemma ClosedWithout(ring: seq<LinkNode>, k: nat)
    requires k < |ring| && |ring| > 1 && RightBut(ring, Before(k, |ring|), After(k, |ring|))
    requires ring[Before(k, |ring|)].next == ring[After(k, |ring|)]
    requires ring[After(k, |ring|)].previous == ring[Before(k, |ring|)]
    ensures IsRing(ring[..k] + ring[k + 1..])
  {
    var after := ring[..k] + ring[k + 1..];
    RemoveIsDistinct(ring, k);
    hide DistinctNodes;
    forall i | 0 <= i < |after| ensures Linked(after[i], after[After(i, |after|)]) {
      var j := if i < k then i else i + 1;
      assert after[i] == ring[j];
      if After(j, |ring|) != k {
        assert after[After(i, |after|)] == ring[After(j, |ring|)];
      }
    }
  }

  /** A ring may be read from any of its nodes. */
  lemma Rotate(a: seq<LinkNode>, b: seq<LinkNode>)
    requires IsRing(a + b)
    ensures IsRing(b + a)
  {
    var from, to := a + b, b + a;
    forall i, j | 0 <= i < j < |to| ensures to[i] != to[j] {
      assert to[i] == from[if i < |b| then i + |a| else i - |b|];
      assert to[j] == from[if j < |b| then j + |a| else j - |b|];
    }
    forall i | 0 <= i < |to| ensures Linked(to[i], to[After(i, |to|)]) {
      var j := if i < |b| then i + |a| else i - |b|;
      assert to[i] == from[j] && to[After(i, |to|)] == from[After(j, |from|)];
      assert Linked(from[j], from[After(j, |from|)]);
    }
  }

  /** On sequences: taking out what was put in at `k`. */
  lemma InsertRemove(ring: seq<LinkNode>, k: nat, n: LinkNode)
    requires k <= |ring|
    ensures var larger := ring[..k] + [n] + ring[k..];
      |larger| == |ring| + 1 && larger[k] == n && larger[..k] + larger[k + 1..] == ring
  {
    var larger := ring[..k] + [n] + ring[k..];
    assert larger[..k] == ring[..k] && larger[k + 1..] == ring[k..];
  }

  /** Putting a node in before another and taking it out again leaves every other link as it was. */
  method InsertThenRemove(n: LinkNode, e: LinkNode, ghost ring: seq<LinkNode>, ghost k: nat)
    requires IsRing(ring) && k < |ring| && ring[k] == e && n !in ring
    modifies n, e, e.previous
    ensures IsRing(ring)
    ensures forall i :: 0 <= i < |ring| ==> ring[i].next == old(ring[i].next) && ring[i].previous == old(ring[i].previous)
  {
    InsertRemove(ring, k, n);
    hide IsRing;
    RingLinks(ring);
    ghost var larger := ring[..k] + [n] + ring[k..];
    n.InsertBefore(e, ring, k);
    RingAround(larger, k);
    Neighbour(ring, larger, k);
    n.RemoveFromList(larger, k);
    RingLinks(ring);
  }

  /** The same for putting it in after another. */
  method InsertAfterThenRemove(n: LinkNode, e: LinkNode, ghost ring: seq<LinkNode>, ghost k: nat)
    requires IsRing(ring) && k < |ring| && ring[k] == e && n !in ring
    modifies n, e, e.next
    ensures IsRing(ring)
    ensures forall i :: 0 <= i < |ring| ==> ring[i].next == old(ring[i].next) && ring[i].previous == old(ring[i].previous)
  {
    InsertRemove(ring, k + 1, n);
    hide IsRing;
    RingLinks(ring);
    ghost var larger := ring[..k + 1] + [n] + ring[k + 1..];
    n.InsertAfter(e, ring, k);
    RingAround(larger, k + 1);
    NeighbourAfter(ring, larger, k);
    n.RemoveFromList(larger, k + 1);
    RingLinks(ring);
  }

  /** The neighbours of a node that stands before the node at `k`. */
  lemma Neighbour(ring: seq<LinkNode>, larger: seq<LinkNode>, k: nat)
    requires k < |ring| && |larger| == |ring| + 1 && larger[..k] + larger[k + 1..] == ring
    ensures larger[After(k, |larger|)] == ring[k] && larger[Before(k, |larger|)] == ring[Before(k, |ring|)]
  {
    assert forall i :: 0 <= i < |ring| ==> ring[i] == if i < k then larger[i] else larger[i + 1];
  }

  lemma NeighbourAfter(ring: seq<LinkNode>, larger: seq<LinkNode>, k: nat)
    requires k < |ring| && |larger| == |ring| + 1 && larger[..k + 1] + larger[k + 2..] == ring
    ensures larger[Before(k + 1, |larger|)] == ring[k] && larger[After(k + 1, |larger|)] == ring[After(k, |ring|)]
  {
    assert forall i :: 0 <= i < |ring| ==> ring[i] == if i < k + 1 then larger[i] else larger[i + 1];
  }

  // ---------------------------------------------------------------- the list

  /** Positions in the list and in the ring that starts with the root. */
  lemma BehindRoot(root: LinkNode, nodes: seq<LinkNode>, k: nat, n: LinkNode)
    requires k <= |nodes|
    ensures var ring := [root] + nodes; ring[..k + 1] + [n] + ring[k + 1..] == [root] + (nodes[..k] + [n] + nodes[k..])
  {
    var ring := [root] + nodes;
    assert ring[..k + 1] == [root] + nodes[..k] && ring[k + 1..] == nodes[k..];
  }

  lemma RemoveBehindRoot(root: LinkNode, nodes: seq<LinkNode>, k: nat)
    requires k < |nodes|
    ensures var ring := [root] + nodes; ring[..k + 1] + ring[k + 2..] == [root] + (nodes[..k] + nodes[k + 1..])
  {
    var ring := [root] + nodes;
    assert ring[..k + 1] == [root] + nodes[..k] && ring[k + 2..] == nodes[k + 1..];
  }

  function Reversed<T>(s: seq<T>): seq<T> {
    if s == [] then [] else Reversed(s[1..]) + [s[0]]
  }

  lemma {:induction false} ReversedOfLast<T>(s: seq<T>)
    requires s != []
    ensures Reversed(s) == [s[|s| - 1]] + Reversed(s[..|s| - 1])
  {
    if |s| > 1 {
      ReversedOfLast(s[1..]);
      assert s[1..][..|s| - 2] == s[..|s| - 1][1..];
    }
  }

  class LinkedList {
    const root: LinkNode

    /** The ring through the root carries exactly `nodes`. */
    ghost predicate Holds(nodes: seq<LinkNode>)
      reads root, nodes
    {
      IsRing([root] + nodes)
    }

    constructor ()
      ensures fresh(root) && Holds([])
    {
      root := new LinkNode();
      new;
      root.previous, root.next := root, root;
      assert [root] + [] == [root];
    }

    method Append(e: LinkNode, ghost nodes: seq<LinkNode>)
      requires Holds(nodes) && e != root && e !in nodes
      modifies e, root, root.previous
      ensures Holds(nodes + [e])
    {
      hide IsRing;
      ghost var ring := [root] + nodes;
      assert ring[..0] + [e] + ring[0..] == [e] + ring;
      assert ring + [e] == [root] + (nodes + [e]);
      e.InsertBefore(root, ring, 0);
      Rotate([e], ring);
    }

    /** Puts `n` before or after the node at `k`. */
    method Insert(n: LinkNode, e: LinkNode, after: bool, ghost nodes: seq<LinkNode>, ghost k: nat)
      requires Holds(nodes) && k < |nodes| && nodes[k] == e && n != root && n !in nodes
      modifies n, e, e.previous, e.next
      ensures Holds(if after then nodes[..k + 1] + [n] + nodes[k + 1..] else nodes[..k] + [n] + nodes[k..])
    {
      hide IsRing;
      ghost var ring := [root] + nodes;
      RingAround(ring, k + 1);
      BehindRoot(root, nodes, k, n);
      BehindRoot(root, nodes, k + 1, n);
      if after {
        n.InsertAfter(e, ring, k + 1);
      } else {
        n.InsertBefore(e, ring, k + 1);
      }
    }

    method Remove(n: LinkNode, ghost nodes: seq<LinkNode>, ghost k: nat)
      requires Holds(nodes) && k < |nodes| && nodes[k] == n
      modifies n.previous, n.next
      ensures Holds(nodes[..k] + nodes[k + 1..])
    {
      hide IsRing;
      ghost var ring := [root] + nodes;
      RingAround(ring, k + 1);
      RemoveBehindRoot(root, nodes, k);
      n.RemoveFromList(ring, k + 1);
    }

    /** Walks from the head by `next` until the root comes back. */
    method Forward(ghost nodes: seq<LinkNode>) returns (s: seq<LinkNode>)
      requires Holds(nodes)
      ensures s == nodes
    {
      hide IsRing;
      ghost var ring := [root] + nodes;
      RingAround(ring, 0);
      s := [];
      var node := root.next;
      while node != root
        invariant |s| <= |nodes| && s == nodes[..|s|]
        invariant node == ring[After(|s|, |ring|)]
        decreases |nodes| - |s|
      {
        RingAround(ring, |s| + 1);
        s := s + [node];
        node := node.next;
      }
    }

    /** Walks from the tail by `previous` until the root comes back. */
    method Backward(ghost nodes: seq<LinkNode>) returns (s: seq<LinkNode>)
      requires Holds(nodes)
      ensures s == Reversed(nodes)
    {
      hide IsRing, Reversed;
      ghost var ring := [root] + nodes;
      RingAround(ring, 0);
      s := [];
      var node := root.previous;
      ghost var k := |nodes|;
      ReversedOfNone<LinkNode>();
      while node != root
        invariant 0 <= k <= |nodes| && node == ring[k]
        invariant s + Reversed(nodes[..k]) == Reversed(nodes[..|nodes|])
        decreases k
      {
        RingAround(ring, k);
        ReversedOfLast(nodes[..k]);
        assert nodes[..k][..k - 1] == nodes[..k - 1];
        Regroup(s, node, Reversed(nodes[..k - 1]));
        s := s + [node];
        node := node.previous;
        k := k - 1;
      }
      assert nodes[..|nodes|] == nodes;
    }
  }

  // ---------------------------------------------------------------- runs

  datatype Operation =
    | Append(n: LinkNode)
    | InsertBefore(n: LinkNode, e: LinkNode)
    | InsertAfter(n: LinkNode, e: LinkNode)
    | Remove(n: LinkNode)

  function IndexOf(nodes: seq<LinkNode>, e: LinkNode): (k: nat)
    ensures k <= |nodes| && (e in nodes ==> k < |nodes| && nodes[k] == e)
  {
    if nodes == [] || nodes[0] == e then 0 else 1 + IndexOf(nodes[1..], e)
  }

  /** Unlinked nodes go in next to linked ones, linked nodes come out. */
  ghost predicate Permitted(root: LinkNode, nodes: seq<LinkNode>, op: Operation) {
    match op
    case Append(n) => n != root && n !in nodes
    case InsertBefore(n, e) => n != root && n !in nodes && e in nodes
    case InsertAfter(n, e) => n != root && n !in nodes && e in nodes
    case Remove(n) => n in nodes
  }

  /** The sequence that the list stands for after the operation. */
  function Effect(nodes: seq<LinkNode>, op: Operation): seq<LinkNode> {
    match op
    case Append(n) => nodes + [n]
    case InsertBefore(n, e) => var k := IndexOf(nodes, e); nodes[..k] + [n] + nodes[k..]
    case InsertAfter(n, e) => var k := IndexOf(nodes, e); if k < |nodes| then nodes[..k + 1] + [n] + nodes[k + 1..] else nodes
    case Remove(n) => var k := IndexOf(nodes, n); if k < |nodes| then nodes[..k] + nodes[k + 1..] else nodes
  }

  ghost predicate AllPermitted(root: LinkNode, nodes: seq<LinkNode>, ops: seq<Operation>)
    decreases |ops|
  {
    ops == [] || (Permitted(root, nodes, ops[0]) && AllPermitted(root, Effect(nodes, ops[0]), ops[1..]))
  }

  function Effects(nodes: seq<LinkNode>, ops: seq<Operation>): seq<LinkNode>
    decreases |ops|
  {
    if ops == [] then nodes else Effects(Effect(nodes, ops[0]), ops[1..])
  }

  ghost function Involved(ops: seq<Operation>): set<LinkNode> {
    set i | 0 <= i < |ops| :: ops[i].n
  }

  method Perform(list: LinkedList, op: Operation, ghost nodes: seq<LinkNode>)
    requires list.Holds(nodes) && Permitted(list.root, nodes, op)
    modifies list.root, nodes, op.n
    ensures list.Holds(Effect(nodes, op))
  {
    hide IsRing;
    ghost var ring := [list.root] + nodes;
    match op
    case Append(n) =>
      Neighbours(ring, 0);
      list.Append(n, nodes);
    case InsertBefore(n, e) =>
      ghost var k := IndexOf(nodes, e);
      Neighbours(ring, k + 1);
      list.Insert(n, e, false, nodes, k);
    case InsertAfter(n, e) =>
      ghost var k := IndexOf(nodes, e);
      Neighbours(ring, k + 1);
      list.Insert(n, e, true, nodes, k);
    case Remove(n) =>
      ghost var k := IndexOf(nodes, n);
      Neighbours(ring, k + 1);
      list.Remove(n, nodes, k);
  }

  lemma Neighbours(ring: seq<LinkNode>, k: nat)
    requires IsRing(ring) && k < |ring|
    ensures ring[k].next in ring && ring[k].previous in ring
  {
    RingAround(ring, k);
  }

  /** After every permitted run the ring through the root carries the expected sequence. */
  method PerformAll(list: LinkedList, ops: seq<Operation>, ghost nodes: seq<LinkNode>)
    requires list.Holds(nodes) && AllPermitted(list.root, nodes, ops)
    modifies list.root, nodes, Involved(ops)
    ensures list.Holds(Effects(nodes, ops))
    decreases |ops|
  {
    hide IsRing, Permitted;
    if ops != [] {
      EffectNodes(nodes, ops[0]);
      InvolvedFirst(ops);
      ghost var after := Effect(nodes, ops[0]);
      Perform(list, ops[0], nodes);
      PerformAll(list, ops[1..], after);
    }
  }

  lemma EffectNodes(nodes: seq<LinkNode>, op: Operation)
    ensures forall x :: x in Effect(nodes, op) ==> x in nodes || x == op.n
  {
  }

  lemma InvolvedFirst(ops: seq<Operation>)
    requires ops != []
    ensures Involved(ops) == {ops[0].n} + Involved(ops[1..])
  {
    assert ops == [ops[0]] + ops[1..];
    assert forall i :: 0 <= i < |ops| - 1 ==> ops[1..][i] == ops[i + 1];
    forall x | x in Involved(ops[1..]) ensures x in Involved(ops) {
      var i :| 0 <= i < |ops[1..]| && ops[1..][i].n == x;
      assert ops[i + 1].n == x;
    }
    forall x | x in Involved(ops) && x != ops[0].n ensures x in Involved(ops[1..]) {
      var i :| 0 <= i < |ops| && ops[i].n == x;
      assert ops[1..][i - 1].n == x;
    }
  }

  /** Whatever is done to one list, a list that shares no node with it or with the run stays as it was. */
  method PerformAllBesides(list: LinkedList, ops: seq<Operation>, ghost nodes: seq<LinkNode>,
                           other: LinkedList, ghost others: seq<LinkNode>)
    requires list.Holds(nodes) && AllPermitted(list.root, nodes, ops)
    requires other.Holds(others)
    requires forall x :: x in [other.root] + others ==> x != list.root && x !in nodes && x !in Involved(ops)
    modifies list.root, nodes, Involved(ops)
    ensures list.Holds(Effects(nodes, ops)) && other.Holds(others)
    ensures forall x :: x in [other.root] + others ==> x.next == old(x.next) && x.previous == old(x.previous)
  {
    hide IsRing, Effects, AllPermitted, Involved;
    ghost var ring := [other.root] + others;
    RingLinks(ring);
    PerformAll(list, ops, nodes);
    assert forall i :: 0 <= i < |ring| ==> ring[i] in ring;
    RingFromLinks(ring);
  }

  lemma ReversedOfNone<T>()
    ensures Reversed<T>([]) == []
  {
  }

  lemma Regroup<T>(s: seq<T>, x: T, rest: seq<T>)
    ensures s + ([x] + rest) == (s + [x]) + rest
  {
  }
}
