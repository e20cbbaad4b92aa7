/**
 What a recursive enumeration returns: every matching descendant exactly once, a directory before its
 contents, the entries of one directory together.
 */
module FileTreeProof {
  import opened FileTree

  ghost predicate Distinct(ps: seq<Path>) {
    forall i, j :: 0 <= i < j < |ps| ==> ps[i] != ps[j]
  }

  /** Proper prefixes of what exists are directories. */
  lemma {:induction false} AncestorIsDirectory(v: Volume, p: Path, q: Path)
    requires q in v.kinds && p < q
    ensures IsDirectory(v, p)
    decreases |q|
  {
    assert Standing(v, q) by { hide Standing; }
    hide Sound;
    var parent := q[..|q| - 1];
    assert p <= parent;
    if p != parent {
      AncestorIsDirectory(v, p, parent);
    }
  }

  // ---------------------------------------------------------------- one directory

  lemma {:induction false} ShownHolds(o: Options, entries: seq<Entry>, e: Entry)
    ensures e in Shown(o, entries) <==> e in entries && !ShouldSkip(o, e.name) && Matches(o, e.kind)
  {
    if entries != [] {
      var n := |entries| - 1;
      assert entries == entries[..n] + [entries[n]];
      ShownHolds(o, entries[..n], e);
    }
  }

  lemma {:induction false} ShownDistinct(o: Options, entries: seq<Entry>)
    requires DistinctNames(entries)
    ensures DistinctNames(Shown(o, entries))
  {
    if entries != [] {
      var n := |entries| - 1;
      var front := entries[..n];
      ShownDistinct(o, front);
      var shown := Shown(o, front);
      forall i | 0 <= i < |shown| ensures shown[i].name != entries[n].name {
        ShownHolds(o, front, shown[i]);
        assert shown[i] in front;
      }
    }
  }

  /** The returned paths of one directory. */
  function Block(v: Volume, o: Options, d: Path): seq<Path> {
    PathsIn(d, Shown(o, Listing(v, d)))
  }

  lemma InBlock(v: Volume, o: Options, d: Path, q: Path)
    requires !o.dotDot
    ensures q in Block(v, o, d) <==> q in v.kinds && Matches(o, v.kinds[q]) && d < q && |q| == |d| + 1
  {
    if q in v.kinds && Matches(o, v.kinds[q]) && d < q && |q| == |d| + 1 {
      ChildIsInBlock(v, o, d, q);
    } else if q in Block(v, o, d) {
      BlockIsChild(v, o, d, q);
    }
  }

  lemma ChildIsInBlock(v: Volume, o: Options, d: Path, q: Path)
    requires q in v.kinds && Matches(o, v.kinds[q]) && d < q && |q| == |d| + 1
    ensures q in Block(v, o, d)
  {
    hide Listing, Shown, Sound;
    ProperName(v, d, q);
    var e := Entry(q[|d|], v.kinds[q]);
    ListingEntry(v, d, e);
    var shown := Shown(o, Listing(v, d));
    ShownHolds(o, Listing(v, d), e);
    var i :| 0 <= i < |shown| && shown[i] == e;
    assert Block(v, o, d)[i] == q;
  }

  lemma BlockIsChild(v: Volume, o: Options, d: Path, q: Path)
    requires !o.dotDot && q in Block(v, o, d)
    ensures q in v.kinds && Matches(o, v.kinds[q]) && d < q && |q| == |d| + 1
  {
    hide Listing, Shown, Sound;
    var shown := Shown(o, Listing(v, d));
    var i :| 0 <= i < |shown| && q == Block(v, o, d)[i];
    var e := shown[i];
    ShownHolds(o, Listing(v, d), e);
    ListingEntry(v, d, e);
  }

  lemma BlockDistinct(v: Volume, o: Options, d: Path)
    ensures Distinct(Block(v, o, d))
  {
    ListingLists(v, d);
    ShownDistinct(o, Listing(v, d));
    hide Listing, Shown, Sound;
    var block, shown := Block(v, o, d), Shown(o, Listing(v, d));
    forall i, j | 0 <= i < j < |block| ensures block[i] != block[j] {
      assert block[i][|d|] == shown[i].name && block[j][|d|] == shown[j].name;
    }
  }

  // ---------------------------------------------------------------- the whole traversal

  /** The stack after the top directory `d` has been read. */
  ghost function After(v: Volume, o: Options, ps: seq<Path>, d: Path): seq<Path> {
    if IsDirectory(v, d) then ps + Pushed(o, d, Listing(v, d)) else ps
  }

  lemma OneStep(v: Volume, o: Options, ps: seq<Path>, d: Path)
    requires Apart(ps + [d]) && Allowed(o)
    ensures var next := After(v, o, ps, d);
      && Apart(next)
      && Traversal(v, o, ps + [d]) == (if IsDirectory(v, d) then Block(v, o, d) else []) + Traversal(v, o, next)
      && (|Cover(v, next)| < |Cover(v, ps + [d])| ||
          (|Cover(v, next)| <= |Cover(v, ps + [d])| && |next| < |ps + [d]|))
  {
    var e := Enumerator([], [], 0, ps + [d]);
    assert e.pending[..|ps|] == ps && e.pending[|ps|] == d;
    hide Sound, Apart, Listing, Shown, Pushed, PathsIn, Traversal, Cover;
    TraversalLoads(v, o, e);
    LoadDescends(v, o, e);
    assert Load(v, o, e).pending == After(v, o, ps, d);
  }

  /** What lies strictly inside the stack: the children of the top, and what lies inside the next stack. */
  lemma InsideStep(v: Volume, o: Options, ps: seq<Path>, d: Path, q: Path)
    requires Allowed(o) && o.recursive && q in v.kinds
    ensures StrictlyWithin(ps + [d], q) <==> (d < q && |q| == |d| + 1) || StrictlyWithin(After(v, o, ps, d), q)
  {
    hide Sound, After;
    if StrictlyWithin(ps + [d], q) {
      InsideGoesDown(v, o, ps, d, q);
    }
    if StrictlyWithin(After(v, o, ps, d), q) {
      InsideComesUp(v, o, ps, d, q);
    }
    if d < q {
      assert (ps + [d])[|ps|] < q;
    }
  }

  lemma InsideGoesDown(v: Volume, o: Options, ps: seq<Path>, d: Path, q: Path)
    requires Allowed(o) && o.recursive && q in v.kinds && StrictlyWithin(ps + [d], q)
    ensures (d < q && |q| == |d| + 1) || StrictlyWithin(After(v, o, ps, d), q)
  {
    hide Sound, Listing, Pushed;
    var all, next := ps + [d], After(v, o, ps, d);
    var i :| 0 <= i < |all| && all[i] < q;
    if i < |ps| {
      assert next[i] < q;
    } else if |q| > |d| + 1 {
      var c := q[..|d| + 1];
      AncestorIsDirectory(v, c, q);
      AncestorIsDirectory(v, d, q);
      SubdirectoryIsPushed(v, o, d, c);
      assert c in next;
      var j :| 0 <= j < |next| && next[j] == c;
      assert next[j] < q;
    }
  }

  lemma InsideComesUp(v: Volume, o: Options, ps: seq<Path>, d: Path, q: Path)
    requires Allowed(o) && StrictlyWithin(After(v, o, ps, d), q)
    ensures StrictlyWithin(ps + [d], q)
  {
    hide Sound, Listing, Pushed;
    var all, next := ps + [d], After(v, o, ps, d);
    var i :| 0 <= i < |next| && next[i] < q;
    if i < |ps| {
      assert all[i] < q;
    } else {
      PushedIsSubdirectory(v, o, d, next[i]);
      assert all[|ps|] < q;
    }
  }

  /** Exactly the matching nodes strictly inside the stack come. */
  lemma {:induction false} TraversalHolds(v: Volume, o: Options, ps: seq<Path>, q: Path)
    requires Apart(ps) && Allowed(o) && o.recursive
    ensures q in Traversal(v, o, ps) <==> q in v.kinds && Matches(o, v.kinds[q]) && StrictlyWithin(ps, q)
    decreases |Cover(v, ps)|, |ps|
  {
    if ps != [] {
      var front, d := ps[..|ps| - 1], ps[|ps| - 1];
      assert ps == front + [d];
      OneStep(v, o, front, d);
      var next := After(v, o, front, d);
      TraversalHolds(v, o, next, q);
      hide Sound, Apart, Traversal, Cover, After, Block, StrictlyWithin;
      InBlock(v, o, d, q);
      if q in v.kinds {
        InsideStep(v, o, front, d, q);
        if d < q {
          AncestorIsDirectory(v, d, q);
        }
      }
    }
  }

  /** Nothing that comes after the entries of `d` is one of them, or lies above one. */
  lemma LaterIsElsewhere(v: Volume, o: Options, ps: seq<Path>, d: Path, q: Path)
    requires Apart(ps + [d]) && Allowed(o)
    requires StrictlyWithin(After(v, o, ps, d), q)
    ensures !(q <= d) && !(d < q && |q| == |d| + 1)
  {
    hide Sound, Listing, Pushed;
    var next, all := After(v, o, ps, d), ps + [d];
    var i :| 0 <= i < |next| && next[i] < q;
    if i < |ps| {
      assert all[i] == next[i] && all[|ps|] == d;
      assert !(next[i] <= d) && !(d <= next[i]);
      Comparable(next[i], d, q);
    } else {
      PushedIsSubdirectory(v, o, d, next[i]);
    }
  }

  lemma {:induction false} TraversalDistinct(v: Volume, o: Options, ps: seq<Path>)
    requires Apart(ps) && Allowed(o) && o.recursive
    ensures Distinct(Traversal(v, o, ps))
    decreases |Cover(v, ps)|, |ps|
  {
    if ps != [] {
      var front, d := ps[..|ps| - 1], ps[|ps| - 1];
      assert ps == front + [d];
      OneStep(v, o, front, d);
      var next := After(v, o, front, d);
      TraversalDistinct(v, o, next);
      hide Sound, Apart, Traversal, Cover, After, Block, StrictlyWithin;
      var block, rest := Block(v, o, d), Traversal(v, o, next);
      BlockDistinct(v, o, d);
      forall q | q in rest ensures q !in block {
        TraversalHolds(v, o, next, q);
        LaterIsElsewhere(v, o, front, d, q);
        InBlock(v, o, d, q);
      }
      hide Distinct;
      DistinctConcat(block, rest);
    }
  }

  lemma DistinctConcat(a: seq<Path>, b: seq<Path>)
    requires Distinct(a) && Distinct(b) && forall q :: q in b ==> q !in a
    ensures Distinct(a + b)
  {
    var all := a + b;
    forall i, j | 0 <= i < j < |all| ensures all[i] != all[j] {
      if i < |a| && j >= |a| {
        assert all[j] in b && all[i] in a;
      }
    }
  }

  /** A directory comes before what lies in it. */
  ghost predicate ParentsFirst(ps: seq<Path>) {
    forall i, j :: 0 <= i < |ps| && 0 <= j < |ps| && ps[i] < ps[j] ==> i < j
  }

  /** Entries of the same directory have only entries of that directory between them. */
  ghost predicate Together(ps: seq<Path>) {
    && (forall i :: 0 <= i < |ps| ==> ps[i] != [])
    && (forall i, j, k :: 0 <= i < j < k < |ps| && ParentOf(ps[i]) == ParentOf(ps[k]) ==> ParentOf(ps[j]) == ParentOf(ps[i]))
  }

  function ParentOf(p: Path): Path {
    if p == [] then [] else p[..|p| - 1]
  }

  lemma ParentsFirstStep(d: Path, block: seq<Path>, rest: seq<Path>)
    requires forall i :: 0 <= i < |block| ==> d < block[i] && |block[i]| == |d| + 1
    requires forall i :: 0 <= i < |rest| ==> !(rest[i] <= d) && !(d < rest[i] && |rest[i]| == |d| + 1)
    requires ParentsFirst(rest)
    ensures ParentsFirst(block + rest)
  {
    var all := block + rest;
    forall i | 0 <= i < |all| ensures !(all[i] <= d) {
      assert all[i] == if i < |block| then block[i] else rest[i - |block|];
    }
    forall i, j | 0 <= i < |all| && 0 <= j < |block| ensures !(all[i] < all[j]) {
      assert all[j] == block[j];
      NotAbove(d, all[i], all[j]);
    }
    forall i, j | 0 <= i < |all| && 0 <= j < |all| && all[i] < all[j] ensures i < j {
      if i >= |block| && j >= |block| {
        assert all[i] == rest[i - |block|] && all[j] == rest[j - |block|];
      }
    }
  }

  lemma NotAbove(d: Path, x: Path, y: Path)
    requires d < y && |y| == |d| + 1 && !(x <= d)
    ensures !(x < y)
  {
    Comparable(x, d, y);
  }

  lemma TogetherStep(d: Path, block: seq<Path>, rest: seq<Path>)
    requires forall i :: 0 <= i < |block| ==> d < block[i] && |block[i]| == |d| + 1
    requires forall i :: 0 <= i < |rest| ==> !(d < rest[i] && |rest[i]| == |d| + 1)
    requires Together(rest)
    ensures Together(block + rest)
  {
    var all := block + rest;
    forall i | 0 <= i < |all| ensures all[i] != [] && (ParentOf(all[i]) == d <==> i < |block|) {
      if i < |block| {
        assert all[i] == block[i];
      } else {
        assert all[i] == rest[i - |block|];
      }
    }
    forall i, j, k | 0 <= i < j < k < |all| && ParentOf(all[i]) == ParentOf(all[k])
      ensures ParentOf(all[j]) == ParentOf(all[i])
    {
      if i >= |block| {
        assert all[i] == rest[i - |block|] && all[j] == rest[j - |block|] && all[k] == rest[k - |block|];
      }
    }
  }

  lemma {:induction false} TraversalOrdered(v: Volume, o: Options, ps: seq<Path>)
    requires Apart(ps) && Allowed(o) && o.recursive
    ensures ParentsFirst(Traversal(v, o, ps)) && Together(Traversal(v, o, ps))
    decreases |Cover(v, ps)|, |ps|
  {
    if ps != [] {
      var front, d := ps[..|ps| - 1], ps[|ps| - 1];
      assert ps == front + [d];
      OneStep(v, o, front, d);
      var next := After(v, o, front, d);
      TraversalOrdered(v, o, next);
      hide Sound, Apart, Traversal, Cover, After, Block, StrictlyWithin, ParentsFirst, Together;
      var block := if IsDirectory(v, d) then Block(v, o, d) else [];
      var rest := Traversal(v, o, next);
      forall i | 0 <= i < |block| ensures d < block[i] && |block[i]| == |d| + 1 {
        InBlock(v, o, d, block[i]);
      }
      forall i | 0 <= i < |rest| ensures !(rest[i] <= d) && !(d < rest[i] && |rest[i]| == |d| + 1) {
        assert rest[i] in rest;
        TraversalHolds(v, o, next, rest[i]);
        LaterIsElsewhere(v, o, front, d, rest[i]);
      }
      ParentsFirstStep(d, block, rest);
      TogetherStep(d, block, rest);
    }
  }

  /** The answers of the first `n` calls of Next. */
  ghost function Answers(v: Volume, o: Options, e: Enumerator, n: nat): seq<Answer>
    requires Apart(e.pending) && Allowed(o)
    decreases n
  {
    if n == 0 then [] else [Current(Next(v, o, e))] + Answers(v, o, Next(v, o, e), n - 1)
  }

  /** The first `n` answers when the paths `all` are to come. */
  function Script(all: seq<Path>, n: nat): seq<Answer> {
    seq(n, k requires 0 <= k => if k < |all| then Found(all[k]) else Exhausted)
  }

  lemma ScriptHead(all: seq<Path>, n: nat)
    requires n > 0
    ensures Script(all, n) == [if all == [] then Exhausted else Found(all[0])] + Script(if all == [] then [] else all[1..], n - 1)
  {
  }

  lemma {:induction false} AnswersAre(v: Volume, o: Options, e: Enumerator, n: nat)
    requires Apart(e.pending) && Allowed(o)
    ensures Answers(v, o, e, n) == Script(Remaining(v, o, e), n)
    decreases n
  {
    hide *;
    AnswersHead(v, o, e, n);
    if n > 0 {
      NextTakesFirst(v, o, e);
      AnswersAre(v, o, Next(v, o, e), n - 1);
      ScriptHead(Remaining(v, o, e), n);
    }
  }

  lemma AnswersHead(v: Volume, o: Options, e: Enumerator, n: nat)
    requires Apart(e.pending) && Allowed(o)
    ensures n > 0 ==> Answers(v, o, e, n) == [Current(Next(v, o, e))] + Answers(v, o, Next(v, o, e), n - 1)
    ensures n == 0 ==> Answers(v, o, e, n) == Script(Remaining(v, o, e), n)
  {
    hide Next, Current, Apart, Sound, Remaining, Allowed;
  }

  /** What the calls of Next return, before its order is looked at more closely. */
  lemma EnumerationReturns(v: Volume, o: Options, root: Path, n: nat)
    requires Allowed(o) && o.recursive
    ensures Apart([root])
    ensures var all := Traversal(v, o, [root]);
      && (forall q :: q in all <==> q in v.kinds && Matches(o, v.kinds[q]) && root < q)
      && Distinct(all) && ParentsFirst(all) && Together(all)
      && Answers(v, o, Start(root), n) == Script(all, n)
  {
    StartRemains(v, o, root);
    AnswersAre(v, o, Start(root), n);
    TraversalDistinct(v, o, [root]);
    TraversalOrdered(v, o, [root]);
    hide Sound, Traversal, Distinct, ParentsFirst, Together, Answers;
    var all := Traversal(v, o, [root]);
    forall q ensures q in all <==> q in v.kinds && Matches(o, v.kinds[q]) && root < q {
      TraversalHolds(v, o, [root], q);
      assert StrictlyWithin([root], q) <==> root < q by {
        assert [root][0] == root;
      }
    }
  }
}
