/**
 IDMap (base/id_map.h): a table from ids to pointers with iterators that may nest. Removal while an
 iterator is open is put off until the last one closes. The table is a sequence, in the order in
 which the hash table is iterated; `deleted` records every delete of a pointer.
 */
module IDMap {

  datatype Entry = Entry(id: int, pointer: int)

  datatype Table = Table(data: seq<Entry>, removed: set<int>, depth: nat, nextId: int, deleted: multiset<int>)

  /** Position of `id` in the table, or the length. */
  function Find(data: seq<Entry>, id: int): (k: nat)
    ensures k <= |data| && (k < |data| ==> data[k].id == id)
    ensures forall i :: 0 <= i < k ==> data[i].id != id
  {
    if data == [] || data[0].id == id then 0 else 1 + Find(data[1..], id)
  }

  predicate Has(data: seq<Entry>, id: int) {
    Find(data, id) < |data|
  }

  ghost predicate DistinctIds(data: seq<Entry>) {
    forall i, j :: 0 <= i < j < |data| ==> data[i].id != data[j].id
  }

  function Pointers(data: seq<Entry>): multiset<int> {
    if data == [] then multiset{} else Pointers(data[..|data| - 1]) + multiset{data[|data| - 1].pointer}
  }

  function Erase(data: seq<Entry>, k: nat): seq<Entry>
    requires k < |data|
  {
    data[..k] + data[k + 1..]
  }

  /** The entries whose id is not in `ids`, in order. */
  function Without(data: seq<Entry>, ids: set<int>): seq<Entry> {
    if data == [] then []
    else
      var n := |data| - 1;
      Without(data[..n], ids) + (if data[n].id in ids then [] else [data[n]])
  }

  /** The pointers of the entries whose id is in `ids`. */
  function Gone(data: seq<Entry>, ids: set<int>): multiset<int> {
    if data == [] then multiset{}
    else
      var n := |data| - 1;
      Gone(data[..n], ids) + (if data[n].id in ids then multiset{data[n].pointer} else multiset{})
  }

  /** What has been deleted when `pointers` are released: an external map deletes nothing. */
  function Deleted(own: bool, deleted: multiset<int>, pointers: multiset<int>): multiset<int> {
    if own then deleted + pointers else deleted
  }

  /** A table after `id` was inserted: the same entries and the new one, iterated in whatever order. */
  ghost predicate Inserted(data: seq<Entry>, e: Entry, after: seq<Entry>) {
    !Has(data, e.id) && DistinctIds(after) &&
    multiset(after) == multiset(data) + multiset{e}
  }

  function RemoveId(own: bool, t: Table, id: int): Table {
    var k := Find(t.data, id);
    if k == |t.data| then t
    else if t.depth == 0 then t.(data := Erase(t.data, k), deleted := Deleted(own, t.deleted, multiset{t.data[k].pointer}))
    else t.(removed := t.removed + {id})
  }

  /** What the destructor of the last iterator does. */
  function Compacted(own: bool, t: Table): Table {
    t.(data := Without(t.data, t.removed), removed := {}, deleted := Deleted(own, t.deleted, Gone(t.data, t.removed)))
  }

  function CloseOne(own: bool, t: Table): Table
    requires t.depth > 0
  {
    var u := t.(depth := t.depth - 1);
    if u.depth == 0 then Compacted(own, u) else u
  }

  function Skip(data: seq<Entry>, removed: set<int>, p: nat): (q: nat)
    requires p <= |data|
    ensures p <= q <= |data| && (q < |data| ==> data[q].id !in removed)
    ensures forall i :: p <= i < q ==> data[i].id in removed
    decreases |data| - p
  {
    if p < |data| && data[p].id in removed then Skip(data, removed, p + 1) else p
  }

  predicate Live(t: Table, id: int) {
    Has(t.data, id) && id !in t.removed
  }

  function LiveIds(t: Table): set<int> {
    set i | 0 <= i < |t.data| && t.data[i].id !in t.removed :: t.data[i].id
  }

  method Pick(ids: set<int>) returns (id: int)
    requires ids != {}
    ensures id in ids
  {
    assert (forall x :: x !in ids) ==> ids == {};
    id :| id in ids;
  }

  function SizeOf(t: Table): int {
    |t.data| - |t.removed|
  }

  ghost function Ids(data: seq<Entry>): set<int> {
    set i | 0 <= i < |data| :: data[i].id
  }

  lemma {:induction false} CountIds(data: seq<Entry>)
    requires DistinctIds(data)
    ensures |Ids(data)| == |data|
  {
    if data != [] {
      var n := |data| - 1;
      CountIds(data[..n]);
      assert Ids(data) == Ids(data[..n]) + {data[n].id};
      assert data[n].id !in Ids(data[..n]);
    }
  }

  /** The difference of the two sizes counts the live ids. */
  lemma SizeCountsLive(t: Table)
    requires Proper(t)
    ensures SizeOf(t) == |LiveIds(t)|
  {
    CountIds(t.data);
    forall id | id in t.removed ensures id in Ids(t.data) {
      assert t.data[Find(t.data, id)].id == id;
    }
    assert LiveIds(t) == Ids(t.data) - t.removed;
  }

  // ---------------------------------------------------------------- removal

  /** The live ids of the table and their pointers are those of `m`. */
  ghost predicate StandsFor(t: Table, m: map<int, int>) {
    forall id, pointer :: Entry(id, pointer) in t.data && id !in t.removed <==> id in m && m[id] == pointer
  }

  lemma EraseHolds(data: seq<Entry>, k: nat, e: Entry)
    requires k < |data| && DistinctIds(data)
    ensures e in Erase(data, k) <==> e in data && e.id != data[k].id
  {
    var after := Erase(data, k);
    if e in data && e.id != data[k].id {
      var i :| 0 <= i < |data| && data[i] == e;
      assert after[if i < k then i else i - 1] == e;
    }
    if e in after {
      var i :| 0 <= i < |after| && after[i] == e;
      assert data[if i < k then i else i + 1] == e;
    }
  }

  lemma HasEntry(data: seq<Entry>, id: int)
    ensures Has(data, id) <==> exists i :: 0 <= i < |data| && data[i].id == id
  {
  }

  /** At any depth the id is live no more, and all others keep their pointers. */
  lemma RemoveStands(own: bool, t: Table, m: map<int, int>, id: int)
    requires DistinctIds(t.data) && StandsFor(t, m)
    ensures StandsFor(RemoveId(own, t, id), m - {id})
  {
    var k := Find(t.data, id);
    HasEntry(t.data, id);
    if k < |t.data| {
      forall e ensures e in Erase(t.data, k) <==> e in t.data && e.id != id {
        EraseHolds(t.data, k, e);
      }
    }
    hide Find, Erase;
  }

  lemma LiveAre(t: Table, m: map<int, int>)
    requires StandsFor(t, m)
    ensures LiveIds(t) == m.Keys
  {
    forall id ensures id in LiveIds(t) <==> id in m {
      if id in LiveIds(t) {
        var i :| 0 <= i < |t.data| && t.data[i].id !in t.removed && t.data[i].id == id;
        assert t.data[i] == Entry(id, t.data[i].pointer);
      }
      if id in m {
        assert Entry(id, m[id]) in t.data;
      }
    }
  }

  lemma LiveMap(t: Table) returns (m: map<int, int>)
    requires DistinctIds(t.data)
    ensures StandsFor(t, m)
  {
    m := map i | 0 <= i < |t.data| && t.data[i].id !in t.removed :: t.data[i].id := t.data[i].pointer;
    forall id | id in m ensures Entry(id, m[id]) in t.data && id !in t.removed {
      var i :| 0 <= i < |t.data| && t.data[i].id !in t.removed && t.data[i].id == id;
      assert t.data[i] == Entry(id, m[id]);
    }
  }

  /** Removal takes exactly that id out of the live ones, at any depth; inside an iteration nothing is erased or deleted. */
  lemma RemoveTakesOut(own: bool, t: Table, id: int)
    requires DistinctIds(t.data)
    ensures LiveIds(RemoveId(own, t, id)) == LiveIds(t) - {id}
    ensures t.depth > 0 ==> RemoveId(own, t, id).data == t.data && RemoveId(own, t, id).deleted == t.deleted
  {
    assert t.depth > 0 ==> RemoveId(own, t, id).data == t.data && RemoveId(own, t, id).deleted == t.deleted;
    hide *;
    var m := LiveMap(t);
    LiveAre(t, m);
    RemoveStands(own, t, m, id);
    LiveAre(RemoveId(own, t, id), m - {id});
  }

  // ---------------------------------------------------------------- the classes

  class IdTable {
    const own: bool
    var data: seq<Entry>
    var removedIds: set<int>
    var iterationDepth: nat
    var nextId: int
    var deleted: multiset<int>

    function T(): Table
      reads this
    {
      Table(data, removedIds, iterationDepth, nextId, deleted)
    }

    ghost predicate Valid() reads this {
      Proper(T())
    }

    constructor (owning: bool)
      ensures Valid() && own == owning && T() == Table([], {}, 0, 1, multiset{})
    {
      own := owning;
      data, removedIds, iterationDepth, nextId, deleted := [], {}, 0, 1, multiset{};
    }

    /** Inserts at `at` in the order of iteration. */
    method AddWithID(pointer: int, id: int, at: nat)
      requires Valid() && !Has(data, id) && at <= |data|
      modifies this
      ensures Valid() && T() == old(T()).(data := data) && Inserted(old(data), Entry(id, pointer), data)
    {
      InsertAt(data, Entry(id, pointer), at);
      ghost var before := data;
      data := data[..at] + [Entry(id, pointer)] + data[at..];
      forall i | i in removedIds ensures Has(data, i) {
        InsertKeeps(before, Entry(id, pointer), data, i);
      }
    }

    method Add(pointer: int, at: nat) returns (id: int)
      requires Valid() && !Has(data, nextId) && at <= |data|
      modifies this
      ensures Valid() && id == old(nextId) && T() == old(T()).(data := data, nextId := id + 1)
      ensures Inserted(old(data), Entry(id, pointer), data)
    {
      id := nextId;
      AddWithID(pointer, id, at);
      nextId := nextId + 1;
    }

    /** Compact calls it while ids are still put off, so the table need not be valid. */
    method Remove(id: int)
      requires DistinctIds(data)
      modifies this
      ensures T() == RemoveId(own, old(T()), id) && (old(Valid()) ==> Valid())
      ensures LiveIds(T()) == old(LiveIds(T())) - {id}
    {
      RemoveTakesOut(own, T(), id);
      hide LiveIds;
      var k := Find(data, id);
      if k == |data| {
        return;
      }
      if iterationDepth == 0 {
        if own {
          deleted := deleted + multiset{data[k].pointer};
        }
        EraseIsDistinct(data, k);
        data := Erase(data, k);
      } else {
        removedIds := removedIds + {id};
      }
    }

    /** The number of live ids. */
    function Size(): (n: int)
      requires Valid()
      reads this
      ensures n == |LiveIds(T())|
    {
      SizeCountsLive(T());
      SizeOf(T())
    }

    /** Removes what was put off, in whatever order. */
    method Compact()
      requires iterationDepth == 0 && DistinctIds(data) && forall id :: id in removedIds ==> Has(data, id)
      modifies this
      ensures Valid() && T() == Compacted(own, old(T()))
    {
      hide Compacting, DistinctIds, Has, RemoveId, Compacted;
      var waiting := removedIds;
      ghost var before := T();
      CompactStarts(own, before);
      while waiting != {}
        invariant Compacting(own, before, waiting, T())
        decreases |waiting|
      {
        var id := Pick(waiting);
        CompactStep(own, before, waiting, T(), id);
        CompactingIsDistinct(own, before, waiting, T());
        waiting := waiting - {id};
        Remove(id);
      }
      CompactEnds(own, before, T());
      removedIds := {};
    }

    /** Deletes what is left when the map goes. */
    method Destroy()
      modifies this
      ensures data == (if own then [] else old(data)) && deleted == Deleted(own, old(deleted), Pointers(old(data)))
    {
      if own {
        deleted := deleted + Pointers(data);
        data := [];
      }
    }
  }

  class IdIterator {
    const map_: IdTable
    var position: nat

    ghost predicate Valid() reads this, map_ {
      map_.Valid() && map_.iterationDepth > 0 && position <= |map_.data|
    }

    constructor (m: IdTable)
      requires m.Valid()
      modifies m
      ensures map_ == m && Valid() && m.T() == old(m.T()).(depth := old(m.iterationDepth) + 1)
      ensures position == Skip(m.data, m.removedIds, 0)
    {
      map_ := m;
      position := 0;
      new;
      map_.iterationDepth := map_.iterationDepth + 1;
      SkipRemovedEntries();
    }

    predicate IsAtEnd()
      reads this, map_
    {
      position >= |map_.data|
    }

    method Advance()
      requires Valid() && !IsAtEnd()
      modifies this
      ensures Valid() && position == Skip(map_.data, map_.removedIds, old(position) + 1)
    {
      position := position + 1;
      SkipRemovedEntries();
    }

    method SkipRemovedEntries()
      requires Valid()
      modifies this
      ensures Valid() && position == Skip(map_.data, map_.removedIds, old(position))
    {
      while position < |map_.data| && map_.data[position].id in map_.removedIds
        invariant Valid()
        invariant Skip(map_.data, map_.removedIds, position) == Skip(map_.data, map_.removedIds, old(position))
        decreases |map_.data| - position
      {
        position := position + 1;
      }
    }

    /** The destructor. */
    method Close()
      requires Valid()
      modifies map_
      ensures map_.Valid() && map_.T() == CloseOne(map_.own, old(map_.T()))
    {
      map_.iterationDepth := map_.iterationDepth - 1;
      if map_.iterationDepth == 0 {
        map_.Compact();
      }
    }
  }

  // ---------------------------------------------------------------- facts about tables

  lemma {:induction false} HasAt(data: seq<Entry>, i: nat)
    requires i < |data|
    ensures Has(data, data[i].id)
    ensures DistinctIds(data) ==> Find(data, data[i].id) == i
  {
    var k := Find(data, data[i].id);
    assert k <= i;
  }

  lemma InsertAt(data: seq<Entry>, e: Entry, at: nat)
    requires DistinctIds(data) && !Has(data, e.id) && at <= |data|
    ensures Inserted(data, e, data[..at] + [e] + data[at..])
  {
    var after := data[..at] + [e] + data[at..];
    assert data == data[..at] + data[at..];
    InsertIsDistinct(data, e, at);
  }

  lemma InsertIsDistinct(data: seq<Entry>, e: Entry, at: nat)
    requires DistinctIds(data) && !Has(data, e.id) && at <= |data|
    ensures DistinctIds(data[..at] + [e] + data[at..])
  {
    var after := data[..at] + [e] + data[at..];
    assert forall k :: 0 <= k < |data| ==> data[k].id != e.id;
    hide Has;
    forall i, j | 0 <= i < j < |after| ensures after[i].id != after[j].id {
      assert after[i] == if i < at then data[i] else if i == at then e else data[i - 1];
      assert after[j] == if j < at then data[j] else if j == at then e else data[j - 1];
    }
  }

  lemma InsertKeeps(data: seq<Entry>, e: Entry, after: seq<Entry>, id: int)
    requires Inserted(data, e, after) && Has(data, id)
    ensures Has(after, id)
  {
    var entry := data[Find(data, id)];
    assert entry in multiset(data);
    assert entry in multiset(after);
    var i :| 0 <= i < |after| && after[i] == entry;
    HasAt(after, i);
  }

  lemma EraseIsDistinct(data: seq<Entry>, k: nat)
    requires DistinctIds(data) && k < |data|
    ensures DistinctIds(Erase(data, k))
  {
    var after := Erase(data, k);
    assert forall i :: 0 <= i < |after| ==> after[i] == if i < k then data[i] else data[i + 1];
  }

  lemma EraseKeeps(data: seq<Entry>, k: nat, id: int)
    requires k < |data| && Has(data, id) && data[k].id != id
    ensures Has(Erase(data, k), id)
  {
    var j := Find(data, id);
    var after := Erase(data, k);
    var i := if j < k then j else j - 1;
    assert after[i] == data[j];
    HasAt(after, i);
  }

  lemma {:induction false} PointersOfConcat(a: seq<Entry>, b: seq<Entry>)
    ensures Pointers(a + b) == Pointers(a) + Pointers(b)
  {
    if b == [] {
      assert a + b == a;
    } else {
      assert (a + b)[..|a + b| - 1] == a + b[..|b| - 1];
      PointersOfConcat(a, b[..|b| - 1]);
    }
  }

  lemma PointersOfOne(e: Entry)
    ensures Pointers([e]) == multiset{e.pointer}
  {
    assert [e][..0] == [];
  }

  lemma ErasePointers(data: seq<Entry>, k: nat)
    requires k < |data|
    ensures Pointers(data) == Pointers(Erase(data, k)) + multiset{data[k].pointer}
  {
    hide Pointers;
    var a, b := data[..k], data[k + 1..];
    assert data == a + ([data[k]] + b);
    PointersOfConcat(a, [data[k]] + b);
    PointersOfConcat([data[k]], b);
    PointersOfConcat(a, b);
    PointersOfOne(data[k]);
  }

  lemma {:induction false} PointersSplit(data: seq<Entry>, ids: set<int>)
    ensures Pointers(data) == Pointers(Without(data, ids)) + Gone(data, ids)
  {
    if data != [] {
      var n := |data| - 1;
      var front, last := data[..n], data[n];
      PointersSplit(front, ids);
      assert Pointers(data) == Pointers(front) + multiset{last.pointer};
      var w := Without(front, ids);
      PointersOfConcat(w, [last]);
      PointersOfOne(last);
      hide Pointers;
      assert w + [] == w;
    }
  }

  /** Part of the way through Compact: the ids in `waiting` are still to be removed. */
  ghost predicate Compacting(own: bool, before: Table, waiting: set<int>, t: Table) {
    && waiting <= before.removed && t.depth == 0 && before.depth == 0 && t.removed == before.removed && t.nextId == before.nextId
    && DistinctIds(t.data) && DistinctIds(before.data) && (forall id :: id in waiting ==> Has(t.data, id))
    && t.data == Without(before.data, before.removed - waiting)
    && (if own then t.deleted + Pointers(t.data) == before.deleted + Pointers(before.data) else t.deleted == before.deleted)
  }

  ghost predicate Proper(t: Table) {
    DistinctIds(t.data) && (forall id :: id in t.removed ==> Has(t.data, id)) && (t.depth == 0 ==> t.removed == {})
  }

  lemma CompactStarts(own: bool, t: Table)
    requires t.depth == 0 && DistinctIds(t.data) && forall id :: id in t.removed ==> Has(t.data, id)
    ensures Compacting(own, t, t.removed, t)
  {
    WithoutNothing(t.data);
    assert t.removed - t.removed == {};
  }

  lemma CompactingIsDistinct(own: bool, before: Table, waiting: set<int>, t: Table)
    requires Compacting(own, before, waiting, t)
    ensures DistinctIds(t.data)
  {
  }

  lemma CompactStep(own: bool, before: Table, waiting: set<int>, t: Table, id: int)
    requires Compacting(own, before, waiting, t) && id in waiting
    ensures Compacting(own, before, waiting - {id}, RemoveId(own, t, id))
  {
    var k := Find(t.data, id);
    hide Find, Pointers, Without, DistinctIds;
    assert before.removed - (waiting - {id}) == (before.removed - waiting) + {id};
    RemoveOneMore(before.data, before.removed - waiting, id);
    EraseIsDistinct(t.data, k);
    ErasePointers(t.data, k);
    forall other | other in waiting - {id} ensures Has(Erase(t.data, k), other) {
      EraseKeeps(t.data, k, other);
    }
  }

  lemma CompactEnds(own: bool, before: Table, t: Table)
    requires Compacting(own, before, {}, t)
    ensures t.(removed := {}) == Compacted(own, before) && Proper(t.(removed := {}))
  {
    hide Find, Pointers, Without, DistinctIds, Gone;
    assert before.removed - {} == before.removed;
    PointersSplit(before.data, before.removed);
    if own {
      Cancel(t.deleted, Pointers(t.data), before.deleted, Gone(before.data, before.removed));
    }
  }

  lemma Cancel(a: multiset<int>, b: multiset<int>, c: multiset<int>, d: multiset<int>)
    requires a + b == c + (b + d)
    ensures a == c + d
  {
    forall x ensures a[x] == (c + d)[x] {
      assert (a + b)[x] == (c + (b + d))[x];
    }
  }

  lemma {:induction false} WithoutNothing(data: seq<Entry>)
    ensures Without(data, {}) == data
  {
    if data != [] {
      WithoutNothing(data[..|data| - 1]);
    }
  }

  /** Removing one more id is erasing its entry. */
  lemma {:induction false} RemoveOneMore(data: seq<Entry>, ids: set<int>, id: int)
    requires DistinctIds(data) && id !in ids && Has(Without(data, ids), id)
    ensures var w := Without(data, ids); Without(data, ids + {id}) == Erase(w, Find(w, id))
  {
    var n := |data| - 1;
    var front, last := data[..n], data[n];
    var w := Without(front, ids);
    assert w + [] == w;
    if last.id == id {
      NotBefore(front, ids, id);
      SameWithout(front, ids, id);
      FindLast(w, last);
    } else {
      FindInFront(w, if last.id in ids then [] else [last], id);
      RemoveOneMore(front, ids, id);
      hide Without, DistinctIds, Find;
      EraseInFront(w, last, Find(w, id));
    }
  }

  lemma FindLast(w: seq<Entry>, last: Entry)
    requires forall i :: 0 <= i < |w| ==> w[i].id != last.id
    ensures Find(w + [last], last.id) == |w| && Erase(w + [last], |w|) == w
  {
    hide Find;
    assert (w + [last])[|w|] == last;
  }

  lemma EraseInFront(w: seq<Entry>, last: Entry, k: nat)
    requires k < |w|
    ensures Erase(w + [last], k) == Erase(w, k) + [last]
  {
  }

  lemma FindInFront(w: seq<Entry>, more: seq<Entry>, id: int)
    requires Has(w + more, id) && forall i :: 0 <= i < |more| ==> more[i].id != id
    ensures Has(w, id) && Find(w + more, id) == Find(w, id)
  {
    var all := w + more;
    var k := Find(all, id);
    assert forall i :: |w| <= i < |all| ==> all[i] == more[i - |w|];
    assert forall i :: 0 <= i < |w| ==> all[i] == w[i];
  }

  lemma {:induction false} NotBefore(front: seq<Entry>, ids: set<int>, id: int)
    requires forall i :: 0 <= i < |front| ==> front[i].id != id
    ensures forall i :: 0 <= i < |Without(front, ids)| ==> Without(front, ids)[i].id != id
  {
    if front != [] {
      NotBefore(front[..|front| - 1], ids, id);
    }
  }

  lemma {:induction false} SameWithout(front: seq<Entry>, ids: set<int>, id: int)
    requires forall i :: 0 <= i < |front| ==> front[i].id != id
    ensures Without(front, ids + {id}) == Without(front, ids)
  {
    if front != [] {
      SameWithout(front[..|front| - 1], ids, id);
    }
  }
}
