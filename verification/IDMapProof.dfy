/**
 Runs of IDMap operations with any number of open iterators: what every run keeps, what an iteration
 visits, and how often each pointer is deleted.
 */
module IDMapProof {
  import opened IDMap

  /** An open iterator and the ids it has stood on. */
  datatype Cursor = Cursor(position: nat, visited: seq<int>)

  datatype System = System(table: Table, cursors: map<int, Cursor>, added: multiset<int>)

  datatype Operation =
    | Insert(id: int, pointer: int, automatic: bool, after: seq<Entry>)
    | Remove(id: int)
    | Open(name: int)
    | Advance(name: int)
    | Close(name: int)

  const EMPTY := System(Table([], {}, 0, 1, multiset{}), map[], multiset{})

  /** What callers must respect: no insertion of a present id or while an iterator is open, no step past the end. */
  ghost predicate Enabled(s: System, op: Operation) {
    match op
    case Insert(id, pointer, automatic, after) =>
      s.cursors == map[] && Inserted(s.table.data, Entry(id, pointer), after) && (automatic ==> id == s.table.nextId)
    case Remove(_) => true
    case Open(name) => name !in s.cursors
    case Advance(name) => name in s.cursors && s.cursors[name].position < |s.table.data|
    case Close(name) => name in s.cursors && s.table.depth > 0
  }

  /** The cursor after moving to the first entry from `p` on that is not removed. */
  function Land(t: Table, c: Cursor, p: nat): Cursor
    requires p <= |t.data|
  {
    var q := Skip(t.data, t.removed, p);
    Cursor(q, if q < |t.data| then c.visited + [t.data[q].id] else c.visited)
  }

  ghost function Step(own: bool, s: System, op: Operation): System
    requires Enabled(s, op)
  {
    match op
    case Insert(id, pointer, automatic, after) =>
      s.(table := s.table.(data := after, nextId := if automatic then id + 1 else s.table.nextId),
         added := s.added + multiset{pointer})
    case Remove(id) => s.(table := RemoveId(own, s.table, id))
    case Open(name) =>
      var t := s.table.(depth := s.table.depth + 1);
      s.(table := t, cursors := s.cursors[name := Land(t, Cursor(0, []), 0)])
    case Advance(name) =>
      var c := s.cursors[name];
      s.(cursors := s.cursors[name := Land(s.table, c, c.position + 1)])
    case Close(name) => s.(table := CloseOne(own, s.table), cursors := s.cursors - {name})
  }

  ghost predicate Runs(own: bool, s: System, ops: seq<Operation>)
    decreases |ops|
  {
    ops == [] || (Enabled(s, ops[0]) && Runs(own, Step(own, s, ops[0]), ops[1..]))
  }

  ghost function Run(own: bool, s: System, ops: seq<Operation>): System
    requires Runs(own, s, ops)
    decreases |ops|
  {
    if ops == [] then s else Run(own, Step(own, s, ops[0]), ops[1..])
  }

  // ---------------------------------------------------------------- what is kept

  ghost predicate VisitedBefore(t: Table, c: Cursor) {
    forall v :: v in c.visited ==> Has(t.data, v) && Find(t.data, v) <= c.position
  }

  /** The live ids visited so far are those up to the position, each visited once. */
  ghost predicate CursorOk(t: Table, c: Cursor) {
    && c.position <= |t.data|
    && VisitedBefore(t, c)
    && (forall i, j :: 0 <= i < j < |c.visited| ==> c.visited[i] != c.visited[j])
    && (forall i :: 0 <= i < |t.data| && t.data[i].id !in t.removed ==> (t.data[i].id in c.visited <==> i <= c.position))
  }

  /** Every pointer ever added is in the table or has been deleted, as often as it was added. */
  ghost predicate Conserved(own: bool, s: System) {
    if own then s.table.deleted + Pointers(s.table.data) == s.added else s.table.deleted == multiset{}
  }

  ghost predicate Inv(own: bool, s: System) {
    && Proper(s.table) && Conserved(own, s)
    && s.table.depth == |s.cursors|
    && (forall name :: name in s.cursors ==> CursorOk(s.table, s.cursors[name]))
  }

  /** Moving on from `p - 1`: the entries passed over are removed ones. */
  lemma LandIsOk(t: Table, c: Cursor, p: nat)
    requires DistinctIds(t.data) && p <= |t.data|
    requires p > 0 ==> CursorOk(t, c) && c.position == p - 1
    requires p == 0 ==> c.visited == []
    ensures CursorOk(t, Land(t, c, p))
  {
    var q := Skip(t.data, t.removed, p);
    var r := Land(t, c, p);
    forall i | 0 <= i < |t.data| ensures Has(t.data, t.data[i].id) && Find(t.data, t.data[i].id) == i {
      HasAt(t.data, i);
    }
    hide Skip, Find, Has;
    if q < |t.data| {
      assert t.data[q].id !in c.visited;
    }
    forall i | 0 <= i < |t.data| && t.data[i].id !in t.removed ensures t.data[i].id in r.visited <==> i <= q {
      assert i < p || i >= q;
      assert q < |t.data| && i != q ==> t.data[i].id != t.data[q].id;
    }
  }

  /** A cursor stays right when ids are removed and the entries stay. */
  lemma CursorStays(t: Table, u: Table, c: Cursor)
    requires CursorOk(t, c) && u.data == t.data && t.removed <= u.removed
    ensures CursorOk(u, c)
  {
    hide Find, Has;
  }

  lemma {:induction false} SamePointers(a: seq<Entry>, b: seq<Entry>)
    requires multiset(a) == multiset(b)
    ensures Pointers(a) == Pointers(b)
    decreases |a|
  {
    if a == [] {
      assert |multiset(b)| == 0;
    } else {
      var n := |a| - 1;
      assert a == a[..n] + [a[n]];
      assert a[n] in multiset(b);
      var k :| 0 <= k < |b| && b[k] == a[n];
      EraseMultiset(b, k);
      CancelOne(multiset(a[..n]), multiset(Erase(b, k)), a[n]);
      hide Erase;
      SamePointers(a[..n], Erase(b, k));
      ErasePointers(b, k);
    }
  }

  lemma EraseMultiset(b: seq<Entry>, k: nat)
    requires k < |b|
    ensures multiset(b) == multiset(Erase(b, k)) + multiset{b[k]}
  {
    assert b == b[..k] + [b[k]] + b[k + 1..];
  }

  lemma CancelOne(x: multiset<Entry>, y: multiset<Entry>, e: Entry)
    requires x + multiset{e} == y + multiset{e}
    ensures x == y
  {
    forall z ensures x[z] == y[z] {
      assert (x + multiset{e})[z] == (y + multiset{e})[z];
    }
  }

  lemma InsertPointers(data: seq<Entry>, e: Entry, after: seq<Entry>)
    requires Inserted(data, e, after)
    ensures Pointers(after) == Pointers(data) + multiset{e.pointer}
  {
    SamePointers(after, data + [e]);
    PointersOfConcat(data, [e]);
    PointersOfOne(e);
  }

  lemma InsertKeepsInv(own: bool, s: System, op: Operation)
    requires Inv(own, s) && op.Insert? && Enabled(s, op)
    ensures Inv(own, Step(own, s, op))
  {
    InsertPointers(s.table.data, Entry(op.id, op.pointer), op.after);
    hide Pointers, Find, Has, CursorOk;
  }

  lemma RemoveKeepsInv(own: bool, s: System, id: int)
    requires Inv(own, s)
    ensures Inv(own, Step(own, s, Remove(id)))
  {
    var t := s.table;
    var k := Find(t.data, id);
    if k < |t.data| && t.depth == 0 {
      assert s.cursors == map[];
      EraseIsDistinct(t.data, k);
      ErasePointers(t.data, k);
      hide Pointers, Find, CursorOk, Erase;
      if own {
        Regroup(t.deleted, multiset{t.data[k].pointer}, Pointers(Erase(t.data, k)));
      }
    } else {
      hide Pointers, Find, CursorOk;
      forall name | name in s.cursors ensures CursorOk(RemoveId(own, t, id), s.cursors[name]) {
        CursorStays(t, RemoveId(own, t, id), s.cursors[name]);
      }
    }
  }

  lemma Regroup(a: multiset<int>, x: multiset<int>, b: multiset<int>)
    ensures a + x + b == a + (b + x)
  {
  }

  lemma OpenKeepsInv(own: bool, s: System, name: int)
    requires Inv(own, s) && name !in s.cursors
    ensures Inv(own, Step(own, s, Open(name)))
  {
    var t := s.table.(depth := s.table.depth + 1);
    LandIsOk(t, Cursor(0, []), 0);
    hide Pointers, CursorOk, Land, Has;
    forall other | other in s.cursors ensures CursorOk(t, s.cursors[other]) {
      CursorStays(s.table, t, s.cursors[other]);
    }
    CountAdded(s.cursors, name, Land(t, Cursor(0, []), 0));
  }

  lemma CountKeys(m: map<int, Cursor>)
    ensures |m| == |m.Keys|
  {
  }

  lemma CountAdded(m: map<int, Cursor>, name: int, c: Cursor)
    requires name !in m
    ensures |m[name := c]| == |m| + 1
  {
    assert m[name := c].Keys == m.Keys + {name};
    CountKeys(m);
    CountKeys(m[name := c]);
  }

  lemma CountChanged(m: map<int, Cursor>, name: int, c: Cursor)
    requires name in m
    ensures |m[name := c]| == |m|
  {
    assert m[name := c].Keys == m.Keys;
    CountKeys(m);
    CountKeys(m[name := c]);
  }

  lemma CountTakenOut(m: map<int, Cursor>, name: int)
    requires name in m
    ensures |m - {name}| == |m| - 1 && (|m| == 1 ==> m - {name} == map[])
  {
    assert (m - {name}).Keys == m.Keys - {name};
    CountKeys(m);
    CountKeys(m - {name});
  }

  lemma AdvanceKeepsInv(own: bool, s: System, name: int)
    requires Inv(own, s) && Enabled(s, Advance(name))
    ensures Inv(own, Step(own, s, Advance(name)))
  {
    hide Pointers, CursorOk, Land, Has, Proper, Conserved;
    var c := s.cursors[name];
    ProperIsDistinct(s.table);
    LandIsOk(s.table, c, c.position + 1);
    CountChanged(s.cursors, name, Land(s.table, c, c.position + 1));
    SameConserved(own, s, Step(own, s, Advance(name)));
  }

  lemma ProperIsDistinct(t: Table)
    requires Proper(t)
    ensures DistinctIds(t.data)
  {
  }

  lemma SameConserved(own: bool, s: System, u: System)
    requires Conserved(own, s) && u.table == s.table && u.added == s.added
    ensures Conserved(own, u)
  {
  }

  /** Compaction moves the removed pointers from the table to the deleted ones. */
  lemma CompactKeeps(own: bool, s: System, t: Table)
    requires Inv(own, s) && t == s.table.(depth := 0)
    ensures Proper(Compacted(own, t))
    ensures forall cursors :: Conserved(own, s.(table := Compacted(own, t), cursors := cursors))
  {
    hide CursorOk, Has, Without, Gone, Pointers;
    PointersSplit(t.data, t.removed);
    WithoutIsDistinct(t.data, t.removed);
    Regroup(t.deleted, Gone(t.data, t.removed), Pointers(Without(t.data, t.removed)));
  }

  lemma CloseKeepsInv(own: bool, s: System, name: int)
    requires Inv(own, s) && Enabled(s, Close(name))
    ensures Inv(own, Step(own, s, Close(name)))
  {
    var after := s.cursors - {name};
    CountTakenOut(s.cursors, name);
    hide Pointers, CursorOk, Has, Compacted;
    var t := s.table.(depth := s.table.depth - 1);
    if t.depth == 0 {
      CompactKeeps(own, s, t);
      CompactedDepth(own, t);
    } else {
      forall other | other in after ensures CursorOk(t, after[other]) {
        CursorStays(s.table, t, after[other]);
      }
    }
  }

  lemma CompactedDepth(own: bool, t: Table)
    ensures Compacted(own, t).depth == t.depth
  {
  }

  lemma {:induction false} WithoutHolds(data: seq<Entry>, ids: set<int>, e: Entry)
    ensures e in Without(data, ids) <==> e in data && e.id !in ids
  {
    if data != [] {
      var n := |data| - 1;
      assert data == data[..n] + [data[n]];
      WithoutHolds(data[..n], ids, e);
    }
  }

  lemma {:induction false} WithoutIsDistinct(data: seq<Entry>, ids: set<int>)
    requires DistinctIds(data)
    ensures DistinctIds(Without(data, ids))
  {
    if data != [] {
      var n := |data| - 1;
      WithoutIsDistinct(data[..n], ids);
      var w := Without(data[..n], ids);
      forall i | 0 <= i < |w| ensures w[i].id != data[n].id {
        WithoutHolds(data[..n], ids, w[i]);
      }
    }
  }

  lemma StepKeeps(own: bool, s: System, op: Operation)
    requires Inv(own, s) && Enabled(s, op)
    ensures Inv(own, Step(own, s, op))
  {
    match op
    case Insert(_, _, _, _) => InsertKeepsInv(own, s, op);
    case Remove(id) => RemoveKeepsInv(own, s, id);
    case Open(name) => OpenKeepsInv(own, s, name);
    case Advance(name) => AdvanceKeepsInv(own, s, name);
    case Close(name) => CloseKeepsInv(own, s, name);
  }

  lemma {:induction false} RunKeeps(own: bool, s: System, ops: seq<Operation>)
    requires Inv(own, s) && Runs(own, s, ops)
    ensures Inv(own, Run(own, s, ops))
    decreases |ops|
  {
    if ops != [] {
      hide Inv, Enabled, Step;
      StepKeeps(own, s, ops[0]);
      RunKeeps(own, Step(own, s, ops[0]), ops[1..]);
    }
  }

  // ---------------------------------------------------------------- what it means

  /** When the last iterator closes the table is left with exactly the live ids, and nothing is put off any more. */
  lemma LastCloseLeavesLive(own: bool, t: Table)
    requires Proper(t) && t.depth == 1
    ensures var u := CloseOne(own, t); u.removed == {} && Ids(u.data) == LiveIds(t) && Proper(u)
  {
    var u := CloseOne(own, t);
    WithoutIsDistinct(t.data, t.removed);
    forall id ensures id in Ids(u.data) <==> id in LiveIds(t) {
      if id in LiveIds(t) {
        var i :| 0 <= i < |t.data| && t.data[i].id !in t.removed && t.data[i].id == id;
        WithoutHolds(t.data, t.removed, t.data[i]);
      }
      if id in Ids(u.data) {
        var i :| 0 <= i < |u.data| && u.data[i].id == id;
        WithoutHolds(t.data, t.removed, u.data[i]);
      }
    }
  }

  /**
   In every run of permitted operations from an empty map: ids whose removal is put off are in the
   table, size() is the number of live ids, every open iterator is inside the table, an iterator that
   is at the end has visited each live id exactly once, and with no iterator open nothing is put off.
   */
  lemma RunIsSafe(own: bool, ops: seq<Operation>)
    requires Runs(own, EMPTY, ops)
    ensures var s := Run(own, EMPTY, ops);
      && (forall id :: id in s.table.removed ==> Has(s.table.data, id))
      && SizeOf(s.table) == |LiveIds(s.table)|
      && s.table.depth == |s.cursors|
      && (s.cursors == map[] ==> s.table.removed == {})
      && forall name :: name in s.cursors ==>
           && s.cursors[name].position <= |s.table.data|
           && (s.cursors[name].position == |s.table.data| ==>
                 forall id :: Live(s.table, id) ==> multiset(s.cursors[name].visited)[id] == 1)
  {
    assert Inv(own, EMPTY);
    RunKeeps(own, EMPTY, ops);
    var s := Run(own, EMPTY, ops);
    SizeCountsLive(s.table);
    hide Run, Runs, Pointers, LiveIds;
    forall name, id | name in s.cursors && s.cursors[name].position == |s.table.data| && Live(s.table, id)
      ensures multiset(s.cursors[name].visited)[id] == 1
    {
      VisitedOnce(s.table, s.cursors[name], id);
    }
  }

  lemma VisitedOnce(t: Table, c: Cursor, id: int)
    requires CursorOk(t, c) && c.position == |t.data| && Live(t, id)
    ensures multiset(c.visited)[id] == 1
  {
    var i := Find(t.data, id);
    assert t.data[i].id in c.visited;
    CountOnce(c.visited, id);
  }

  lemma {:induction false} CountOnce(xs: seq<int>, x: int)
    requires x in xs && forall i, j :: 0 <= i < j < |xs| ==> xs[i] != xs[j]
    ensures multiset(xs)[x] == 1
  {
    var n := |xs| - 1;
    assert xs == xs[..n] + [xs[n]];
    if xs[n] == x {
      assert x !in multiset(xs[..n]);
    } else {
      CountOnce(xs[..n], x);
    }
  }

  /**
   An owning map deletes each pointer, during the run and by its destructor, exactly as often as it was
   added, and never more often before; an external map deletes nothing.
   */
  lemma EachPointerDeletedOnce(own: bool, ops: seq<Operation>)
    requires Runs(own, EMPTY, ops)
    ensures var s := Run(own, EMPTY, ops);
      && (own ==> s.table.deleted <= s.added && Deleted(own, s.table.deleted, Pointers(s.table.data)) == s.added)
      && (!own ==> Deleted(own, s.table.deleted, Pointers(s.table.data)) == multiset{})
  {
    assert Inv(own, EMPTY);
    RunKeeps(own, EMPTY, ops);
  }

  // ---------------------------------------------------------------- what the table stands for

  /** What the callers asked for: the ids inserted and not removed since, with their pointers. */
  function Asked(m: map<int, int>, op: Operation): map<int, int> {
    match op
    case Insert(id, pointer, _, _) => m[id := pointer]
    case Remove(id) => m - {id}
    case _ => m
  }

  function AskedOver(m: map<int, int>, ops: seq<Operation>): map<int, int>
    decreases |ops|
  {
    if ops == [] then m else AskedOver(Asked(m, ops[0]), ops[1..])
  }

  lemma InsertStands(s: System, m: map<int, int>, e: Entry, after: seq<Entry>)
    requires StandsFor(s.table, m) && s.table.removed == {} && Inserted(s.table.data, e, after)
    ensures StandsFor(s.table.(data := after), m[e.id := e.pointer])
  {
    var data := s.table.data;
    HasEntry(data, e.id);
    hide Has, Find;
    forall x ensures x in after <==> x in data || x == e {
      assert x in after <==> x in multiset(after);
      assert x in data <==> x in multiset(data);
    }
    assert forall x :: x in data ==> x.id != e.id;
  }

  lemma CloseStands(own: bool, t: Table, m: map<int, int>)
    requires t.depth > 0 && StandsFor(t, m)
    ensures StandsFor(CloseOne(own, t), m)
  {
    forall e ensures e in Without(t.data, t.removed) <==> e in t.data && e.id !in t.removed {
      WithoutHolds(t.data, t.removed, e);
    }
    hide Without, Gone;
  }

  lemma StepStands(own: bool, s: System, m: map<int, int>, op: Operation)
    requires Inv(own, s) && Enabled(s, op) && StandsFor(s.table, m)
    ensures StandsFor(Step(own, s, op).table, Asked(m, op))
  {
    hide Pointers, CursorOk, Has, StandsFor, CloseOne, RemoveId, Inserted;
    match op
    case Insert(id, pointer, _, after) =>
      InsertStands(s, m, Entry(id, pointer), after);
      SameStands(s.table.(data := after), Step(own, s, op).table, Asked(m, op));
    case Remove(id) => RemoveStands(own, s.table, m, id);
    case Open(_) => SameStands(s.table, Step(own, s, op).table, m);
    case Advance(_) =>
    case Close(_) => CloseStands(own, s.table, m);
  }

  lemma SameStands(t: Table, u: Table, m: map<int, int>)
    requires StandsFor(t, m) && u.data == t.data && u.removed == t.removed
    ensures StandsFor(u, m)
  {
  }

  lemma {:induction false} RunStands(own: bool, s: System, m: map<int, int>, ops: seq<Operation>)
    requires Inv(own, s) && Runs(own, s, ops) && StandsFor(s.table, m)
    ensures StandsFor(Run(own, s, ops).table, AskedOver(m, ops))
    decreases |ops|
  {
    if ops != [] {
      hide Inv, Enabled, Step, StandsFor, Asked;
      StepKeeps(own, s, ops[0]);
      StepStands(own, s, m, ops[0]);
      RunStands(own, Step(own, s, ops[0]), Asked(m, ops[0]), ops[1..]);
    }
  }

  /**
   In every run, with any iterators open in between: the live ids are exactly those inserted and not
   removed since, each with the pointer that was inserted. With no iterator open that is the whole table.
   */
  lemma TableIsAsked(own: bool, ops: seq<Operation>)
    requires Runs(own, EMPTY, ops)
    ensures var t := Run(own, EMPTY, ops).table;
      StandsFor(t, AskedOver(map[], ops)) && LiveIds(t) == AskedOver(map[], ops).Keys
    ensures var s := Run(own, EMPTY, ops);
      s.cursors == map[] ==> forall id, pointer ::
        Entry(id, pointer) in s.table.data <==> id in AskedOver(map[], ops) && AskedOver(map[], ops)[id] == pointer
  {
    assert Inv(own, EMPTY) && StandsFor(EMPTY.table, map[]);
    RunStands(own, EMPTY, map[], ops);
    RunIsSafe(own, ops);
    LiveAre(Run(own, EMPTY, ops).table, AskedOver(map[], ops));
  }

  // ---------------------------------------------------------------- automatic ids

  ghost predicate AllAutomatic(ops: seq<Operation>) {
    forall n :: 0 <= n < |ops| && ops[n].Insert? ==> ops[n].automatic
  }

  function Insertions(ops: seq<Operation>): nat {
    if ops == [] then 0 else (if ops[0].Insert? then 1 else 0) + Insertions(ops[1..])
  }

  ghost predicate BelowNext(t: Table) {
    forall e :: e in t.data ==> e.id < t.nextId
  }

  lemma {:induction false} AutomaticRun(own: bool, s: System, ops: seq<Operation>)
    requires Inv(own, s) && Runs(own, s, ops) && AllAutomatic(ops) && BelowNext(s.table)
    ensures var t := Run(own, s, ops).table; BelowNext(t) && t.nextId == s.table.nextId + Insertions(ops)
    decreases |ops|
  {
    if ops != [] {
      AutomaticStep(own, s, ops[0]);
      assert AllAutomatic(ops[1..]);
      hide Inv, Enabled, Step, BelowNext, AllAutomatic;
      StepKeeps(own, s, ops[0]);
      AutomaticRun(own, Step(own, s, ops[0]), ops[1..]);
    }
  }

  lemma AutomaticStep(own: bool, s: System, op: Operation)
    requires Inv(own, s) && Enabled(s, op) && (op.Insert? ==> op.automatic) && BelowNext(s.table)
    ensures var t := Step(own, s, op).table;
      BelowNext(t) && t.nextId == s.table.nextId + if op.Insert? then 1 else 0
  {
    hide Pointers, CursorOk, Has;
    match op
    case Insert(id, pointer, _, after) =>
      forall x | x in after ensures x.id <= id {
        assert x in multiset(after);
      }
    case Remove(id) =>
      var k := Find(s.table.data, id);
      if k < |s.table.data| {
        forall e | e in Erase(s.table.data, k) ensures e in s.table.data {
          EraseHolds(s.table.data, k, e);
        }
      }
    case Close(_) =>
      forall e | e in Without(s.table.data, s.table.removed) ensures e in s.table.data {
        WithoutHolds(s.table.data, s.table.removed, e);
      }
    case _ =>
  }

  /** Add gives the ids 1, 2, 3 and so on, none of them twice, and the next one is never in the table. */
  lemma AutomaticIds(own: bool, ops: seq<Operation>)
    requires Runs(own, EMPTY, ops) && AllAutomatic(ops)
    ensures var t := Run(own, EMPTY, ops).table; t.nextId == 1 + Insertions(ops) && !Has(t.data, t.nextId)
  {
    assert Inv(own, EMPTY) && BelowNext(EMPTY.table);
    AutomaticRun(own, EMPTY, ops);
    HasEntry(Run(own, EMPTY, ops).table.data, Run(own, EMPTY, ops).table.nextId);
  }
}
