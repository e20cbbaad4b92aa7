/**
 An abstract finite file system and the traversal that FileEnumerator (base/file_util_posix.cc) makes
 of it. A path is the list of its names; a directory is listed in an arbitrary but fixed order, with
 the entries "." and ".." anywhere in it.
 */
module FileTree {

  type Path = seq<string>

  datatype Kind = File | Directory

  datatype Nodes = Nodes(kinds: map<Path, Kind>, order: seq<Path>)

  predicate IsDots(name: string) {
    name == "." || name == ".."
  }

  predicate IsDirectory(v: Nodes, p: Path) {
    p in v.kinds && v.kinds[p] == Directory
  }

  /** The top, or something that stands in a directory under a proper name. */
  predicate Standing(v: Nodes, q: Path) {
    q == [] || (IsDirectory(v, q[..|q| - 1]) && !IsDots(q[|q| - 1]))
  }

  /** Everything stands somewhere, and the order covers it once. */
  ghost predicate Sound(v: Nodes) {
    && (forall q :: q in v.kinds ==> Standing(v, q))
    && (forall q :: q in v.kinds ==> q in v.order)
    && (forall i, j :: 0 <= i < j < |v.order| ==> v.order[i] != v.order[j])
  }

  ghost const NOTHING := Nodes(map[], [])

  type Volume = v: Nodes | Sound(v) ghost witness NOTHING

  // ---------------------------------------------------------------- listing a directory

  datatype Entry = Entry(name: string, kind: Kind)

  /** The place of `q` in the listing of `d`: a child of `d`, or its "." or "..". */
  predicate Belongs(v: Nodes, d: Path, q: Path) {
    |q| == |d| + 1 && q[..|d|] == d && (q in v.kinds || IsDots(q[|d|]))
  }

  function Listed(v: Nodes, d: Path, order: seq<Path>): seq<Entry> {
    if order == [] then []
    else
      var rest := Listed(v, d, order[1..]);
      var q := order[0];
      if Belongs(v, d, q) then [Entry(q[|d|], if q in v.kinds then v.kinds[q] else Directory)] + rest else rest
  }

  /** What ReadDirectory gives for a directory. */
  function Listing(v: Nodes, d: Path): seq<Entry> {
    Listed(v, d, v.order)
  }

  // ---------------------------------------------------------------- the enumerator

  datatype Options = Options(recursive: bool, files: bool, directories: bool, dotDot: bool)

  predicate ShouldSkip(o: Options, name: string) {
    name == "." || (name == ".." && !o.dotDot)
  }

  predicate Matches(o: Options, kind: Kind) {
    if kind == Directory then o.directories else o.files
  }

  /** The entries that are returned, and the paths that are pushed. */
  function Shown(o: Options, entries: seq<Entry>): seq<Entry> {
    if entries == [] then []
    else
      var n := |entries| - 1;
      Shown(o, entries[..n]) +
      (if !ShouldSkip(o, entries[n].name) && Matches(o, entries[n].kind) then [entries[n]] else [])
  }

  function Pushed(o: Options, d: Path, entries: seq<Entry>): seq<Path> {
    if entries == [] then []
    else
      var n := |entries| - 1;
      Pushed(o, d, entries[..n]) +
      (if !ShouldSkip(o, entries[n].name) && o.recursive && entries[n].kind == Directory
       then [d + [entries[n].name]] else [])
  }

  datatype Enumerator = Enumerator(directory: Path, entries: seq<Entry>, cursor: nat, pending: seq<Path>)

  function Start(root: Path): Enumerator {
    Enumerator(root, [], 0, [root])
  }

  /** Reads the directory on top of the stack; one that cannot be read leaves the entries as they are. */
  function Load(v: Volume, o: Options, e: Enumerator): Enumerator
    requires e.pending != []
  {
    var n := |e.pending| - 1;
    var d := e.pending[n];
    if !IsDirectory(v, d) then e.(directory := d, pending := e.pending[..n])
    else Enumerator(d, Shown(o, Listing(v, d)), 0, e.pending[..n] + Pushed(o, d, Listing(v, d)))
  }

  /** No pending path is another one or lies inside another one. */
  ghost predicate Apart(ps: seq<Path>) {
    forall i, j :: 0 <= i < |ps| && 0 <= j < |ps| && i != j ==> !(ps[i] <= ps[j])
  }

  ghost predicate Within(ps: seq<Path>, q: Path) {
    exists i :: 0 <= i < |ps| && ps[i] <= q
  }

  ghost predicate StrictlyWithin(ps: seq<Path>, q: Path) {
    exists i :: 0 <= i < |ps| && ps[i] < q
  }

  ghost function Cover(v: Volume, ps: seq<Path>): set<Path> {
    set q | q in v.kinds && Within(ps, q)
  }

  /** Options under which the stack never holds "..": the source forbids ".." in recursive enumerations. */
  ghost predicate Allowed(o: Options) {
    o.recursive ==> !o.dotDot
  }

  // ---------------------------------------------------------------- what a listing holds

  lemma {:induction false} ListedHolds(v: Nodes, d: Path, order: seq<Path>)
    requires forall i, j :: 0 <= i < j < |order| ==> order[i] != order[j]
    ensures forall e :: e in Listed(v, d, order) ==> d + [e.name] in order && Belongs(v, d, d + [e.name])
    ensures forall e :: e in Listed(v, d, order) && d + [e.name] in v.kinds ==> e.kind == v.kinds[d + [e.name]]
    ensures forall q :: q in order && Belongs(v, d, q) && q in v.kinds ==> Entry(q[|d|], v.kinds[q]) in Listed(v, d, order)
    ensures forall i, j :: 0 <= i < j < |Listed(v, d, order)| ==> Listed(v, d, order)[i].name != Listed(v, d, order)[j].name
  {
    if order != [] {
      ListedHolds(v, d, order[1..]);
      var q := order[0];
      assert order == [q] + order[1..];
      if Belongs(v, d, q) {
        assert q == d + [q[|d|]];
        var rest := Listed(v, d, order[1..]);
        forall e | e in rest ensures e.name != q[|d|] {
          assert d + [e.name] in order[1..];
        }
      }
    }
  }

  /** The names of a listing are those of the children, and "." and ".."; no name comes twice. */
  ghost predicate Lists(v: Nodes, d: Path, entries: seq<Entry>) {
    && (forall e :: e in entries ==> if d + [e.name] in v.kinds then e.kind == v.kinds[d + [e.name]] else IsDots(e.name))
    && (forall name :: d + [name] in v.kinds ==> Entry(name, v.kinds[d + [name]]) in entries)
    && DistinctNames(entries)
  }

  lemma ListingLists(v: Volume, d: Path)
    ensures Lists(v, d, Listing(v, d))
  {
    ListedHolds(v, d, v.order);
    hide Listed;
    forall name | d + [name] in v.kinds ensures Entry(name, v.kinds[d + [name]]) in Listing(v, d) {
      var q := d + [name];
      assert q in v.order && q[..|d|] == d && q[|d|] == name;
    }
    forall e | e in Listing(v, d) ensures d + [e.name] in v.kinds || IsDots(e.name) {
      assert (d + [e.name])[|d|] == e.name;
    }
  }

  ghost predicate DistinctNames(entries: seq<Entry>) {
    forall i, j :: 0 <= i < j < |entries| ==> entries[i].name != entries[j].name
  }

  lemma {:induction false} PushedHolds(o: Options, d: Path, entries: seq<Entry>, q: Path)
    ensures q in Pushed(o, d, entries) <==>
      exists e :: e in entries && !ShouldSkip(o, e.name) && o.recursive && e.kind == Directory && q == d + [e.name]
  {
    if entries != [] {
      var n := |entries| - 1;
      assert entries == entries[..n] + [entries[n]];
      PushedHolds(o, d, entries[..n], q);
    }
  }

  lemma {:induction false} PushedDistinct(o: Options, d: Path, entries: seq<Entry>)
    requires DistinctNames(entries)
    ensures forall i, j :: 0 <= i < j < |Pushed(o, d, entries)| ==> Pushed(o, d, entries)[i] != Pushed(o, d, entries)[j]
  {
    if entries != [] {
      var n := |entries| - 1;
      var front, last := entries[..n], d + [entries[n].name];
      PushedDistinct(o, d, front);
      var ps := Pushed(o, d, front);
      forall i | 0 <= i < |ps| ensures ps[i] != last {
        PushedHolds(o, d, front, ps[i]);
        var e :| e in front && ps[i] == d + [e.name];
        assert ps[i][|d|] == e.name && last[|d|] == entries[n].name;
      }
    }
  }

  /** A path that is pushed is a subdirectory, and every subdirectory is pushed once. */
  lemma PushedAre(v: Volume, o: Options, d: Path)
    requires Allowed(o)
    ensures var ps := Pushed(o, d, Listing(v, d));
      && (forall q :: q in ps <==> o.recursive && IsDirectory(v, q) && |q| == |d| + 1 && d <= q)
      && (forall i, j :: 0 <= i < j < |ps| ==> ps[i] != ps[j])
  {
    ListingLists(v, d);
    PushedDistinct(o, d, Listing(v, d));
    hide Listing, Pushed, Sound;
    forall q | q in Pushed(o, d, Listing(v, d)) ensures o.recursive && IsDirectory(v, q) && |q| == |d| + 1 && d <= q {
      PushedIsSubdirectory(v, o, d, q);
    }
    forall q | o.recursive && IsDirectory(v, q) && |q| == |d| + 1 && d <= q ensures q in Pushed(o, d, Listing(v, d)) {
      SubdirectoryIsPushed(v, o, d, q);
    }
  }

  /** Under a proper name a listing shows the child of that name and no other. */
  lemma ListingEntry(v: Volume, d: Path, e: Entry)
    requires !IsDots(e.name)
    ensures e in Listing(v, d) <==> d + [e.name] in v.kinds && v.kinds[d + [e.name]] == e.kind
  {
    ListingLists(v, d);
    hide Listing, Sound, DistinctNames;
  }

  lemma ProperName(v: Volume, d: Path, q: Path)
    requires q in v.kinds && |q| == |d| + 1 && d <= q
    ensures q == d + [q[|d|]] && !IsDots(q[|d|])
  {
    assert Standing(v, q) by { hide Standing; }
    hide Sound, IsDirectory;
    assert q[|q| - 1] == q[|d|];
  }

  lemma SubdirectoryIsPushed(v: Volume, o: Options, d: Path, q: Path)
    requires o.recursive && !o.dotDot && IsDirectory(v, q) && |q| == |d| + 1 && d <= q
    ensures q in Pushed(o, d, Listing(v, d))
  {
    hide Listing, Pushed, Sound;
    ProperName(v, d, q);
    var e := Entry(q[|d|], Directory);
    ListingEntry(v, d, e);
    PushedHolds(o, d, Listing(v, d), q);
  }

  lemma PushedIsSubdirectory(v: Volume, o: Options, d: Path, q: Path)
    requires Allowed(o) && q in Pushed(o, d, Listing(v, d))
    ensures o.recursive && IsDirectory(v, q) && |q| == |d| + 1 && d <= q
  {
    hide Listing, Pushed, Sound;
    PushedHolds(o, d, Listing(v, d), q);
    var e :| e in Listing(v, d) && !ShouldSkip(o, e.name) && o.recursive && e.kind == Directory && q == d + [e.name];
    ListingEntry(v, d, e);
  }

  lemma Comparable(a: Path, d: Path, q: Path)
    ensures a <= q && d <= q ==> a <= d || d <= a
  {
    assert |a| <= |d| && a <= q && d <= q ==> a == q[..|a|] == d[..|a|];
  }

  /** Replacing a directory by its subdirectories keeps the stack apart and covers less. */
  lemma Descend(v: Volume, o: Options, ps: seq<Path>, d: Path)
    requires Apart(ps + [d]) && Allowed(o) && d in v.kinds
    ensures var next := ps + Pushed(o, d, Listing(v, d));
      Apart(next) && Cover(v, next) < Cover(v, ps + [d])
  {
    PushedAre(v, o, d);
    hide Pushed, Listing;
    var sub := Pushed(o, d, Listing(v, d));
    var next, all := ps + sub, ps + [d];
    assert all[|ps|] == d;
    assert forall i :: 0 <= i < |ps| ==> all[i] == ps[i] == next[i];
    forall i, j | 0 <= i < |next| && 0 <= j < |next| && i != j ensures !(next[i] <= next[j]) {
      if i < |ps| && j >= |ps| {
        assert next[j] in sub;
        Comparable(next[i], d, next[j]);
      } else if i >= |ps| {
        assert next[i] in sub;
        assert j >= |ps| ==> next[j] in sub;
      }
    }
    forall q | q in Cover(v, next) ensures q in Cover(v, all) && q != d {
      var i :| 0 <= i < |next| && next[i] <= q;
      if i < |ps| {
        assert all[i] <= q;
        assert !(all[i] <= all[|ps|]);
      } else {
        assert next[i] in sub && d <= next[i];
        assert all[|ps|] <= q;
      }
    }
    assert d in Cover(v, all);
  }

  lemma ApartFront(ps: seq<Path>, d: Path)
    requires Apart(ps + [d])
    ensures Apart(ps)
  {
    assert forall i :: 0 <= i < |ps| ==> (ps + [d])[i] == ps[i];
  }

  lemma SmallerSet(a: set<Path>, b: set<Path>)
    requires a <= b
    ensures |a| <= |b| && (a < b ==> |a| < |b|)
  {
    assert b == a + (b - a);
  }

  /** Reading a directory keeps the stack apart and leaves less to do. */
  lemma LoadDescends(v: Volume, o: Options, e: Enumerator)
    requires e.pending != [] && Apart(e.pending) && Allowed(o)
    ensures var next := Load(v, o, e).pending;
      Apart(next) && (|Cover(v, next)| < |Cover(v, e.pending)| ||
                      (|Cover(v, next)| <= |Cover(v, e.pending)| && |next| < |e.pending|))
  {
    var n := |e.pending| - 1;
    var ps, d := e.pending[..n], e.pending[n];
    assert e.pending == ps + [d];
    hide Pushed, Listing, Shown, Sound;
    if IsDirectory(v, d) {
      Descend(v, o, ps, d);
      SmallerSet(Cover(v, ps + Pushed(o, d, Listing(v, d))), Cover(v, e.pending));
    } else {
      ApartFront(ps, d);
      CoverFront(v, ps, d);
      SmallerSet(Cover(v, ps), Cover(v, e.pending));
    }
  }

  lemma CoverFront(v: Volume, ps: seq<Path>, d: Path)
    ensures Cover(v, ps) <= Cover(v, ps + [d])
  {
    forall q | q in Cover(v, ps) ensures q in Cover(v, ps + [d]) {
      var i :| 0 <= i < |ps| && ps[i] <= q;
      assert (ps + [d])[i] <= q;
    }
  }

  /** Reads directories until there is an entry under the cursor or the stack is empty. */
  ghost function Settle(v: Volume, o: Options, e: Enumerator): (r: Enumerator)
    requires Apart(e.pending) && Allowed(o)
    ensures Apart(r.pending)
    decreases |Cover(v, e.pending)|, |e.pending|
  {
    if e.cursor < |e.entries| || e.pending == [] then e
    else
      LoadDescends(v, o, e);
      Settle(v, o, Load(v, o, e))
  }

  datatype Answer = Found(path: Path) | Exhausted

  /** What Next returns with the cursor where it is. */
  function Current(e: Enumerator): Answer {
    if e.cursor < |e.entries| then Found(e.directory + [e.entries[e.cursor].name]) else Exhausted
  }

  ghost function Next(v: Volume, o: Options, e: Enumerator): (r: Enumerator)
    requires Apart(e.pending) && Allowed(o)
    ensures Apart(r.pending)
  {
    Settle(v, o, e.(cursor := e.cursor + 1))
  }

  // ---------------------------------------------------------------- the traversal as a whole

  /** The paths of `entries` in the directory `d`. */
  function PathsIn(d: Path, entries: seq<Entry>): (r: seq<Path>)
    ensures |r| == |entries| && forall i :: 0 <= i < |r| ==> r[i] == d + [entries[i].name]
  {
    seq(|entries|, i requires 0 <= i < |entries| => d + [entries[i].name])
  }

  /** Everything that is still to come from the stack. */
  ghost function Traversal(v: Volume, o: Options, ps: seq<Path>): seq<Path>
    requires Apart(ps) && Allowed(o)
    decreases |Cover(v, ps)|, |ps|
  {
    if ps == [] then []
    else
      var e := Enumerator([], [], 0, ps);
      LoadDescends(v, o, e);
      var d := ps[|ps| - 1];
      (if IsDirectory(v, d) then PathsIn(d, Shown(o, Listing(v, d))) else []) +
      Traversal(v, o, Load(v, o, e).pending)
  }

  /** What comes from the enumerator: the entries from the cursor on, and then the stack. */
  ghost function Upcoming(v: Volume, o: Options, e: Enumerator): seq<Path>
    requires Apart(e.pending) && Allowed(o)
  {
    PathsIn(e.directory, if e.cursor < |e.entries| then e.entries[e.cursor..] else []) + Traversal(v, o, e.pending)
  }

  /** What the calls of Next are still to return. */
  ghost function Remaining(v: Volume, o: Options, e: Enumerator): seq<Path>
    requires Apart(e.pending) && Allowed(o)
  {
    Upcoming(v, o, e.(cursor := e.cursor + 1))
  }

  lemma FirstOfEntries(d: Path, entries: seq<Entry>, k: nat, more: seq<Path>)
    requires k < |entries|
    ensures PathsIn(d, entries[k..]) + more ==
            [d + [entries[k].name]] + (PathsIn(d, if k + 1 < |entries| then entries[k + 1..] else []) + more)
  {
    var rest := if k + 1 < |entries| then entries[k + 1..] else [];
    assert entries[k..] == [entries[k]] + rest;
    assert PathsIn(d, [entries[k]] + rest) == [d + [entries[k].name]] + PathsIn(d, rest);
  }

  lemma UpcomingFirst(v: Volume, o: Options, e: Enumerator)
    requires Apart(e.pending) && Allowed(o) && e.cursor < |e.entries|
    ensures Upcoming(v, o, e) == [e.directory + [e.entries[e.cursor].name]] + Remaining(v, o, e)
  {
    hide Traversal, Apart, Sound, PathsIn;
    FirstOfEntries(e.directory, e.entries, e.cursor, Traversal(v, o, e.pending));
  }

  /** What comes from the stack: the entries of the top directory, and what its subdirectories give. */
  lemma TraversalLoads(v: Volume, o: Options, e: Enumerator)
    requires Apart(e.pending) && Allowed(o) && e.pending != []
    ensures var d, next := e.pending[|e.pending| - 1], Load(v, o, e).pending;
      && Apart(next)
      && Traversal(v, o, e.pending) ==
         (if IsDirectory(v, d) then PathsIn(d, Shown(o, Listing(v, d))) else []) + Traversal(v, o, next)
  {
    hide Standing, Sound, Apart, Listing, Shown, Pushed, PathsIn;
    LoadDescends(v, o, e);
    assert Load(v, o, e).pending == Load(v, o, Enumerator([], [], 0, e.pending)).pending;
  }

  lemma WholeEntries(d: Path, entries: seq<Entry>)
    ensures PathsIn(d, if 0 < |entries| then entries[0..] else []) == PathsIn(d, entries)
    ensures PathsIn(d, []) == []
  {
    assert entries[0..] == entries;
  }

  /** Reading a directory changes nothing in what comes. */
  lemma UpcomingLoads(v: Volume, o: Options, e: Enumerator)
    requires Apart(e.pending) && Allowed(o) && e.cursor >= |e.entries| && e.pending != []
    ensures Apart(Load(v, o, e).pending) && Upcoming(v, o, e) == Upcoming(v, o, Load(v, o, e))
  {
    hide Standing, Sound, Apart, Listing, Shown, Pushed, PathsIn, Traversal;
    TraversalLoads(v, o, e);
    var next, d := Load(v, o, e), e.pending[|e.pending| - 1];
    WholeEntries(e.directory, []);
    WholeEntries(d, next.entries);
  }

  /** Settling keeps what comes, and stops at an entry unless nothing comes. */
  lemma {:induction false} SettleKeeps(v: Volume, o: Options, e: Enumerator)
    requires Apart(e.pending) && Allowed(o)
    ensures var r := Settle(v, o, e);
      && Upcoming(v, o, r) == Upcoming(v, o, e)
      && (r.cursor < |r.entries| || r.pending == [])
    decreases |Cover(v, e.pending)|, |e.pending|
  {
    if e.cursor >= |e.entries| && e.pending != [] {
      LoadDescends(v, o, e);
      UpcomingLoads(v, o, e);
      hide Upcoming, Apart, Sound, Load;
      SettleKeeps(v, o, Load(v, o, e));
    }
  }

  lemma NothingUpcoming(v: Volume, o: Options, e: Enumerator)
    requires e.pending == [] && e.cursor >= |e.entries| && Allowed(o)
    ensures Apart(e.pending) && Upcoming(v, o, e) == [] && Remaining(v, o, e) == []
  {
    assert PathsIn(e.directory, []) == [];
  }

  /**
   Each call of Next takes the first of what remains; when nothing remains it returns the empty path,
   and nothing remains after it.
   */
  lemma NextTakesFirst(v: Volume, o: Options, e: Enumerator)
    requires Apart(e.pending) && Allowed(o)
    ensures var r := Next(v, o, e);
      && Current(r) == (if Remaining(v, o, e) == [] then Exhausted else Found(Remaining(v, o, e)[0]))
      && Remaining(v, o, r) == (if Remaining(v, o, e) == [] then [] else Remaining(v, o, e)[1..])
  {
    hide Settle, Upcoming, Apart, Sound;
    SettleKeeps(v, o, e.(cursor := e.cursor + 1));
    var r := Next(v, o, e);
    if r.cursor < |r.entries| {
      UpcomingFirst(v, o, r);
    } else {
      NothingUpcoming(v, o, r);
    }
  }

  lemma StartRemains(v: Volume, o: Options, root: Path)
    requires Allowed(o)
    ensures Apart([root]) && Remaining(v, o, Start(root)) == Traversal(v, o, [root])
  {
    assert Apart([root]);
    hide Traversal, Apart, Sound, PathsIn;
    WholeEntries(root, []);
  }
}
