/**
 The order in which an enumeration reads directories: a directory before those inside it, and of two
 that part ways, first the one whose branch is listed later. From it follow what base/file_util.h
 says about files and subdirectories, and exactly when the enumeration is breadth-first.
 */
module FileTreeOrder {
  import opened FileTree
  import opened FileTreeProof

  // ---------------------------------------------------------------- where paths part

  /** Length of the common start of two paths. */
  function Common(d: Path, e: Path): (n: nat)
    ensures n <= |d| && n <= |e|
  {
    if d == [] || e == [] || d[0] != e[0] then 0 else 1 + Common(d[1..], e[1..])
  }

  lemma {:induction false} CommonIs(d: Path, e: Path)
    ensures var n := Common(d, e); d[..n] == e[..n] && (n < |d| && n < |e| ==> d[n] != e[n])
    ensures Common(d, e) == Common(e, d)
  {
    if d != [] && e != [] && d[0] == e[0] {
      CommonIs(d[1..], e[1..]);
      var n := Common(d, e);
      assert d[..n] == [d[0]] + d[1..][..n - 1] && e[..n] == [e[0]] + e[1..][..n - 1];
    }
  }

  lemma {:induction false} CommonAt(d: Path, e: Path, n: nat)
    requires n < |d| && n < |e| && d[..n] == e[..n] && d[n] != e[n]
    ensures Common(d, e) == n
  {
    if n > 0 {
      assert d[0] == d[..n][0] == e[..n][0] == e[0];
      assert d[1..][..n - 1] == d[..n][1..] == e[..n][1..] == e[1..][..n - 1];
      CommonAt(d[1..], e[1..], n - 1);
    }
  }

  /** Neither path lies inside the other. */
  predicate Forked(d: Path, e: Path) {
    !(d <= e) && !(e <= d)
  }

  lemma ForkedAt(d: Path, e: Path)
    ensures Forked(d, e) <==> Common(d, e) < |d| && Common(d, e) < |e|
  {
    CommonIs(d, e);
    hide Common;
    var n := Common(d, e);
    if n == |d| {
      assert d == d[..n] == e[..n];
    } else if n == |e| {
      assert e == e[..n] == d[..n];
    }
  }

  /** The step at which `d` leaves the way to `e`. */
  function Branch(d: Path, e: Path): Path {
    if Common(d, e) < |d| then d[..Common(d, e) + 1] else d
  }

  function Position(order: seq<Path>, q: Path): nat {
    if order == [] || order[0] == q then 0 else 1 + Position(order[1..], q)
  }

  /** What is read first: what contains the other, or the branch that is listed later. */
  ghost predicate ReadBefore(v: Nodes, d: Path, e: Path) {
    d < e || (Forked(d, e) && Position(v.order, Branch(e, d)) < Position(v.order, Branch(d, e)))
  }

  /** Paths inside two forked ones fork at the same place. */
  lemma ForkInherits(c: Path, r: Path, q: Path, s: Path)
    requires Forked(c, r) && c <= q && r <= s
    ensures Forked(q, s) && Branch(q, s) == Branch(c, r) && Branch(s, q) == Branch(r, c)
  {
    ForkedAt(c, r);
    CommonIs(c, r);
    var n := Common(c, r);
    assert q[..n] == c[..n] && s[..n] == r[..n] && q[n] == c[n] && s[n] == r[n];
    CommonAt(q, s, n);
    ForkedAt(q, s);
    CommonIs(q, s);
    hide Common;
    assert q[..n + 1] == c[..n + 1] && s[..n + 1] == r[..n + 1];
  }

  lemma ReadInherits(v: Nodes, c: Path, r: Path, q: Path, s: Path)
    requires Forked(c, r) && ReadBefore(v, c, r) && c <= q && r <= s
    ensures ReadBefore(v, q, s)
  {
    hide Common, Branch, Position;
    ForkInherits(c, r, q, s);
  }

  // ---------------------------------------------------------------- listings follow the order

  lemma {:induction false} PositionTail(order: seq<Path>, q: Path)
    requires order != [] && q != order[0]
    ensures Position(order, q) == 1 + Position(order[1..], q)
  {
  }

  /** The children named by `entries` stand in the order of the volume. */
  ghost predicate Sorted(order: seq<Path>, ps: seq<Path>) {
    forall i, j :: 0 <= i < j < |ps| ==> Position(order, ps[i]) < Position(order, ps[j])
  }

  lemma {:induction false} ListedIsSorted(v: Nodes, d: Path, order: seq<Path>)
    requires forall i, j :: 0 <= i < j < |order| ==> order[i] != order[j]
    ensures Sorted(order, PathsIn(d, Listed(v, d, order)))
  {
    if order != [] {
      ListedIsSorted(v, d, order[1..]);
      ListedHolds(v, d, order[1..]);
      var rest := PathsIn(d, Listed(v, d, order[1..]));
      forall i | 0 <= i < |rest| ensures Position(order, rest[i]) == 1 + Position(order[1..], rest[i]) {
        assert Listed(v, d, order[1..])[i] in Listed(v, d, order[1..]);
        assert rest[i] in order[1..];
        PositionTail(order, rest[i]);
      }
      var all := PathsIn(d, Listed(v, d, order));
      if Belongs(v, d, order[0]) {
        assert order[0] == d + [order[0][|d|]];
        assert all == [order[0]] + rest;
      } else {
        assert all == rest;
      }
    }
  }

  lemma {:induction false} PushedIsSorted(order: seq<Path>, o: Options, d: Path, entries: seq<Entry>)
    requires Sorted(order, PathsIn(d, entries))
    ensures Sorted(order, Pushed(o, d, entries))
    ensures forall q :: q in Pushed(o, d, entries) ==> q in PathsIn(d, entries)
  {
    if entries != [] {
      var n := |entries| - 1;
      var front, last := entries[..n], d + [entries[n].name];
      var all := PathsIn(d, entries);
      assert PathsIn(d, front) == all[..n];
      PushedIsSorted(order, o, d, front);
      var ps := Pushed(o, d, front);
      assert all[n] == last;
      forall i | 0 <= i < |ps| ensures Position(order, ps[i]) < Position(order, last) {
        assert ps[i] in all[..n];
        var k :| 0 <= k < n && all[k] == ps[i];
      }
    }
  }

  lemma PushedInOrder(v: Volume, o: Options, d: Path)
    ensures Sorted(v.order, Pushed(o, d, Listing(v, d)))
  {
    ListedIsSorted(v, d, v.order);
    hide Listed, Pushed, Sorted, PathsIn;
    PushedIsSorted(v.order, o, d, Listing(v, d));
  }

  // ---------------------------------------------------------------- the stack is read from its top

  /** What stands nearer to the top is read first. */
  ghost predicate Stacked(v: Nodes, ps: seq<Path>) {
    forall i, j :: 0 <= i < j < |ps| ==> Forked(ps[j], ps[i]) && ReadBefore(v, ps[j], ps[i])
  }

  lemma SiblingsFork(v: Nodes, d: Path, x: Path, y: Path)
    requires d <= x && d <= y && |x| == |y| == |d| + 1 && x != y
    ensures Forked(x, y) && (ReadBefore(v, x, y) <==> Position(v.order, y) < Position(v.order, x))
  {
    assert x == d + [x[|d|]] && y == d + [y[|d|]];
    assert x[|d|] != y[|d|] && x[..|d|] == y[..|d|];
    CommonAt(x, y, |d|);
    CommonIs(x, y);
    hide Common, Position;
    assert x[..|d| + 1] == x && y[..|d| + 1] == y;
  }

  lemma StackedStep(v: Volume, o: Options, ps: seq<Path>, d: Path)
    requires Allowed(o) && Stacked(v, ps + [d])
    ensures Stacked(v, After(v, o, ps, d))
  {
    var all, next := ps + [d], After(v, o, ps, d);
    PushedAre(v, o, d);
    PushedInOrder(v, o, d);
    hide Sound, Listing, Pushed, ReadBefore, Forked;
    assert forall i :: 0 <= i < |ps| ==> all[i] == ps[i] == next[i];
    assert all[|ps|] == d;
    forall i, j | 0 <= i < j < |next| ensures Forked(next[j], next[i]) && ReadBefore(v, next[j], next[i]) {
      if j < |ps| {
        assert Forked(all[j], all[i]) && ReadBefore(v, all[j], all[i]);
      } else {
        assert next[j] in Pushed(o, d, Listing(v, d));
        if i < |ps| {
          assert Forked(all[|ps|], all[i]) && ReadBefore(v, all[|ps|], all[i]);
          ReadInherits(v, d, all[i], next[j], all[i]);
          ForkInherits(d, all[i], next[j], all[i]);
        } else {
          assert next[i] in Pushed(o, d, Listing(v, d));
          var sub := Pushed(o, d, Listing(v, d));
          assert next[i] == sub[i - |ps|] && next[j] == sub[j - |ps|];
          SiblingsFork(v, d, next[j], next[i]);
        }
      }
    }
  }

  // ---------------------------------------------------------------- the order of what is returned

  /** The directories of the returned paths come in the order of reading. */
  ghost predicate InReadingOrder(v: Nodes, all: seq<Path>) {
    forall i, j :: 0 <= i < j < |all| ==>
      ParentOf(all[i]) == ParentOf(all[j]) || ReadBefore(v, ParentOf(all[i]), ParentOf(all[j]))
  }

  /** A path that comes later than the entries of `d` has a directory that is read later. */
  lemma LaterIsReadLater(v: Volume, o: Options, ps: seq<Path>, d: Path, q: Path)
    requires Allowed(o) && Stacked(v, ps + [d]) && StrictlyWithin(After(v, o, ps, d), q)
    ensures ReadBefore(v, d, ParentOf(q))
  {
    var all, next := ps + [d], After(v, o, ps, d);
    hide Sound, Listing, Pushed;
    var i :| 0 <= i < |next| && next[i] < q;
    assert next[i] <= ParentOf(q);
    if i < |ps| {
      assert all[i] == next[i] && all[|ps|] == d;
      assert Forked(d, next[i]) && ReadBefore(v, d, next[i]);
      hide ReadBefore, Forked, Stacked;
      ReadInherits(v, d, next[i], d, ParentOf(q));
    } else {
      PushedIsSubdirectory(v, o, d, next[i]);
    }
  }

  lemma OrderConcat(v: Nodes, d: Path, block: seq<Path>, rest: seq<Path>)
    requires forall i :: 0 <= i < |block| ==> ParentOf(block[i]) == d
    requires forall i :: 0 <= i < |rest| ==> ReadBefore(v, d, ParentOf(rest[i]))
    requires InReadingOrder(v, rest)
    ensures InReadingOrder(v, block + rest)
  {
    hide ReadBefore, ParentOf;
    var all := block + rest;
    forall i, j | 0 <= i < j < |all|
      ensures ParentOf(all[i]) == ParentOf(all[j]) || ReadBefore(v, ParentOf(all[i]), ParentOf(all[j]))
    {
      assert all[i] == if i < |block| then block[i] else rest[i - |block|];
      assert all[j] == if j < |block| then block[j] else rest[j - |block|];
    }
  }

  lemma {:induction false} TraversalInReadingOrder(v: Volume, o: Options, ps: seq<Path>)
    requires Apart(ps) && Allowed(o) && o.recursive && Stacked(v, ps)
    ensures InReadingOrder(v, Traversal(v, o, ps))
    decreases |Cover(v, ps)|, |ps|
  {
    if ps != [] {
      hide *;
      var front, d := ps[..|ps| - 1], ps[|ps| - 1];
      assert ps == front + [d];
      OneStep(v, o, front, d);
      var next := After(v, o, front, d);
      StackedStep(v, o, front, d);
      TraversalInReadingOrder(v, o, next);
      var block := if IsDirectory(v, d) then Block(v, o, d) else [];
      var rest := Traversal(v, o, next);
      forall i | 0 <= i < |block| ensures ParentOf(block[i]) == d {
        assert block[i] in block;
        BlockParent(v, o, d, block[i]);
      }
      forall i | 0 <= i < |rest| ensures ReadBefore(v, d, ParentOf(rest[i])) {
        assert rest[i] in rest;
        TraversalHolds(v, o, next, rest[i]);
        LaterIsReadLater(v, o, front, d, rest[i]);
      }
      OrderConcat(v, d, block, rest);
    } else {
      NothingOrdered(v, o);
    }
  }

  lemma NothingOrdered(v: Volume, o: Options)
    requires Allowed(o)
    ensures Apart([]) && InReadingOrder(v, Traversal(v, o, []))
  {
  }

  lemma BlockParent(v: Volume, o: Options, d: Path, q: Path)
    requires Allowed(o) && o.recursive && q in Block(v, o, d)
    ensures ParentOf(q) == d
  {
    hide Block, Sound;
    InBlock(v, o, d, q);
  }

  lemma RootIsStacked(v: Nodes, root: Path)
    ensures Apart([root]) && Stacked(v, [root])
  {
  }

  // ---------------------------------------------------------------- files before the files of subdirectories

  /** What lies in a directory comes before what lies in a directory below it. */
  ghost predicate ShallowFirst(all: seq<Path>) {
    forall i, j :: 0 <= i < |all| && 0 <= j < |all| && ParentOf(all[i]) < ParentOf(all[j]) ==> i < j
  }

  lemma ReadingOrderIsShallowFirst(v: Nodes, all: seq<Path>)
    requires InReadingOrder(v, all)
    ensures ShallowFirst(all)
  {
    hide Position, Branch, ParentOf;
    forall i, j | 0 <= i < |all| && 0 <= j < |all| && ParentOf(all[i]) < ParentOf(all[j]) ensures i < j {
      assert i != j;
      assert !ReadBefore(v, ParentOf(all[j]), ParentOf(all[i]));
    }
  }

  /**
   A recursive enumeration of an unchanging tree: the calls of Next return, in the order of `all`,
   every matching descendant of the root exactly once, each directory before its contents, the entries
   of one directory together and before the entries of any directory below it, whether directories
   are shown or not, and then the empty path for ever.
   */
  lemma EnumerationIsComplete(v: Volume, o: Options, root: Path, n: nat)
    requires Allowed(o) && o.recursive
    ensures Apart([root])
    ensures var all := Traversal(v, o, [root]);
      && (forall q :: q in all <==> root < q && q in v.kinds && (if v.kinds[q] == Directory then o.directories else o.files))
      && Distinct(all) && ParentsFirst(all) && Together(all) && ShallowFirst(all) && InReadingOrder(v, all)
      && Answers(v, o, Start(root), n) == Script(all, n)
  {
    RootIsStacked(v, root);
    assert forall kind :: Matches(o, kind) == (if kind == Directory then o.directories else o.files);
    hide *;
    EnumerationReturns(v, o, root, n);
    TraversalInReadingOrder(v, o, [root]);
    ReadingOrderIsShallowFirst(v, Traversal(v, o, [root]));
  }

  // ---------------------------------------------------------------- one directory

  /** The paths that an enumeration of `d` alone returns: its children of the kinds asked for, and ".." if that is asked for. */
  ghost predicate ShownIn(v: Volume, o: Options, d: Path, q: Path) {
    && d < q && |q| == |d| + 1
    && if q in v.kinds then (if v.kinds[q] == Directory then o.directories else o.files)
       else q[|d|] == ".." && o.dotDot && o.directories && q in v.order
  }

  lemma {:induction false} DotsListed(v: Nodes, d: Path, q: Path, order: seq<Path>)
    requires |q| == |d| + 1 && d < q && q !in v.kinds
    ensures (exists kind :: Entry(q[|d|], kind) in Listed(v, d, order)) <==> IsDots(q[|d|]) && q in order
    ensures Entry(q[|d|], Directory) in Listed(v, d, order) <==> IsDots(q[|d|]) && q in order
  {
    if order != [] {
      DotsListed(v, d, q, order[1..]);
      assert order == [order[0]] + order[1..];
      var p := order[0];
      if Belongs(v, d, p) && p[|d|] == q[|d|] {
        assert p == d + [p[|d|]] && q == d + [q[|d|]];
      }
    }
  }

  lemma InOneDirectory(v: Volume, o: Options, d: Path, q: Path)
    ensures q in Block(v, o, d) <==> ShownIn(v, o, d, q)
  {
    var shown := Shown(o, Listing(v, d));
    if d < q && |q| == |d| + 1 {
      assert q == d + [q[|d|]];
      OneEntry(v, o, d, q);
      hide Listing, Shown, Sound, ShownIn;
      if q in Block(v, o, d) {
        var i :| 0 <= i < |shown| && Block(v, o, d)[i] == q;
        assert (d + [shown[i].name])[|d|] == q[|d|];
        assert shown[i] == Entry(q[|d|], shown[i].kind);
      }
      if kind :| Entry(q[|d|], kind) in shown {
        var i :| 0 <= i < |shown| && shown[i] == Entry(q[|d|], kind);
        assert Block(v, o, d)[i] == q;
      }
    }
  }

  lemma OneEntry(v: Volume, o: Options, d: Path, q: Path)
    requires d < q && |q| == |d| + 1
    ensures (exists kind :: Entry(q[|d|], kind) in Shown(o, Listing(v, d))) <==> ShownIn(v, o, d, q)
  {
    assert q == d + [q[|d|]];
    forall kind ensures Entry(q[|d|], kind) in Shown(o, Listing(v, d)) <==>
                        Entry(q[|d|], kind) in Listing(v, d) && !ShouldSkip(o, q[|d|]) && Matches(o, kind) {
      ShownHolds(o, Listing(v, d), Entry(q[|d|], kind));
    }
    ListingLists(v, d);
    if q in v.kinds {
      ProperName(v, d, q);
    } else {
      DotsListed(v, d, q, v.order);
    }
    hide Listed, Shown, Sound;
  }

  lemma {:induction false} NothingPushed(o: Options, d: Path, entries: seq<Entry>)
    requires !o.recursive
    ensures Pushed(o, d, entries) == []
  {
    if entries != [] {
      NothingPushed(o, d, entries[..|entries| - 1]);
    }
  }

  lemma OneBlock(v: Volume, o: Options, root: Path)
    requires !o.recursive && Apart([root])
    ensures Traversal(v, o, [root]) == if IsDirectory(v, root) then Block(v, o, root) else []
  {
    assert [] + [root] == [root];
    OneStep(v, o, [], root);
    NothingPushed(o, root, Listing(v, root));
    hide Sound, Apart, Block, Listing, IsDirectory, Pushed;
    assert After(v, o, [], root) == [];
    assert Traversal(v, o, []) == [];
  }

  lemma NothingIsDistinct()
    ensures Distinct([])
  {
  }

  /**
   An enumeration that is not recursive: the calls return every shown entry of the root exactly once, in
   the order of the listing, nothing from below it, and then the empty path for ever.
   */
  lemma OneDirectoryIsComplete(v: Volume, o: Options, root: Path, n: nat)
    requires !o.recursive
    ensures Apart([root])
    ensures var all := Traversal(v, o, [root]);
      && (forall q :: q in all <==> IsDirectory(v, root) && ShownIn(v, o, root, q))
      && Distinct(all) && Answers(v, o, Start(root), n) == Script(all, n)
  {
    StartRemains(v, o, root);
    AnswersAre(v, o, Start(root), n);
    OneBlock(v, o, root);
    BlockDistinct(v, o, root);
    NothingIsDistinct();
    hide *;
    forall q ensures q in Traversal(v, o, [root]) <==> IsDirectory(v, root) && ShownIn(v, o, root, q) {
      InOneDirectory(v, o, root, q);
    }
  }

  // ---------------------------------------------------------------- breadth first

  /** Nothing comes after something deeper. */
  ghost predicate BreadthFirst(all: seq<Path>) {
    forall i, j :: 0 <= i < j < |all| ==> |all[i]| <= |all[j]|
  }

  ghost predicate ShowsSomething(v: Volume, o: Options, d: Path) {
    exists q :: q in v.kinds && (if v.kinds[q] == Directory then o.directories else o.files) && d < q && |q| == |d| + 1
  }

  /** Of two directories that part ways the deeper one's branch is listed first, if both show something. */
  ghost predicate DeeperListedFirst(v: Volume, o: Options, root: Path, d: Path, e: Path) {
    root <= d && root <= e && ShowsSomething(v, o, d) && ShowsSomething(v, o, e) && |d| < |e| && !(d <= e) ==>
      Position(v.order, Branch(e, d)) < Position(v.order, Branch(d, e))
  }

  lemma ParentOfChild(d: Path, q: Path)
    requires d < q && |q| == |d| + 1
    ensures ParentOf(q) == d
  {
  }

  lemma BreadthFirstOrders(v: Volume, o: Options, root: Path, all: seq<Path>, d: Path, e: Path)
    requires (forall q :: q in all <==> q in v.kinds && (if v.kinds[q] == Directory then o.directories else o.files) && root < q)
    requires InReadingOrder(v, all) && BreadthFirst(all)
    ensures DeeperListedFirst(v, o, root, d, e)
  {
    hide Position, Branch, Sound;
    if root <= d && root <= e && ShowsSomething(v, o, d) && ShowsSomething(v, o, e) && |d| < |e| && !(d <= e) {
      var x :| x in v.kinds && (if v.kinds[x] == Directory then o.directories else o.files) && d < x && |x| == |d| + 1;
      var y :| y in v.kinds && (if v.kinds[y] == Directory then o.directories else o.files) && e < y && |y| == |e| + 1;
      ParentOfChild(d, x);
      ParentOfChild(e, y);
      assert x in all && y in all;
      var i :| 0 <= i < |all| && all[i] == x;
      var j :| 0 <= j < |all| && all[j] == y;
      assert i < j;
      assert ReadBefore(v, d, e);
    }
  }

  lemma ReturnedIsShown(v: Volume, o: Options, root: Path, q: Path)
    requires q in v.kinds && (if v.kinds[q] == Directory then o.directories else o.files) && root < q
    ensures root <= ParentOf(q) && ShowsSomething(v, o, ParentOf(q)) && |q| == |ParentOf(q)| + 1
  {
    hide Sound;
    assert ParentOf(q) < q;
  }

  lemma OrdersBreadthFirst(v: Volume, o: Options, root: Path, all: seq<Path>)
    requires (forall q :: q in all <==> q in v.kinds && (if v.kinds[q] == Directory then o.directories else o.files) && root < q)
    requires InReadingOrder(v, all) && forall d, e :: DeeperListedFirst(v, o, root, d, e)
    ensures BreadthFirst(all)
  {
    hide Position, Branch, Sound, ParentOf, ShowsSomething;
    forall i, j | 0 <= i < j < |all| ensures |all[i]| <= |all[j]| {
      var d, e := ParentOf(all[i]), ParentOf(all[j]);
      assert all[i] in all && all[j] in all;
      ReturnedIsShown(v, o, root, all[i]);
      ReturnedIsShown(v, o, root, all[j]);
      CommonIs(d, e);
      assert DeeperListedFirst(v, o, root, e, d);
      assert d == e || ReadBefore(v, d, e);
    }
  }

  /**
   The enumeration is breadth-first, as base/file_util.h says, if and only if of every two directories
   that part ways and show something the deeper one's branch is listed first.
   */
  lemma BreadthFirstExactly(v: Volume, o: Options, root: Path)
    requires Allowed(o) && o.recursive
    ensures Apart([root])
    ensures BreadthFirst(Traversal(v, o, [root])) <==> forall d, e :: DeeperListedFirst(v, o, root, d, e)
  {
    hide *;
    EnumerationIsComplete(v, o, root, 0);
    var all := Traversal(v, o, [root]);
    if BreadthFirst(all) {
      forall d, e ensures DeeperListedFirst(v, o, root, d, e) {
        BreadthFirstOrders(v, o, root, all, d, e);
      }
    } else if forall d, e :: DeeperListedFirst(v, o, root, d, e) {
      OrdersBreadthFirst(v, o, root, all);
    }
  }

  // ---------------------------------------------------------------- a tree that is not read breadth-first

  /** The top lists the directories a and b; a holds a file, b a directory with a file. */
  const FORKED_TREE := Nodes(
    map[[] := Directory, ["a"] := Directory, ["b"] := Directory, ["a", "x"] := File,
        ["b", "c"] := Directory, ["b", "c", "y"] := File],
    [[], ["a"], ["b"], ["a", "x"], ["b", "c"], ["b", "c", "y"]])

  const FILES_AND_DIRECTORIES := Options(true, true, true, false)

  lemma ForkedTreeIsSound()
    ensures Sound(FORKED_TREE)
  {
    ForkedTreeStands();
    ForkedOrder();
  }

  lemma ForkedTreeStands()
    ensures forall q :: q in FORKED_TREE.kinds ==> Standing(FORKED_TREE, q) && q in FORKED_TREE.order
  {
    var o := FORKED_TREE.order;
    assert ["a"][..0] == [] && ["b"][..0] == [] && ["a", "x"][..1] == ["a"] && ["b", "c"][..1] == ["b"];
    assert ["b", "c", "y"][..2] == ["b", "c"];
    assert o[0] == [] && o[1] == ["a"] && o[2] == ["b"] && o[3] == ["a", "x"] && o[4] == ["b", "c"] && o[5] == ["b", "c", "y"];
  }

  lemma ForkedOrder()
    ensures var o := FORKED_TREE.order; forall i, j :: 0 <= i < j < |o| ==> o[i] != o[j]
  {
    var o := FORKED_TREE.order;
    assert o[0] == [] && o[1] == ["a"] && o[2] == ["b"] && o[3] == ["a", "x"] && o[4] == ["b", "c"] && o[5] == ["b", "c", "y"];
  }

  /** The entry of a path in the listing of a directory, if it belongs there. */
  function EntryOf(v: Nodes, d: Path, q: Path): seq<Entry> {
    if Belongs(v, d, q) then [Entry(q[|d|], if q in v.kinds then v.kinds[q] else Directory)] else []
  }

  lemma ListedNext(v: Nodes, d: Path, q: Path, order: seq<Path>)
    ensures Listed(v, d, [q] + order) == EntryOf(v, d, q) + Listed(v, d, order)
  {
    assert ([q] + order)[1..] == order;
  }

  lemma ListedThree(v: Nodes, d: Path, x: Path, y: Path, z: Path, more: seq<Path>)
    ensures Listed(v, d, [x, y, z] + more) == EntryOf(v, d, x) + (EntryOf(v, d, y) + (EntryOf(v, d, z) + Listed(v, d, more)))
  {
    hide *;
    ListedNext(v, d, z, more);
    ListedNext(v, d, y, [z] + more);
    ListedNext(v, d, x, [y] + ([z] + more));
    assert [x, y, z] + more == [x] + ([y] + ([z] + more));
  }

  lemma ListedSix(v: Nodes, d: Path, order: seq<Path>)
    requires |order| == 6
    ensures Listed(v, d, order) ==
      EntryOf(v, d, order[0]) + (EntryOf(v, d, order[1]) + (EntryOf(v, d, order[2]) +
      (EntryOf(v, d, order[3]) + (EntryOf(v, d, order[4]) + (EntryOf(v, d, order[5]) + [])))))
  {
    assert Listed(v, d, []) == [];
    hide *;
    var front, back := [order[0], order[1], order[2]], [order[3], order[4], order[5]];
    assert order == front + back && back == back + [];
    ListedThree(v, d, order[0], order[1], order[2], back);
    ListedThree(v, d, order[3], order[4], order[5], []);
  }

  /** A listing in which exactly the paths marked so belong to the directory. */
  lemma ForkedListing(d: Path, entries: seq<Entry>)
    requires var v, o := FORKED_TREE, FORKED_TREE.order;
      entries == EntryOf(v, d, o[0]) + (EntryOf(v, d, o[1]) + (EntryOf(v, d, o[2]) +
                 (EntryOf(v, d, o[3]) + (EntryOf(v, d, o[4]) + (EntryOf(v, d, o[5]) + [])))))
    ensures Listing(FORKED_TREE, d) == entries
  {
    hide EntryOf, Listed;
    ListedSix(FORKED_TREE, d, FORKED_TREE.order);
  }

  lemma TopListing()
    ensures Listing(FORKED_TREE, []) == [Entry("a", Directory), Entry("b", Directory)]
  {
    assert ["a"][..0] == [] && ["b"][..0] == [];
    ForkedListing([], [Entry("a", Directory), Entry("b", Directory)]);
  }

  lemma InnerListings()
    ensures Listing(FORKED_TREE, ["a"]) == [Entry("x", File)]
    ensures Listing(FORKED_TREE, ["b"]) == [Entry("c", Directory)]
  {
    assert ["a", "x"][..1] == ["a"] && ["b", "c"][..1] == ["b"];
    assert ["a", "x"][..1][0] != ["b"][0] && ["b", "c"][..1][0] != ["a"][0];
    ForkedListing(["a"], [Entry("x", File)]);
    ForkedListing(["b"], [Entry("c", Directory)]);
  }

  lemma LowestListing()
    ensures Listing(FORKED_TREE, ["b", "c"]) == [Entry("y", File)]
  {
    assert ["b", "c", "y"][..2] == ["b", "c"];
    ForkedListing(["b", "c"], [Entry("y", File)]);
  }

  /** Entries under proper names are all shown, and the directories among them pushed. */
  lemma TakeOne(d: Path, e: Entry)
    requires !IsDots(e.name)
    ensures Shown(FILES_AND_DIRECTORIES, [e]) == [e]
    ensures Pushed(FILES_AND_DIRECTORIES, d, [e]) == if e.kind == Directory then [d + [e.name]] else []
  {
    assert [e][..0] == [];
  }

  lemma TakeTwo(d: Path, e: Entry, f: Entry)
    requires !IsDots(e.name) && !IsDots(f.name) && e.kind == Directory && f.kind == Directory
    ensures Shown(FILES_AND_DIRECTORIES, [e, f]) == [e, f]
    ensures Pushed(FILES_AND_DIRECTORIES, d, [e, f]) == [d + [e.name], d + [f.name]]
  {
    assert [e, f][..1] == [e];
    TakeOne(d, e);
  }

  /** Reading a directory whose only entry is `q`. */
  lemma ReadOne(v: Volume, ps: seq<Path>, d: Path, q: Path, directory: bool)
    requires Apart(ps + [d]) && Reads(v, d, [q], directory)
    ensures var next := if directory then ps + [q] else ps;
      Apart(next) && Traversal(v, FILES_AND_DIRECTORIES, ps + [d]) == [q] + Traversal(v, FILES_AND_DIRECTORIES, next)
  {
    var e := Listing(v, d)[0];
    assert Listing(v, d) == [e] && [q][0] == q;
    TakeOne(d, e);
    assert Allowed(FILES_AND_DIRECTORIES);
    assert PathsIn(d, [e]) == [q];
    assert Block(v, FILES_AND_DIRECTORIES, d) == [q] && IsDirectory(v, d);
    assert After(v, FILES_AND_DIRECTORIES, ps, d) == (if directory then ps + [q] else ps + []);
    hide *;
    OneStep(v, FILES_AND_DIRECTORIES, ps, d);
    assert ps + [] == ps;
  }

  /** Reading the root, with the directories `p` and `q` in it. */
  lemma ReadTwo(v: Volume, d: Path, p: Path, q: Path)
    requires Apart([d]) && Reads(v, d, [p, q], true)
    ensures Apart([p] + [q])
    ensures Traversal(v, FILES_AND_DIRECTORIES, [d]) == [p, q] + Traversal(v, FILES_AND_DIRECTORIES, [p] + [q])
  {
    var e, f := Listing(v, d)[0], Listing(v, d)[1];
    assert Listing(v, d) == [e, f] && [p, q][0] == p && [p, q][1] == q;
    TakeTwo(d, e, f);
    assert Allowed(FILES_AND_DIRECTORIES);
    assert PathsIn(d, [e, f]) == [p, q];
    assert Block(v, FILES_AND_DIRECTORIES, d) == [p, q] && IsDirectory(v, d);
    assert After(v, FILES_AND_DIRECTORIES, [], d) == [] + [p, q];
    hide *;
    assert [] + [d] == [d] && [] + [p, q] == [p] + [q];
    OneStep(v, FILES_AND_DIRECTORIES, [], d);
  }

  lemma NothingLeft(v: Volume)
    ensures Apart([]) && Traversal(v, FILES_AND_DIRECTORIES, []) == []
  {
  }

  /** The walk over a tree of this shape. */
  lemma ForkedWalk(v: Volume, top: Path, a: Path, b: Path, c: Path, x: Path, y: Path)
    requires Apart([top])
    requires Reads(v, top, [a, b], true) && Reads(v, a, [x], false) && Reads(v, b, [c], true) && Reads(v, c, [y], false)
    ensures Traversal(v, FILES_AND_DIRECTORIES, [top]) == [a, b, c, y, x]
  {
    assert Allowed(FILES_AND_DIRECTORIES);
    hide *;
    ReadTwo(v, top, a, b);
    var second := Traversal(v, FILES_AND_DIRECTORIES, [a] + [b]);
    assert second == [c] + ([y] + ([x] + [])) by { ForkedRest(v, a, b, c, x, y); }
    Gather(a, b, c, y, x);
  }

  lemma ForkedRest(v: Volume, a: Path, b: Path, c: Path, x: Path, y: Path)
    requires Apart([a] + [b]) && Reads(v, a, [x], false) && Reads(v, b, [c], true) && Reads(v, c, [y], false)
    ensures Traversal(v, FILES_AND_DIRECTORIES, [a] + [b]) == [c] + ([y] + ([x] + []))
  {
    hide *;
    ReadOne(v, [a], b, c, true);
    ReadOne(v, [a], c, y, false);
    assert [] + [a] == [a];
    ReadOne(v, [], a, x, false);
    NothingLeft(v);
  }

  lemma Gather(a: Path, b: Path, c: Path, y: Path, x: Path)
    ensures [a, b] + ([c] + ([y] + ([x] + []))) == [a, b, c, y, x]
  {
  }

  /** The directory `d` lists exactly the paths `qs`, which are all directories or all files. */
  ghost predicate Reads(v: Volume, d: Path, qs: seq<Path>, directories: bool) {
    && IsDirectory(v, d) && |Listing(v, d)| == |qs|
    && forall i :: 0 <= i < |qs| ==>
         var e := Listing(v, d)[i];
         !IsDots(e.name) && qs[i] == d + [e.name] && e.kind == (if directories then Directory else File)
  }

  /** The enumeration goes to the file under b before it comes to the file in a, which is less deep. */
  lemma NotAlwaysBreadthFirst()
    ensures Sound(FORKED_TREE) && Apart([[]])
    ensures Traversal(FORKED_TREE, FILES_AND_DIRECTORIES, [[]]) == [["a"], ["b"], ["b", "c"], ["b", "c", "y"], ["a", "x"]]
    ensures !BreadthFirst(Traversal(FORKED_TREE, FILES_AND_DIRECTORIES, [[]]))
  {
    ForkedTreeIsSound();
    RootIsStacked(FORKED_TREE, []);
    ForkedReads(FORKED_TREE);
    hide *;
    ForkedWalk(FORKED_TREE, [], ["a"], ["b"], ["b", "c"], ["a", "x"], ["b", "c", "y"]);
    DeeperBefore(Traversal(FORKED_TREE, FILES_AND_DIRECTORIES, [[]]), 3);
  }

  lemma DeeperBefore(all: seq<Path>, i: nat)
    requires i + 1 < |all| && |all[i]| > |all[i + 1]|
    ensures !BreadthFirst(all)
  {
  }

  lemma ForkedReads(v: Volume)
    requires v == FORKED_TREE
    ensures Reads(v, [], [["a"], ["b"]], true) && Reads(v, ["a"], [["a", "x"]], false)
    ensures Reads(v, ["b"], [["b", "c"]], true) && Reads(v, ["b", "c"], [["b", "c", "y"]], false)
  {
    hide Listing, Sound;
    TopListing();
    InnerListings();
    LowestListing();
    assert [] + ["a"] == ["a"] && [] + ["b"] == ["b"] && ["b"] + ["c"] == ["b", "c"];
    assert ["b", "c"] + ["y"] == ["b", "c", "y"] && ["a"] + ["x"] == ["a", "x"];
  }
}
