/**
 FileEnumerator::Next and Delete (base/file_util_posix.cc) as they work on a disk: the enumerator keeps a
 stack, the entries of one directory and a cursor; Delete unlinks files while it enumerates and removes
 the directories afterwards.
 */
module FileUtil {
  import opened FileTree
  import opened FileTreeProof

  ghost predicate NoChildren(v: Nodes, d: Path) {
    forall q :: q in v.kinds ==> !(d < q && |q| == |d| + 1)
  }

  function Without(v: Nodes, p: Path): Nodes {
    Nodes(v.kinds - {p}, v.order)
  }

  lemma WithoutHas(v: Nodes, p: Path, q: Path)
    ensures q in Without(v, p).kinds <==> q in v.kinds && q != p
    ensures q in Without(v, p).kinds ==> Without(v, p).kinds[q] == v.kinds[q]
    ensures Without(v, p).order == v.order
  {
  }

  lemma StandsWithout(v: Volume, p: Path, q: Path)
    requires NoChildren(v, p) && q in v.kinds && q != p
    ensures Standing(Without(v, p), q)
  {
    assert Standing(v, q) by { hide Standing; }
    hide Sound;
    if q != [] {
      assert q[..|q| - 1] < q;
    }
  }

  lemma WithoutIsSound(v: Volume, p: Path)
    requires NoChildren(v, p)
    ensures Sound(Without(v, p))
  {
    hide Standing, NoChildren;
    forall q | q in v.kinds && q != p ensures Standing(Without(v, p), q) {
      StandsWithout(v, p, q);
    }
  }

  lemma FileHasNoChildren(v: Volume, p: Path)
    requires p in v.kinds && v.kinds[p] == File
    ensures NoChildren(v, p)
  {
    forall q | q in v.kinds ensures !(p < q && |q| == |p| + 1) {
      if p < q {
        AncestorIsDirectory(v, p, q);
      }
    }
  }

  /** A disk and the system calls on it, all of them permitted. */
  class Disk {
    var volume: Volume

    constructor (v: Volume)
      ensures volume == v
    {
      volume := v;
    }

    method Unlink(p: Path) returns (ok: bool)
      modifies this
      ensures ok <==> p in old(volume.kinds) && old(volume.kinds)[p] == File
      ensures volume == if ok then Without(old(volume), p) else old(volume)
    {
      ok := p in volume.kinds && volume.kinds[p] == File;
      if ok {
        FileHasNoChildren(volume, p);
        WithoutIsSound(volume, p);
        volume := Without(volume, p);
      }
    }

    /** Fails, as rmdir does, on anything but an empty directory. */
    method Rmdir(p: Path) returns (ok: bool)
      modifies this
      ensures ok <==> IsDirectory(old(volume), p) && NoChildren(old(volume), p)
      ensures volume == if ok then Without(old(volume), p) else old(volume)
    {
      ok := IsDirectory(volume, p) && forall q :: q in volume.kinds ==> !(p < q && |q| == |p| + 1);
      if ok {
        WithoutIsSound(volume, p);
        volume := Without(volume, p);
      }
    }
  }

  // ---------------------------------------------------------------- the enumerator

  class FileEnumerator {
    const options: Options
    var rootPath: Path
    var entries: seq<Entry>
    var cursor: nat
    var pending: seq<Path>

    ghost function State(): Enumerator
      reads this
    {
      Enumerator(rootPath, entries, cursor, pending)
    }

    ghost predicate Valid() reads this {
      Apart(pending) && Allowed(options)
    }

    constructor (root: Path, o: Options)
      requires Allowed(o)
      ensures Valid() && options == o && State() == Start(root)
    {
      options := o;
      rootPath := root;
      entries := [];
      cursor := 0;
      pending := [root];
    }

    /** Keeps the entries to return and pushes the directories to read. */
    method Take(d: Path, listing: seq<Entry>)
      modifies this
      ensures rootPath == old(rootPath) && cursor == 0
      ensures entries == Shown(options, listing)
      ensures pending == old(pending) + Pushed(options, d, listing)
    {
      entries := [];
      cursor := 0;
      var i := 0;
      assert pending == old(pending) + [];
      while i < |listing|
        invariant 0 <= i <= |listing| && rootPath == old(rootPath) && cursor == 0
        invariant entries == Shown(options, listing[..i])
        invariant pending == old(pending) + Pushed(options, d, listing[..i])
      {
        assert listing[..i + 1][..i] == listing[..i];
        var e := listing[i];
        if !ShouldSkip(options, e.name) {
          if options.recursive && e.kind == Directory {
            pending := pending + [d + [e.name]];
          }
          if (e.kind == Directory && options.directories) || (e.kind == File && options.files) {
            entries := entries + [e];
          }
        }
        i := i + 1;
      }
      assert listing[..i] == listing;
    }

    method Next(disk: Disk) returns (answer: Answer)
      requires Valid()
      modifies this
      ensures Valid() && State() == FileTree.Next(disk.volume, options, old(State()))
      ensures answer == Current(State())
    {
      hide Apart, Sound, Listing, Shown, Pushed;
      ghost var v := disk.volume;
      cursor := cursor + 1;
      ghost var start := State();
      while cursor >= |entries|
        invariant Valid() && Settle(v, options, State()) == Settle(v, options, start)
        decreases |Cover(v, pending)|, |pending|
      {
        if pending == [] {
          break;
        }
        LoadDescends(v, options, State());
        ghost var next := Load(v, options, State());
        rootPath := pending[|pending| - 1];
        pending := pending[..|pending| - 1];
        if IsDirectory(disk.volume, rootPath) {
          Take(rootPath, Listing(disk.volume, rootPath));
        }
        assert State() == next;
      }
      answer := if cursor < |entries| then Found(rootPath + [entries[cursor].name]) else Exhausted;
    }
  }

  // ---------------------------------------------------------------- enumerating while files go

  const EVERYTHING := Options(true, true, true, false)

  /** What lies in `ps` is the same on both volumes. */
  ghost predicate SameWithin(v: Volume, w: Volume, ps: seq<Path>) {
    v.order == w.order &&
    forall q :: Within(ps, q) ==> (q in v.kinds <==> q in w.kinds) && (q in v.kinds ==> v.kinds[q] == w.kinds[q])
  }

  lemma {:induction false} ListedSame(v: Volume, w: Volume, d: Path, order: seq<Path>)
    requires forall q :: d <= q ==> (q in v.kinds <==> q in w.kinds) && (q in v.kinds ==> v.kinds[q] == w.kinds[q])
    ensures Listed(v, d, order) == Listed(w, d, order)
  {
    hide Sound;
    if order != [] {
      ListedSame(v, w, d, order[1..]);
      if |order[0]| == |d| + 1 && order[0][..|d|] == d {
        assert d <= order[0];
      }
    }
  }

  lemma SameAfter(v: Volume, w: Volume, ps: seq<Path>, d: Path)
    requires SameWithin(v, w, ps + [d]) && Apart(ps + [d])
    ensures IsDirectory(v, d) == IsDirectory(w, d) && Listing(v, d) == Listing(w, d)
    ensures After(v, EVERYTHING, ps, d) == After(w, EVERYTHING, ps, d)
    ensures SameWithin(v, w, After(v, EVERYTHING, ps, d))
  {
    var all := ps + [d];
    assert all[|ps|] == d;
    assert forall q :: d <= q ==> Within(all, q) by {
      forall q | d <= q ensures Within(all, q) {
        assert all[|ps|] <= q;
      }
    }
    ListedSame(v, w, d, v.order);
    hide Sound, Listed, Apart;
    assert Within(all, d);
    var next := After(v, EVERYTHING, ps, d);
    forall q | Within(next, q) ensures Within(all, q) {
      var i :| 0 <= i < |next| && next[i] <= q;
      if i < |ps| {
        assert all[i] <= q;
      } else {
        PushedIsSubdirectory(v, EVERYTHING, d, next[i]);
      }
    }
  }

  lemma {:induction false} TraversalSame(v: Volume, w: Volume, ps: seq<Path>)
    requires Apart(ps) && SameWithin(v, w, ps)
    ensures Traversal(v, EVERYTHING, ps) == Traversal(w, EVERYTHING, ps)
    decreases |Cover(v, ps)|, |ps|
  {
    if ps != [] {
      var front, d := ps[..|ps| - 1], ps[|ps| - 1];
      assert ps == front + [d];
      hide Sound, Apart, Traversal, Cover, After, SameWithin, Listing, Shown;
      OneStep(v, EVERYTHING, front, d);
      OneStep(w, EVERYTHING, front, d);
      SameAfter(v, w, front, d);
      TraversalSame(v, w, After(v, EVERYTHING, front, d));
    }
  }

  /** The pending paths are directories of `v`, and the entries from the cursor on are what `v` has there. */
  ghost predicate Faithful(v: Volume, e: Enumerator) {
    && (forall p :: p in e.pending ==> IsDirectory(v, p))
    && (forall i :: e.cursor <= i < |e.entries| ==>
          e.directory + [e.entries[i].name] in v.kinds && v.kinds[e.directory + [e.entries[i].name]] == e.entries[i].kind)
  }

  /** Everything on `w` is on `v`. */
  ghost predicate PartOf(w: Volume, v: Volume) {
    forall q :: q in w.kinds ==> q in v.kinds && v.kinds[q] == w.kinds[q]
  }

  lemma LoadIsFaithful(v: Volume, w: Volume, e: Enumerator)
    requires PartOf(w, v) && Faithful(v, e) && e.pending != [] && e.cursor >= |e.entries|
    ensures Faithful(v, Load(w, EVERYTHING, e))
  {
    hide Sound, Listing, Shown, Pushed;
    var d := e.pending[|e.pending| - 1];
    var next := Load(w, EVERYTHING, e);
    if IsDirectory(w, d) {
      forall p | p in Pushed(EVERYTHING, d, Listing(w, d)) ensures IsDirectory(v, p) {
        PushedIsSubdirectory(w, EVERYTHING, d, p);
      }
      forall i | 0 <= i < |next.entries|
        ensures d + [next.entries[i].name] in v.kinds && v.kinds[d + [next.entries[i].name]] == next.entries[i].kind
      {
        var entry := next.entries[i];
        ShownHolds(EVERYTHING, Listing(w, d), entry);
        ListingEntry(w, d, entry);
      }
    }
  }

  lemma {:induction false} SettleIsFaithful(v: Volume, w: Volume, e: Enumerator)
    requires PartOf(w, v) && Faithful(v, e) && Apart(e.pending)
    ensures Faithful(v, Settle(w, EVERYTHING, e))
    decreases |Cover(w, e.pending)|, |e.pending|
  {
    if e.cursor >= |e.entries| && e.pending != [] {
      hide Sound, Apart, PartOf, Faithful, Load, Cover;
      LoadDescends(w, EVERYTHING, e);
      LoadIsFaithful(v, w, e);
      SettleIsFaithful(v, w, Load(w, EVERYTHING, e));
    }
  }

  /** Unlinking a file outside the pending directories leaves what remains to be returned. */
  lemma UnlinkKeepsRemaining(w: Volume, e: Enumerator, x: Path)
    requires Apart(e.pending) && x in w.kinds && w.kinds[x] == File && Sound(Without(w, x))
    requires x !in Remaining(w, EVERYTHING, e) && x !in e.pending
    ensures Remaining(Without(w, x), EVERYTHING, e) == Remaining(w, EVERYTHING, e)
  {
    hide Sound, Apart, Traversal, PathsIn;
    assert x !in Traversal(w, EVERYTHING, e.pending);
    UnlinkIsElsewhere(w, e.pending, x);
    TraversalSame(w, Without(w, x), e.pending);
  }

  lemma UnlinkIsElsewhere(w: Volume, ps: seq<Path>, x: Path)
    requires Apart(ps) && x in w.kinds && w.kinds[x] == File && Sound(Without(w, x))
    requires x !in Traversal(w, EVERYTHING, ps) && x !in ps
    ensures SameWithin(w, Without(w, x), ps)
  {
    assert Allowed(EVERYTHING) && EVERYTHING.recursive && Matches(EVERYTHING, File);
    hide *;
    TraversalHolds(w, EVERYTHING, ps, x);
    NotWithin(ps, x);
    OthersStay(w, ps, x);
  }

  lemma NotWithin(ps: seq<Path>, x: Path)
    requires x !in ps && !StrictlyWithin(ps, x)
    ensures !Within(ps, x)
  {
    forall i | 0 <= i < |ps| ensures !(ps[i] <= x) {
      assert ps[i] in ps;
      PrefixOrEqual(ps[i], x);
    }
  }

  lemma PrefixOrEqual(p: Path, x: Path)
    ensures p <= x ==> p == x || p < x
  {
  }

  lemma OthersStay(w: Volume, ps: seq<Path>, x: Path)
    requires !Within(ps, x) && Sound(Without(w, x))
    ensures SameWithin(w, Without(w, x), ps)
  {
    hide Within, Sound, Without;
    WithoutHas(w, x, x);
    forall q | Within(ps, q)
      ensures q in w.kinds <==> q in Without(w, x).kinds
      ensures q in w.kinds ==> w.kinds[q] == Without(w, x).kinds[q]
    {
      WithoutHas(w, x, q);
    }
  }

  // ---------------------------------------------------------------- the directories to remove

  /** The directories among `ps`, in order. */
  function DirectoriesOf(v: Volume, ps: seq<Path>): seq<Path> {
    if ps == [] then []
    else
      var n := |ps| - 1;
      DirectoriesOf(v, ps[..n]) + (if IsDirectory(v, ps[n]) then [ps[n]] else [])
  }

  lemma {:induction false} DirectoriesHold(v: Volume, ps: seq<Path>, q: Path)
    ensures q in DirectoriesOf(v, ps) <==> q in ps && IsDirectory(v, q)
  {
    hide Sound;
    if ps != [] {
      var n := |ps| - 1;
      assert ps == ps[..n] + [ps[n]];
      DirectoriesHold(v, ps[..n], q);
    }
  }

  lemma {:induction false} DirectoriesInOrder(v: Volume, ps: seq<Path>)
    requires ParentsFirst(ps)
    ensures ParentsFirst(DirectoriesOf(v, ps))
  {
    hide Sound, IsDirectory;
    if ps != [] {
      var n := |ps| - 1;
      var front := ps[..n];
      assert forall i :: 0 <= i < n ==> front[i] == ps[i];
      DirectoriesInOrder(v, front);
      var dirs := DirectoriesOf(v, front);
      forall i | 0 <= i < |dirs| ensures !(ps[n] < dirs[i]) {
        DirectoriesHold(v, front, dirs[i]);
        assert dirs[i] in front;
      }
      LastIsNotAbove(dirs, ps[n]);
    }
  }

  lemma LastIsNotAbove(ps: seq<Path>, q: Path)
    requires ParentsFirst(ps) && forall i :: 0 <= i < |ps| ==> !(q < ps[i])
    ensures ParentsFirst(ps + [q])
  {
    var all := ps + [q];
    assert forall j :: 0 <= j < |ps| ==> all[j] == ps[j];
    forall i, j | 0 <= i < |all| && 0 <= j < |all| && all[i] < all[j] ensures i < j {
    }
  }

  /** The stack that Delete has when the enumeration ends. */
  ghost function Stack(v: Volume, root: Path): seq<Path> {
    [root] + DirectoriesOf(v, Traversal(v, EVERYTHING, [root]))
  }

  lemma StackHolds(v: Volume, root: Path)
    requires IsDirectory(v, root)
    ensures forall q :: q in Stack(v, root) <==> IsDirectory(v, q) && root <= q
    ensures ParentsFirst(Stack(v, root))
  {
    hide *;
    StackInOrder(v, root);
    forall q ensures q in Stack(v, root) <==> IsDirectory(v, q) && root <= q {
      InStack(v, root, q);
    }
  }

  lemma DirectoryBelow(v: Volume, root: Path, q: Path)
    ensures q in DirectoriesOf(v, Traversal(v, EVERYTHING, [root])) <==> IsDirectory(v, q) && root < q
  {
    var all := Traversal(v, EVERYTHING, [root]);
    assert Allowed(EVERYTHING) && forall k :: Matches(EVERYTHING, k);
    hide Sound, Traversal, DirectoriesOf, Apart, StrictlyWithin;
    DirectoriesHold(v, all, q);
    TraversalHolds(v, EVERYTHING, [root], q);
    assert StrictlyWithin([root], q) <==> root < q by { WithinOne(root, q); }
  }

  lemma WithinOne(root: Path, q: Path)
    ensures StrictlyWithin([root], q) <==> root < q
  {
    assert [root][0] == root;
  }

  lemma InStack(v: Volume, root: Path, q: Path)
    requires IsDirectory(v, root)
    ensures q in Stack(v, root) <==> IsDirectory(v, q) && root <= q
  {
    hide Sound, Traversal, DirectoriesOf, IsDirectory;
    DirectoryBelow(v, root, q);
    PrefixOrEqual(root, q);
  }

  lemma StackInOrder(v: Volume, root: Path)
    ensures ParentsFirst(Stack(v, root))
  {
    hide Sound, Traversal, DirectoriesOf, IsDirectory, ParentsFirst;
    var all := Traversal(v, EVERYTHING, [root]);
    EnumerationReturns(v, EVERYTHING, root, 0);
    DirectoriesInOrder(v, all);
    forall q | q in DirectoriesOf(v, all) ensures root < q {
      DirectoryBelow(v, root, q);
    }
    RootFirst(root, DirectoriesOf(v, all));
  }

  lemma RootFirst(root: Path, dirs: seq<Path>)
    requires ParentsFirst(dirs) && forall q :: q in dirs ==> root < q
    ensures ParentsFirst([root] + dirs)
  {
    var all := [root] + dirs;
    forall i, j | 0 <= i < |all| && 0 <= j < |all| && all[i] < all[j] ensures i < j {
      assert i > 0 ==> all[i] == dirs[i - 1];
      assert j > 0 ==> all[j] == dirs[j - 1];
      assert i > 0 ==> dirs[i - 1] in dirs;
    }
  }

  /** What is left on the disk while only the directories in `stack` remain of the tree under `root`. */
  ghost predicate Left(v: Volume, w: Volume, root: Path, stack: seq<Path>) {
    w.order == v.order &&
    forall q :: (q in w.kinds <==> q in v.kinds && (!(root <= q) || q in stack)) &&
                (q in w.kinds ==> w.kinds[q] == v.kinds[q])
  }

  /** The last directory of the stack is empty by then. */
  lemma TopIsEmpty(v: Volume, w: Volume, root: Path, m: nat)
    requires IsDirectory(v, root) && m < |Stack(v, root)|
    requires Left(v, w, root, Stack(v, root)[..m + 1])
    ensures var d := Stack(v, root)[m]; IsDirectory(w, d) && NoChildren(w, d)
  {
    hide Sound, Stack;
    StackHolds(v, root);
    LastHasNoChildren(v, w, root, Stack(v, root), m);
  }

  lemma LastHasNoChildren(v: Volume, w: Volume, root: Path, all: seq<Path>, m: nat)
    requires m < |all| && ParentsFirst(all) && forall q :: q in all ==> IsDirectory(v, q) && root <= q
    requires Left(v, w, root, all[..m + 1])
    ensures IsDirectory(w, all[m]) && NoChildren(w, all[m])
  {
    hide Sound;
    var d := all[m];
    assert d in all && d == all[..m + 1][m];
    forall q | q in w.kinds ensures !(d < q && |q| == |d| + 1) {
      if root <= q {
        var j :| 0 <= j < m + 1 && all[..m + 1][j] == q;
        assert all[j] == q;
        assert j <= m;
      }
    }
  }

  lemma {:induction false} StackDistinct(v: Volume, ps: seq<Path>)
    requires Distinct(ps)
    ensures Distinct(DirectoriesOf(v, ps))
  {
    hide Sound, IsDirectory;
    if ps != [] {
      var n := |ps| - 1;
      var front := ps[..n];
      StackDistinct(v, front);
      var dirs := DirectoriesOf(v, front);
      forall i | 0 <= i < |dirs| ensures dirs[i] != ps[n] {
        DirectoriesHold(v, front, dirs[i]);
      }
    }
  }

  lemma LeftPops(v: Volume, w: Volume, u: Volume, root: Path, stack: seq<Path>, d: Path)
    requires Left(v, w, root, stack + [d]) && d !in stack && root <= d && u == Without(w, d)
    ensures Left(v, u, root, stack)
  {
    hide Sound, Without;
    WithoutHas(w, d, d);
    forall q
      ensures q in u.kinds <==> q in v.kinds && (!(root <= q) || q in stack)
      ensures q in u.kinds ==> u.kinds[q] == v.kinds[q]
    {
      WithoutHas(w, d, q);
    }
  }

  lemma LeftAfterRmdir(v: Volume, w: Volume, root: Path, m: nat)
    requires IsDirectory(v, root) && m < |Stack(v, root)| && Distinct(Stack(v, root))
    requires Left(v, w, root, Stack(v, root)[..m + 1]) && Sound(Without(w, Stack(v, root)[m]))
    ensures Left(v, Without(w, Stack(v, root)[m]), root, Stack(v, root)[..m])
  {
    hide Sound, Stack, ParentsFirst, IsDirectory, Left, Without;
    StackHolds(v, root);
    var all := Stack(v, root);
    assert all[m] in all;
    assert all[..m + 1] == all[..m] + [all[m]];
    LeftPops(v, w, Without(w, all[m]), root, all[..m], all[m]);
  }

  lemma StackIsDistinct(v: Volume, root: Path)
    ensures Apart([root]) && Distinct(Stack(v, root))
  {
    hide Sound, Traversal, DirectoriesOf, IsDirectory, Distinct, Apart;
    EnumerationReturns(v, EVERYTHING, root, 0);
    StackDistinct(v, Traversal(v, EVERYTHING, [root]));
    DirectoryBelow(v, root, root);
    OneMoreDistinct(root, DirectoriesOf(v, Traversal(v, EVERYTHING, [root])));
  }

  lemma OneMoreDistinct(p: Path, ps: seq<Path>)
    requires Distinct(ps) && p !in ps
    ensures Distinct([p] + ps)
  {
  }

  // ---------------------------------------------------------------- Delete

  /** The files among the first `k` of `all` are gone, and nothing else. */
  ghost predicate Unlinked(v: Volume, w: Volume, all: seq<Path>, k: nat)
    requires k <= |all|
  {
    w.order == v.order &&
    forall q :: (q in w.kinds <==> q in v.kinds && !(q in all[..k] && v.kinds[q] == File)) &&
                (q in w.kinds ==> w.kinds[q] == v.kinds[q])
  }

  /** Where Delete stands when `k` paths have been dealt with and the enumerator shows the next one. */
  ghost predicate Running(v: Volume, w: Volume, e: Enumerator, all: seq<Path>, k: nat) {
    && Apart(e.pending) && Faithful(v, e)
    && k <= |all| && Unlinked(v, w, all, k)
    && Upcoming(w, EVERYTHING, e) == all[k..]
    && (e.cursor < |e.entries| || e.pending == [])
  }

  lemma UnlinkedIsPart(v: Volume, w: Volume, all: seq<Path>, k: nat)
    requires k <= |all| && Unlinked(v, w, all, k)
    ensures PartOf(w, v)
  {
    hide Sound;
  }

  lemma UnlinkNext(v: Volume, w: Volume, all: seq<Path>, k: nat)
    requires k < |all| && Distinct(all) && Unlinked(v, w, all, k) && all[k] in v.kinds
    ensures v.kinds[all[k]] == Directory ==> Unlinked(v, w, all, k + 1)
    ensures v.kinds[all[k]] == File ==> all[k] in w.kinds && w.kinds[all[k]] == File
    ensures v.kinds[all[k]] == File && Sound(Without(w, all[k])) ==> Unlinked(v, Without(w, all[k]), all, k + 1)
  {
    hide Sound, Without;
    var x := all[k];
    assert all[..k + 1] == all[..k] + [x];
    assert x !in all[..k];
    hide Distinct;
    var u := Without(w, x);
    WithoutHas(w, x, x);
    if v.kinds[x] == File {
      forall q
        ensures q in u.kinds <==> q in v.kinds && !(q in all[..k + 1] && v.kinds[q] == File)
        ensures q in u.kinds ==> u.kinds[q] == v.kinds[q]
      {
        WithoutHas(w, x, q);
      }
    }
  }

  /** What the enumerator shows is the next path of the traversal, with its kind. */
  lemma ShowsNext(v: Volume, w: Volume, e: Enumerator, all: seq<Path>, k: nat)
    requires Running(v, w, e, all, k)
    ensures k == |all| <==> Current(e).Exhausted?
    ensures k < |all| ==>
      && Current(e) == Found(all[k]) && Remaining(w, EVERYTHING, e) == all[k + 1..]
      && all[k] in v.kinds && v.kinds[all[k]] == e.entries[e.cursor].kind
  {
    hide Sound, Apart, Upcoming, Remaining, Unlinked;
    if e.cursor < |e.entries| {
      UpcomingFirst(w, EVERYTHING, e);
      var x := e.directory + [e.entries[e.cursor].name];
      assert all[k..] == [x] + Remaining(w, EVERYTHING, e);
      assert all[k] == all[k..][0] == x;
      assert all[k + 1..] == all[k..][1..];
    } else {
      NothingUpcoming(w, EVERYTHING, e);
    }
  }

  /** After the current path has been dealt with, Next brings the enumerator to the next one. */
  lemma NextKeepsRunning(v: Volume, w: Volume, e: Enumerator, all: seq<Path>, k: nat)
    requires k < |all| && Apart(e.pending) && Faithful(v, e)
    requires Unlinked(v, w, all, k + 1) && Remaining(w, EVERYTHING, e) == all[k + 1..]
    ensures Running(v, w, Next(w, EVERYTHING, e), all, k + 1)
  {
    hide Sound, Apart, Faithful, Upcoming, Settle, Unlinked;
    var e1 := e.(cursor := e.cursor + 1);
    FaithfulLater(v, e);
    SettleKeeps(w, EVERYTHING, e1);
    UnlinkedIsPart(v, w, all, k + 1);
    SettleIsFaithful(v, w, e1);
  }

  lemma FaithfulLater(v: Volume, e: Enumerator)
    requires Faithful(v, e)
    ensures Faithful(v, e.(cursor := e.cursor + 1))
  {
    hide Sound;
  }

  /** Unlinking the file that the enumerator shows leaves what it still has to show. */
  lemma UnlinkShown(v: Volume, w: Volume, e: Enumerator, all: seq<Path>, k: nat)
    requires Running(v, w, e, all, k) && k < |all| && Distinct(all)
    requires all[k] in v.kinds && v.kinds[all[k]] == File && Sound(Without(w, all[k]))
    ensures Unlinked(v, Without(w, all[k]), all, k + 1)
    ensures Remaining(Without(w, all[k]), EVERYTHING, e) == all[k + 1..]
  {
    hide Sound, Apart, Without, Upcoming, Remaining;
    ShowsNext(v, w, e, all, k);
    UnlinkNext(v, w, all, k);
    assert all[k] !in all[k + 1..];
    assert all[k] !in e.pending;
    hide Distinct, Faithful, Unlinked;
    UnlinkKeepsRemaining(w, e, all[k]);
  }

  lemma StartRuns(v: Volume, root: Path)
    requires IsDirectory(v, root)
    ensures Apart([root])
    ensures Running(v, v, Next(v, EVERYTHING, Start(root)), Traversal(v, EVERYTHING, [root]), 0)
  {
    hide Sound, Apart, Faithful, PartOf, Upcoming, Settle, Unlinked, Traversal;
    StartRemains(v, EVERYTHING, root);
    var e1 := Start(root).(cursor := 1);
    StartIsFaithful(v, root);
    NothingUnlinked(v, Traversal(v, EVERYTHING, [root]));
    SettleKeeps(v, EVERYTHING, e1);
    SettleIsFaithful(v, v, e1);
  }

  lemma StartIsFaithful(v: Volume, root: Path)
    requires IsDirectory(v, root)
    ensures Faithful(v, Start(root).(cursor := 1)) && PartOf(v, v)
  {
    hide Sound;
  }

  lemma NothingUnlinked(v: Volume, all: seq<Path>)
    ensures Unlinked(v, v, all, 0) && all[0..] == all
  {
    hide Sound;
  }

  /** With all files gone the directories of the stack are what is left of the tree. */
  lemma AllUnlinked(v: Volume, w: Volume, root: Path)
    requires IsDirectory(v, root) && Apart([root])
    requires var all := Traversal(v, EVERYTHING, [root]); Unlinked(v, w, all, |all|)
    ensures Left(v, w, root, Stack(v, root))
  {
    hide Sound, Traversal, Stack, Distinct, Together, ParentsFirst, Answers, Apart, Script;
    var all := Traversal(v, EVERYTHING, [root]);
    assert all[..|all|] == all;
    EnumerationReturns(v, EVERYTHING, root, 0);
    StackHolds(v, root);
    forall q ensures q in w.kinds <==> q in v.kinds && (!(root <= q) || q in Stack(v, root)) {
      FilesAreGone(v, w, root, all, Stack(v, root), q);
    }
  }

  lemma FilesAreGone(v: Volume, w: Volume, root: Path, all: seq<Path>, stack: seq<Path>, q: Path)
    requires q in w.kinds <==> q in v.kinds && !(q in all && v.kinds[q] == File)
    requires q in all <==> q in v.kinds && root < q
    requires q in stack <==> IsDirectory(v, q) && root <= q
    requires IsDirectory(v, root)
    ensures q in w.kinds <==> q in v.kinds && (!(root <= q) || q in stack)
  {
    hide Sound;
    PrefixOrEqual(root, q);
  }

  lemma StackGrows(v: Volume, root: Path, all: seq<Path>, k: nat)
    requires k < |all| && all[k] in v.kinds
    ensures [root] + DirectoriesOf(v, all[..k + 1]) ==
      [root] + DirectoriesOf(v, all[..k]) + (if v.kinds[all[k]] == Directory then [all[k]] else [])
  {
    hide Sound;
    assert all[..k + 1][..k] == all[..k];
  }

  lemma StepDirectory(v: Volume, w: Volume, e: Enumerator, all: seq<Path>, k: nat)
    requires Running(v, w, e, all, k) && k < |all| && Distinct(all)
    requires all[k] in v.kinds && v.kinds[all[k]] == Directory
    ensures Running(v, w, Next(w, EVERYTHING, e), all, k + 1)
  {
    hide Sound, Apart, Upcoming, Remaining, Next, Faithful, Unlinked, Distinct;
    ShowsNext(v, w, e, all, k);
    UnlinkNext(v, w, all, k);
    NextKeepsRunning(v, w, e, all, k);
  }

  lemma StepFile(v: Volume, w: Volume, e: Enumerator, all: seq<Path>, k: nat)
    requires Running(v, w, e, all, k) && k < |all| && Distinct(all)
    requires all[k] in v.kinds && v.kinds[all[k]] == File
    ensures all[k] in w.kinds && w.kinds[all[k]] == File && Sound(Without(w, all[k]))
    ensures Running(v, Without(w, all[k]), Next(Without(w, all[k]), EVERYTHING, e), all, k + 1)
  {
    hide Sound, Apart, Upcoming, Remaining, Next, Faithful, Unlinked, Distinct, Without, NoChildren;
    UnlinkNext(v, w, all, k);
    FileHasNoChildren(w, all[k]);
    WithoutIsSound(w, all[k]);
    UnlinkShown(v, w, e, all, k);
    NextKeepsRunning(v, Without(w, all[k]), e, all, k);
  }

  /** Unlinks the files under the directory `path` and collects the directories, itself first. */
  method UnlinkFiles(disk: Disk, path: Path) returns (success: bool, directories: seq<Path>)
    requires IsDirectory(disk.volume, path)
    modifies disk
    ensures success && directories == Stack(old(disk.volume), path)
    ensures Left(old(disk.volume), disk.volume, path, directories)
  {
    hide Sound, Apart, Traversal, Unlinked, Distinct, FileTree.Next, DirectoriesOf, Left, Start, Upcoming;
    hide Faithful, Without, Together, ParentsFirst;
    ghost var v := disk.volume;
    StartRuns(v, path);
    ghost var all := Traversal(v, EVERYTHING, [path]);
    EnumerationReturns(v, EVERYTHING, path, 0);
    NoDirectoriesYet(v, path, all);
    success := true;
    directories := [path];
    var traversal := new FileEnumerator(path, EVERYTHING);
    var current := traversal.Next(disk);
    ghost var k := 0;
    while success && current.Found?
      invariant fresh(traversal) && traversal.options == EVERYTHING
      invariant success && current == Current(traversal.State())
      invariant Running(v, disk.volume, traversal.State(), all, k)
      invariant directories == [path] + DirectoriesOf(v, all[..k])
      decreases |all| - k
    {
      ghost var w, e := disk.volume, traversal.State();
      ShowsNext(v, w, e, all, k);
      StackGrows(v, path, all, k);
      if traversal.entries[traversal.cursor].kind == Directory {
        directories := directories + [current.path];
        StepDirectory(v, w, e, all, k);
      } else {
        StepFile(v, w, e, all, k);
        success := disk.Unlink(current.path);
      }
      current := traversal.Next(disk);
      k := k + 1;
    }
    ShowsNext(v, disk.volume, traversal.State(), all, k);
    assert all[..k] == all;
    AllUnlinked(v, disk.volume, path);
  }

  lemma NoDirectoriesYet(v: Volume, root: Path, all: seq<Path>)
    ensures [root] == [root] + DirectoriesOf(v, all[..0])
  {
  }

  /** Removes the directories of the stack, the last one first; each is empty when its turn comes. */
  method RemoveDirectories(disk: Disk, path: Path, ghost v: Volume, stack: seq<Path>) returns (success: bool)
    requires IsDirectory(v, path) && stack == Stack(v, path) && Left(v, disk.volume, path, stack)
    modifies disk
    ensures success && Left(v, disk.volume, path, [])
  {
    hide Sound, Stack, Left, Distinct, NoChildren, Without, IsDirectory;
    StackIsDistinct(v, path);
    success := true;
    var directories := stack;
    assert stack[..|stack|] == stack;
    while success && directories != []
      invariant success && |directories| <= |stack| && directories == stack[..|directories|]
      invariant Left(v, disk.volume, path, directories)
      decreases |directories|
    {
      var m := |directories| - 1;
      var dir := directories[m];
      assert directories[..m] == stack[..m] && dir == stack[m];
      TopIsEmpty(v, disk.volume, path, m);
      WithoutIsSound(disk.volume, dir);
      LeftAfterRmdir(v, disk.volume, path, m);
      directories := directories[..m];
      success := disk.Rmdir(dir);
    }
  }

  /** What is not under `path`. */
  ghost predicate TreeRemoved(v: Volume, w: Volume, path: Path) {
    forall q :: (q in w.kinds <==> q in v.kinds && !(path <= q)) && (q in w.kinds ==> w.kinds[q] == v.kinds[q])
  }

  /**
   Succeeds on a path where nothing is, unlinks a file, and removes a directory if it is empty. A
   recursive call always succeeds and takes away exactly what is at or under the path.
   */
  method Delete(disk: Disk, path: Path, recursive: bool) returns (ok: bool)
    modifies disk
    ensures path !in old(disk.volume.kinds) ==> ok && disk.volume == old(disk.volume)
    ensures IsDirectory(old(disk.volume), path) && !recursive ==>
      && (ok <==> NoChildren(old(disk.volume), path))
      && disk.volume == (if ok then Without(old(disk.volume), path) else old(disk.volume))
    ensures path in old(disk.volume.kinds) && (recursive || !IsDirectory(old(disk.volume), path)) ==>
      ok && TreeRemoved(old(disk.volume), disk.volume, path)
  {
    hide Sound, Stack;
    ghost var v := disk.volume;
    if path !in disk.volume.kinds {
      return true;
    }
    if disk.volume.kinds[path] != Directory {
      FileTreeIsItself(v, path);
      ok := disk.Unlink(path);
      return;
    }
    if !recursive {
      ok := disk.Rmdir(path);
      return;
    }
    var directories;
    ok, directories := UnlinkFiles(disk, path);
    ok := RemoveDirectories(disk, path, v, directories);
  }

  lemma FileTreeIsItself(v: Volume, p: Path)
    requires p in v.kinds && v.kinds[p] == File
    ensures forall q :: q in v.kinds && p <= q ==> q == p
  {
    forall q | q in v.kinds && p <= q ensures q == p {
      PrefixOrEqual(p, q);
      if p < q {
        AncestorIsDirectory(v, p, q);
      }
    }
  }
}
