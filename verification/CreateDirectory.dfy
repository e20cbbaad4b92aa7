/**
 CreateDirectory (base/file_util_posix.cc) on path strings: DirName goes up to the root or the current
 directory, then every directory on the way down is made that is not there. The system calls look a
 path up name by name, "." and ".." included.
 */
module CreateDirectoryModel {
  import opened FilePathModel
  import opened FilePathProof
  import opened FileTree
  import opened FileUtil
  import FileTreeProof

  // ---------------------------------------------------------------- the system calls

  /** Where one name leads from the place `at`; the top is its own parent. */
  function Follow(at: Path, name: string): Path {
    if name == CURRENT || (name == PARENT && at == []) then at
    else if name == PARENT then at[..|at| - 1]
    else at + [name]
  }

  datatype Lookup = Missing | At(place: Path)

  /** Looks a list of names up from `at`: all but the last place must be directories. */
  function LookUp(v: Nodes, at: Path, names: seq<string>): Lookup {
    if names == [] then At(at)
    else
      var n := |names| - 1;
      match LookUp(v, at, names[..n])
      case Missing => Missing
      case At(d) => if IsDirectory(v, d) then At(Follow(d, names[n])) else Missing
  }

  predicate Absolute(s: string) {
    s != "" && IsSeparator(s[0])
  }

  /** Where the lookup of a path starts. */
  function StartOf(cwd: Path, s: string): Path {
    if Absolute(s) then [] else cwd
  }

  /** stat succeeds and tells of a directory. */
  predicate DirectoryExists(v: Nodes, cwd: Path, s: string) {
    var l := LookUp(v, StartOf(cwd, s), Segments(s));
    s != "" && l.At? && IsDirectory(v, l.place)
  }

  /** The place where mkdir makes a directory, if it can. */
  function Makes(v: Nodes, cwd: Path, s: string): Lookup {
    var names := Segments(s);
    if names == [] || IsDots(names[|names| - 1]) then Missing
    else
      var l := LookUp(v, StartOf(cwd, s), names);
      if l.At? && l.place !in v.kinds then l else Missing
  }

  /** The volume with a new directory, which a listing shows after the others. */
  function WithDirectory(v: Nodes, p: Path): Nodes {
    Nodes(v.kinds[p := Directory], if p in v.order then v.order else v.order + [p])
  }

  lemma StandsWith(v: Volume, p: Path, q: Path)
    requires p !in v.kinds && Standing(v, p) && q in WithDirectory(v, p).kinds
    ensures Standing(WithDirectory(v, p), q)
  {
    assert Standing(v, q) by { hide Standing; }
    hide Sound;
  }

  lemma WithDirectoryIsSound(v: Volume, p: Path)
    requires p !in v.kinds && Standing(v, p)
    ensures Sound(WithDirectory(v, p))
  {
    var w := WithDirectory(v, p);
    forall q | q in w.kinds ensures Standing(w, q) {
      StandsWith(v, p, q);
    }
    hide Standing;
  }

  /** What mkdir makes stands in a directory. */
  lemma MadeStands(v: Nodes, cwd: Path, s: string)
    requires Makes(v, cwd, s).At?
    ensures Makes(v, cwd, s).place !in v.kinds && Standing(v, Makes(v, cwd, s).place)
  {
  }

  method Mkdir(disk: Disk, cwd: Path, s: string) returns (ok: bool)
    modifies disk
    ensures ok <==> Makes(old(disk.volume), cwd, s).At?
    ensures ok ==> disk.volume == WithDirectory(old(disk.volume), Makes(old(disk.volume), cwd, s).place)
    ensures !ok ==> disk.volume == old(disk.volume)
  {
    hide Makes, Sound, Standing;
    var l := Makes(disk.volume, cwd, s);
    ok := l.At?;
    if ok {
      MadeStands(disk.volume, cwd, s);
      WithDirectoryIsSound(disk.volume, l.place);
      disk.volume := WithDirectory(disk.volume, l.place);
    }
  }

  // ---------------------------------------------------------------- the places on the way

  /** Where a list of names leads when every place on the way is a directory. */
  function Walk(at: Path, names: seq<string>): Path {
    if names == [] then at else Follow(Walk(at, names[..|names| - 1]), names[|names| - 1])
  }

  /** The places on the way, the first and the last included. */
  function Places(at: Path, names: seq<string>): set<Path> {
    if names == [] then {at} else Places(at, names[..|names| - 1]) + {Walk(at, names)}
  }

  ghost predicate AllDirectories(v: Nodes, places: set<Path>) {
    forall q :: q in places ==> IsDirectory(v, q)
  }

  /** A list of names leads to a directory exactly when every place on the way is one. */
  lemma {:induction false} LookUpWalks(v: Nodes, at: Path, names: seq<string>)
    ensures LookUp(v, at, names).At? && IsDirectory(v, LookUp(v, at, names).place) <==> AllDirectories(v, Places(at, names))
    ensures LookUp(v, at, names).At? ==> LookUp(v, at, names).place == Walk(at, names)
  {
    if names != [] {
      LookUpWalks(v, at, names[..|names| - 1]);
      hide Follow, IsDirectory;
    }
  }

  lemma WalkIsPlace(at: Path, names: seq<string>)
    ensures Walk(at, names) in Places(at, names)
  {
  }

  ghost function PlaceOf(cwd: Path, s: string): Path {
    Walk(StartOf(cwd, s), Segments(s))
  }

  ghost function PlacesOf(cwd: Path, s: string): set<Path> {
    Places(StartOf(cwd, s), Segments(s))
  }

  /** A path is a directory exactly when every place on the way is one. */
  lemma ExistsWhenAllDo(v: Nodes, cwd: Path, s: string)
    ensures DirectoryExists(v, cwd, s) <==> s != "" && AllDirectories(v, PlacesOf(cwd, s))
  {
    hide Segments, LookUp, Places, AllDirectories;
    LookUpWalks(v, StartOf(cwd, s), Segments(s));
  }

  // ---------------------------------------------------------------- DirName and the places

  /** The names of `s` are the first `k` of `p`, or `s` stands for the current directory where `p` starts. */
  ghost predicate IsOnTheWay(p: string, s: string, k: nat) {
    && Absolute(s) == Absolute(p) && k <= |Segments(p)|
    && (Segments(s) == Segments(p)[..k] || (k == 0 && s == CURRENT))
  }

  lemma StripKeeps(d: string)
    requires !AreAllSeparators(d)
    ensures Strip(d) != "" && Absolute(Strip(d)) == Absolute(d) && Segments(Strip(d)) == Segments(d)
  {
    var x, seps := CutSeparators(d);
    StripClosed(x, seps);
    SegmentsConcat(x, seps);
    SegmentsOfSeparators(seps);
    assert d[0] == x[0];
  }

  /** DirName drops the last name; the last one of all leaves "." or a root. */
  lemma DirNameDropsName(s: string)
    requires !AreAllSeparators(s)
    ensures Segments(s) != [] && Absolute(DirName(s)) == Absolute(s)
    ensures DirName(s) == CURRENT || Segments(DirName(s)) == Segments(s)[..|Segments(s)| - 1]
    ensures DirName(s) == CURRENT ==> !Absolute(s) && (|Segments(s)| == 1 || Segments(s)[..|Segments(s)| - 1] == [CURRENT])
  {
    var d, c, seps := TakeApart(s);
    LastName(d, c, seps);
    SegmentsEnd(d, c, seps);
    SegmentsOfSeparators(s);
    assert Segments(s)[..|Segments(s)| - 1] == Segments(d);
    if AreAllSeparators(d) {
      SegmentsOfSeparators(d);
      SegmentsOfSeparators(DirName(s));
    } else {
      StripKeeps(d);
      SegmentsOfName(CURRENT);
    }
  }

  lemma CurrentPlaces(cwd: Path)
    ensures Places(cwd, [CURRENT]) == {cwd} && Walk(cwd, [CURRENT]) == cwd
  {
    var names := [CURRENT];
    assert names[..0] == [];
    assert Places(cwd, names) == {cwd} + {Walk(cwd, names)};
  }

  /** The places on the way to DirName are the places on the way to all but the last name. */
  lemma DirNamePlaces(cwd: Path, s: string)
    requires !AreAllSeparators(s)
    ensures Segments(s) != []
    ensures var front := Segments(s)[..|Segments(s)| - 1];
      PlacesOf(cwd, DirName(s)) == Places(StartOf(cwd, s), front) && PlaceOf(cwd, DirName(s)) == Walk(StartOf(cwd, s), front)
  {
    DirNameDropsName(s);
    SegmentsOfName(CURRENT);
    CurrentPlaces(cwd);
    hide DirName, Segments;
  }

  lemma SeparatorsPlace(cwd: Path, s: string)
    requires s != "" && AreAllSeparators(s)
    ensures PlaceOf(cwd, s) == [] && PlacesOf(cwd, s) == {[]} && Segments(s) == []
    ensures DirName(s) != "" && AreAllSeparators(DirName(s))
  {
    SegmentsOfSeparators(s);
    StripRoot(s);
    RootIsFixed();
  }

  /** The walk up ends at "." or at a root. */
  lemma FixedPaths(cwd: Path, s: string)
    requires DirName(s) == s
    ensures s != "" && PlaceOf(cwd, s) == StartOf(cwd, s) && PlacesOf(cwd, s) == {StartOf(cwd, s)}
    ensures s == CURRENT || AreAllSeparators(s)
  {
    if AreAllSeparators(s) {
      DirNameIsSomething(s);
      SeparatorsPlace(cwd, s);
    } else {
      var d, c, seps := TakeApart(s);
      LastName(d, c, seps);
      SegmentsOfName(CURRENT);
      CurrentPlaces(cwd);
    }
  }

  /** One step down adds one place. */
  lemma DownOne(cwd: Path, s: string)
    requires s != ""
    ensures PlacesOf(cwd, s) == PlacesOf(cwd, DirName(s)) + {PlaceOf(cwd, s)}
    ensures StartOf(cwd, DirName(s)) == StartOf(cwd, s)
  {
    if AreAllSeparators(s) {
      SeparatorsPlace(cwd, s);
      hide DirName, Segments;
      SeparatorsPlace(cwd, DirName(s));
    } else {
      DirNamePlaces(cwd, s);
      DirNameDropsName(s);
      hide DirName, Segments;
    }
  }

  lemma FollowedDots(v: Volume, d: Path, name: string)
    requires IsDirectory(v, d) && IsDots(name)
    ensures IsDirectory(v, Follow(d, name))
  {
    assert Standing(v, d);
  }

  /** With the directories above there, mkdir makes the place of `s` exactly when nothing is at it. */
  lemma MakesPlace(v: Volume, cwd: Path, s: string)
    requires s != "" && AllDirectories(v, PlacesOf(cwd, DirName(s)))
    ensures DirectoryExists(v, cwd, s) <==> IsDirectory(v, PlaceOf(cwd, s))
    ensures Makes(v, cwd, s) == if PlaceOf(cwd, s) in v.kinds then Missing else At(PlaceOf(cwd, s))
  {
    DownOne(cwd, s);
    ExistsWhenAllDo(v, cwd, s);
    hide Sound, Segments, DirName, DirectoryExists;
    if AreAllSeparators(s) {
      SeparatorsPlace(cwd, s);
      SeparatorsPlace(cwd, DirName(s));
    } else {
      DirNamePlaces(cwd, s);
      var at, names := StartOf(cwd, s), Segments(s);
      var front := names[..|names| - 1];
      LookUpWalks(v, at, front);
      WalkIsPlace(at, front);
      if IsDots(names[|names| - 1]) {
        FollowedDots(v, Walk(at, front), names[|names| - 1]);
      }
    }
  }

  // ---------------------------------------------------------------- the source's two loops

  /** Each path is the DirName of the one before, and the last one is its own. */
  ghost predicate Ascends(paths: seq<string>) {
    && paths != [] && DirName(paths[|paths| - 1]) == paths[|paths| - 1]
    && forall i :: 0 <= i < |paths| - 1 ==> paths[i + 1] == DirName(paths[i]) && paths[i + 1] != paths[i]
  }

  /** The path and all its parents, the path itself first. */
  method Subpaths(full: string) returns (subpaths: seq<string>)
    ensures subpaths != [] && subpaths[0] == full && Ascends(subpaths)
  {
    hide DirName, Rank;
    var last := full;
    subpaths := [full];
    var path := DirName(full);
    while path != last
      invariant subpaths != [] && subpaths[0] == full && subpaths[|subpaths| - 1] == last && path == DirName(last)
      invariant forall i :: 0 <= i < |subpaths| - 1 ==> subpaths[i + 1] == DirName(subpaths[i]) && subpaths[i + 1] != subpaths[i]
      decreases Rank(last)
    {
      DirNameDescends(last);
      subpaths := subpaths + [path];
      last := path;
      path := DirName(path);
    }
  }

  /** Nothing that stands in the way of making `places`. */
  ghost predicate Clear(v: Nodes, places: set<Path>) {
    forall q :: q in places && q in v.kinds ==> IsDirectory(v, q)
  }

  /** What is missing of `places` has become directories, and everything else is as it was. */
  ghost predicate Made(v: Nodes, w: Nodes, places: set<Path>) {
    forall q :: (q in w.kinds <==> q in v.kinds || q in places) &&
                (q in w.kinds ==> w.kinds[q] == if q in v.kinds then v.kinds[q] else Directory)
  }

  lemma MadeOne(v: Nodes, w: Nodes, places: set<Path>, q: Path)
    requires Made(v, w, places) && AllDirectories(w, places)
    ensures IsDirectory(w, q) ==> Made(v, w, places + {q}) && AllDirectories(w, places + {q})
    ensures q !in w.kinds ==>
      Made(v, WithDirectory(w, q), places + {q}) && AllDirectories(WithDirectory(w, q), places + {q})
  {
  }

  lemma MadeNothing(v: Nodes, w: Nodes, places: set<Path>)
    requires Made(v, w, places) && forall q :: q in places ==> q in v.kinds
    ensures w.kinds == v.kinds
  {
  }

  /** A file stands behind the first `k` names, whose places have all been made. */
  ghost predicate StoppedAt(v: Nodes, w: Nodes, at: Path, names: seq<string>, k: nat) {
    && k < |names| && IsDirectory(v, at)
    && Clear(v, Places(at, names[..k])) && Made(v, w, Places(at, names[..k]))
    && Walk(at, names[..k + 1]) in v.kinds && !IsDirectory(v, Walk(at, names[..k + 1]))
  }

  lemma UpTheWay(p: string, s: string, k: nat)
    requires IsOnTheWay(p, s, k) && DirName(s) != s
    ensures IsOnTheWay(p, DirName(s), if k == 0 then 0 else k - 1)
    ensures !AreAllSeparators(s) ==> k > 0 && Segments(s) == Segments(p)[..k]
  {
    RootIsFixed();
    assert s != CURRENT;
    hide *;
    if AreAllSeparators(s) {
      UpFromSeparators(p, s, k);
    } else {
      UpFromName(p, s, k);
    }
  }

  lemma UpFromSeparators(p: string, s: string, k: nat)
    requires IsOnTheWay(p, s, k) && AreAllSeparators(s)
    ensures IsOnTheWay(p, DirName(s), if k == 0 then 0 else k - 1)
  {
    SegmentsOfSeparators(s);
    assert s == "" ==> DirName(s) == CURRENT;
    if s != "" {
      SeparatorsPlace([], s);
      SegmentsOfSeparators(DirName(s));
    }
    hide DirName, Segments;
  }

  lemma UpFromName(p: string, s: string, k: nat)
    requires IsOnTheWay(p, s, k) && !AreAllSeparators(s) && s != CURRENT
    ensures IsOnTheWay(p, DirName(s), if k == 0 then 0 else k - 1)
    ensures k > 0 && Segments(s) == Segments(p)[..k]
  {
    hide DirName, Segments, AreAllSeparators, Absolute;
    DirNameDropsName(s);
    SegmentsOfName(CURRENT);
    var names := Segments(p);
    assert Segments(s) == names[..k] && names[..k][..k - 1] == names[..k - 1];
  }

  lemma {:induction false} EachIsOnTheWay(paths: seq<string>, i: nat) returns (k: nat)
    requires Ascends(paths) && i < |paths|
    ensures IsOnTheWay(paths[0], paths[i], k)
  {
    hide DirName, Segments;
    if i == 0 {
      k := |Segments(paths[0])|;
    } else {
      k := EachIsOnTheWay(paths, i - 1);
      assert paths[i - 1 + 1] == DirName(paths[i - 1]);
      UpTheWay(paths[0], paths[i - 1], k);
      k := if k == 0 then 0 else k - 1;
    }
  }

  /** A call that fails below the start was stopped by a file. */
  lemma Stopped(v: Volume, w: Volume, cwd: Path, paths: seq<string>, i: nat)
    requires Ascends(paths) && i < |paths| - 1 && paths[i] != ""
    requires var above := PlacesOf(cwd, paths[i + 1]);
      Made(v, w, above) && AllDirectories(w, above) && Clear(v, above)
    requires IsDirectory(v, StartOf(cwd, paths[0]))
    requires PlaceOf(cwd, paths[i]) in w.kinds && !IsDirectory(w, PlaceOf(cwd, paths[i]))
    ensures exists k :: StoppedAt(v, w, StartOf(cwd, paths[0]), Segments(paths[0]), k)
  {
    hide Sound, DirName, Segments, Walk, Places;
    var p, s := paths[0], paths[i];
    var k := EachIsOnTheWay(paths, i);
    UpTheWay(p, s, k);
    DownOne(cwd, s);
    if AreAllSeparators(s) {
      SeparatorsPlace(cwd, s);
      SeparatorsPlace(cwd, DirName(s));
      assert false;
    }
    DirNamePlaces(cwd, s);
    assert Segments(p)[..k][..k - 1] == Segments(p)[..k - 1];
    assert StoppedAt(v, w, StartOf(cwd, p), Segments(p), k - 1);
  }

  // ---------------------------------------------------------------- what a stopped call means

  lemma {:induction false} EarlierPlaces(at: Path, names: seq<string>, k: nat)
    requires k <= |names|
    ensures Walk(at, names[..k]) in Places(at, names)
  {
    if k == |names| {
      assert names[..k] == names;
      WalkIsPlace(at, names);
    } else {
      assert names[..|names| - 1][..k] == names[..k];
      EarlierPlaces(at, names[..|names| - 1], k);
    }
  }

  /** Without ".." the way only goes down. */
  lemma {:induction false} PlacesGoDown(at: Path, names: seq<string>)
    requires PARENT !in names
    ensures forall q :: q in Places(at, names) ==> q <= Walk(at, names)
  {
    if names != [] {
      PlacesGoDown(at, names[..|names| - 1]);
    }
  }

  /** A file in the way means that the way was there before, unless ".." leads out of it. */
  lemma StoppedMadeNothing(v: Volume, w: Volume, at: Path, names: seq<string>, k: nat)
    requires StoppedAt(v, w, at, names, k) && PARENT !in names
    ensures w.kinds == v.kinds
  {
    hide Sound;
    var before, reached := names[..k], names[..k + 1];
    assert reached[..k] == before;
    PlacesGoDown(at, reached);
    forall q | q in Places(at, before) ensures q in v.kinds {
      assert q in Places(at, reached);
      PrefixOrEqual(q, Walk(at, reached));
      if q < Walk(at, reached) {
        FileTreeProof.AncestorIsDirectory(v, q, Walk(at, reached));
      }
    }
    MadeNothing(v, w, Places(at, before));
  }

  // ---------------------------------------------------------------- CreateDirectory

  /** Nothing keeps `full` from becoming a directory. */
  ghost predicate CanBeMade(v: Nodes, cwd: Path, full: string) {
    full != "" && IsDirectory(v, StartOf(cwd, full)) && Clear(v, PlacesOf(cwd, full))
  }

  /** Where the second loop stands: the paths from `i` on are directories. */
  ghost predicate Opened(v: Nodes, w: Nodes, cwd: Path, paths: seq<string>, i: nat) {
    if i >= |paths| then w == v
    else
      var places := PlacesOf(cwd, paths[i]);
      IsDirectory(v, StartOf(cwd, paths[0])) && Made(v, w, places) && AllDirectories(w, places) && Clear(v, places)
  }

  lemma MadeIsClear(v: Nodes, w: Nodes, places: set<Path>)
    requires Made(v, w, places) && AllDirectories(w, places)
    ensures Clear(v, places)
  {
  }

  /** A stopped call had a file in its way. */
  lemma StoppedIsNotClear(v: Nodes, w: Nodes, at: Path, names: seq<string>, k: nat)
    requires StoppedAt(v, w, at, names, k)
    ensures !Clear(v, Places(at, names))
  {
    EarlierPlaces(at, names, k + 1);
  }

  /** A path that is there already is left alone. */
  lemma ThereAlready(v: Nodes, w: Nodes, cwd: Path, full: string)
    requires DirectoryExists(v, cwd, full)
    ensures CanBeMade(v, cwd, full)
    ensures Made(v, w, PlacesOf(cwd, full)) ==> w.kinds == v.kinds
  {
    ExistsWhenAllDo(v, cwd, full);
    hide DirectoryExists, Segments;
    EarlierPlaces(StartOf(cwd, full), Segments(full), 0);
    if Made(v, w, PlacesOf(cwd, full)) {
      MadeNothing(v, w, PlacesOf(cwd, full));
    }
  }

  /**
   One turn of the second loop: the path is or becomes a directory, unless there is no directory to
   start from or a file is at its place.
   */
  lemma OneTurn(v: Volume, w: Volume, cwd: Path, paths: seq<string>, i: nat)
    requires Ascends(paths) && i < |paths| && Opened(v, w, cwd, paths, i + 1) && paths[i] != ""
    ensures DirectoryExists(w, cwd, paths[i]) ==> Opened(v, w, cwd, paths, i)
    ensures !DirectoryExists(w, cwd, paths[i]) && Makes(w, cwd, paths[i]).At? ==>
      Opened(v, WithDirectory(w, Makes(w, cwd, paths[i]).place), cwd, paths, i)
    ensures !DirectoryExists(w, cwd, paths[i]) && Makes(w, cwd, paths[i]).Missing? ==>
      || (w == v && !IsDirectory(v, StartOf(cwd, paths[0])))
      || exists k :: StoppedAt(v, w, StartOf(cwd, paths[0]), Segments(paths[0]), k)
  {
    if i == |paths| - 1 {
      TopTurn(v, cwd, paths);
    } else {
      LaterTurn(v, w, cwd, paths, i);
    }
  }

  lemma StartOnTheWay(cwd: Path, paths: seq<string>, i: nat)
    requires Ascends(paths) && i < |paths|
    ensures StartOf(cwd, paths[i]) == StartOf(cwd, paths[0])
  {
    hide DirName, Segments;
    var k := EachIsOnTheWay(paths, i);
  }

  lemma TopTurn(v: Volume, cwd: Path, paths: seq<string>)
    requires Ascends(paths)
    ensures var s := paths[|paths| - 1];
      && Makes(v, cwd, s).Missing?
      && (DirectoryExists(v, cwd, s) <==> IsDirectory(v, StartOf(cwd, paths[0])))
      && (DirectoryExists(v, cwd, s) ==> Opened(v, v, cwd, paths, |paths| - 1))
  {
    var s := paths[|paths| - 1];
    assert DirName(s) == s;
    hide Sound, Segments, DirName, DirectoryExists, StartOf, PlacesOf, PlaceOf, Makes, AreAllSeparators, IsDirectory;
    hide Made, AllDirectories, Clear;
    StartOnTheWay(cwd, paths, |paths| - 1);
    FixedPaths(cwd, s);
    ExistsWhenAllDo(v, cwd, s);
    FixedIsNotMade(v, cwd, s);
    OnePlace(v, StartOf(cwd, s));
  }

  lemma OnePlace(v: Nodes, q: Path)
    ensures AllDirectories(v, {q}) <==> IsDirectory(v, q)
    ensures IsDirectory(v, q) ==> Made(v, v, {q}) && Clear(v, {q})
  {
  }

  lemma FixedIsNotMade(v: Nodes, cwd: Path, s: string)
    requires s == CURRENT || AreAllSeparators(s)
    ensures Makes(v, cwd, s).Missing?
  {
    SegmentsOfName(CURRENT);
    SegmentsOfSeparators(s);
    hide Segments, LookUp;
  }

  lemma LaterTurn(v: Volume, w: Volume, cwd: Path, paths: seq<string>, i: nat)
    requires Ascends(paths) && i < |paths| - 1 && Opened(v, w, cwd, paths, i + 1) && paths[i] != ""
    ensures DirectoryExists(w, cwd, paths[i]) ==> Opened(v, w, cwd, paths, i)
    ensures !DirectoryExists(w, cwd, paths[i]) && Makes(w, cwd, paths[i]).At? ==>
      Opened(v, WithDirectory(w, Makes(w, cwd, paths[i]).place), cwd, paths, i)
    ensures !DirectoryExists(w, cwd, paths[i]) && Makes(w, cwd, paths[i]).Missing? ==>
      exists k :: StoppedAt(v, w, StartOf(cwd, paths[0]), Segments(paths[0]), k)
  {
    hide Sound, Segments, DirName, DirectoryExists, Makes, StartOf, PlaceOf, PlacesOf, StoppedAt, WithDirectory;
    hide Made, AllDirectories, Clear;
    var s := paths[i];
    var q := PlaceOf(cwd, s);
    var above := PlacesOf(cwd, DirName(s));
    MakesPlace(w, cwd, s);
    DownOne(cwd, s);
    MadeOne(v, w, above, q);
    if IsDirectory(w, q) {
      MadeIsClear(v, w, above + {q});
    } else if q in w.kinds {
      Stopped(v, w, cwd, paths, i);
    } else {
      MadeIsClear(v, WithDirectory(w, q), above + {q});
    }
  }

  lemma EmptyPath(v: Nodes, cwd: Path)
    ensures !DirectoryExists(v, cwd, "") && Makes(v, cwd, "") == Missing
    ensures DirName("") == CURRENT && PlacesOf(cwd, CURRENT) == {cwd}
  {
    SegmentsOfName(CURRENT);
    CurrentPlaces(cwd);
  }

  /** Only the path itself can be empty, and then nothing is made. */
  lemma EmptyFails(v: Volume, w: Volume, cwd: Path, paths: seq<string>, i: nat)
    requires Ascends(paths) && i < |paths| && paths[i] == "" && Opened(v, w, cwd, paths, i + 1)
    ensures paths[0] == "" && w.kinds == v.kinds
  {
    EmptyPath(v, cwd);
    if i > 0 {
      assert paths[i - 1 + 1] == DirName(paths[i - 1]);
      DirNameIsSomething(paths[i - 1]);
    }
    hide Sound, DirName, PlacesOf;
    MadeNothing(v, w, PlacesOf(cwd, paths[1]));
  }

  lemma Fails(v: Volume, w: Volume, cwd: Path, paths: seq<string>, i: nat)
    requires Ascends(paths) && i < |paths| && Opened(v, w, cwd, paths, i + 1)
    requires !DirectoryExists(w, cwd, paths[i]) && Makes(w, cwd, paths[i]).Missing?
    ensures !CanBeMade(v, cwd, paths[0]) && !DirectoryExists(v, cwd, paths[0])
    ensures w.kinds == v.kinds || exists k :: StoppedAt(v, w, StartOf(cwd, paths[0]), Segments(paths[0]), k)
    ensures PARENT !in Segments(paths[0]) ==> w.kinds == v.kinds
  {
    hide Sound, Ascends, Opened, DirectoryExists, Makes, StartOf, Segments, StoppedAt, Made, Places, Clear;
    var full := paths[0];
    var at, names := StartOf(cwd, full), Segments(full);
    if paths[i] == "" {
      EmptyFails(v, w, cwd, paths, i);
    } else {
      OneTurn(v, w, cwd, paths, i);
      if k :| StoppedAt(v, w, at, names, k) {
        StoppedIsNotClear(v, w, at, names, k);
        if PARENT !in names {
          StoppedMadeNothing(v, w, at, names, k);
        }
      }
    }
    if DirectoryExists(v, cwd, full) {
      ThereAlready(v, w, cwd, full);
    }
  }

  lemma Succeeds(v: Volume, w: Volume, cwd: Path, paths: seq<string>)
    requires Ascends(paths) && Opened(v, w, cwd, paths, 0) && paths[0] != ""
    ensures CanBeMade(v, cwd, paths[0]) && DirectoryExists(w, cwd, paths[0]) && Made(v, w, PlacesOf(cwd, paths[0]))
    ensures DirectoryExists(v, cwd, paths[0]) ==> w.kinds == v.kinds
  {
    hide Sound, DirectoryExists, StartOf, PlacesOf, Made, AllDirectories, Clear;
    ExistsWhenAllDo(w, cwd, paths[0]);
    if DirectoryExists(v, cwd, paths[0]) {
      ThereAlready(v, w, cwd, paths[0]);
    }
  }

  /**
   Creates every missing directory on the way to `full`. Fails exactly on the empty path, when there is
   no directory to start from and when a file is in the way; a failed call has made what comes before
   that file, which is nothing unless ".." is among the names.
   */
  method CreateDirectory(disk: Disk, cwd: Path, full: string) returns (ok: bool)
    modifies disk
    ensures ok <==> CanBeMade(old(disk.volume), cwd, full)
    ensures ok ==> DirectoryExists(disk.volume, cwd, full) && Made(old(disk.volume), disk.volume, PlacesOf(cwd, full))
    ensures DirectoryExists(old(disk.volume), cwd, full) ==> ok && disk.volume.kinds == old(disk.volume.kinds)
    ensures !ok ==>
      || disk.volume.kinds == old(disk.volume.kinds)
      || exists k :: StoppedAt(old(disk.volume), disk.volume, StartOf(cwd, full), Segments(full), k)
    ensures !ok && PARENT !in Segments(full) ==> disk.volume.kinds == old(disk.volume.kinds)
  {
    hide Sound, Ascends, Opened, DirectoryExists, Makes, StartOf, PlacesOf, Segments, WithDirectory, CanBeMade, Made, StoppedAt;
    ghost var v := disk.volume;
    var subpaths := Subpaths(full);
    var i := |subpaths|;
    assert Opened(v, v, cwd, subpaths, i) by { NothingOpened(v, cwd, subpaths); }
    while i > 0
      invariant i == 0 ==> full != ""
      invariant 0 <= i <= |subpaths| && Opened(v, disk.volume, cwd, subpaths, i)
    {
      i := i - 1;
      ghost var w := disk.volume;
      EmptyPath(w, cwd);
      if !DirectoryExists(disk.volume, cwd, subpaths[i]) {
        var made := Mkdir(disk, cwd, subpaths[i]);
        if !made && !DirectoryExists(disk.volume, cwd, subpaths[i]) {
          Fails(v, w, cwd, subpaths, i);
          return false;
        }
      }
      OneTurn(v, w, cwd, subpaths, i);
    }
    Succeeds(v, disk.volume, cwd, subpaths);
    ok := true;
  }

  lemma NothingOpened(v: Nodes, cwd: Path, paths: seq<string>)
    ensures Opened(v, v, cwd, paths, |paths|)
  {
  }

  // ---------------------------------------------------------------- the way in terms of names

  /** "." stays, a proper name goes down, ".." undoes it, and the top is its own parent. */
  lemma WalkByNames(at: Path, names: seq<string>, name: string)
    ensures Walk(at, names + ["."]) == Walk(at, names)
    ensures !IsDots(name) ==> Walk(at, names + [name]) == Walk(at, names) + [name]
    ensures !IsDots(name) ==> Walk(at, names + [name] + [".."]) == Walk(at, names)
    ensures Walk([], [".."]) == []
  {
    WalkOn(at, names, ".");
    WalkOn(at, names, name);
    WalkOn(at, names + [name], "..");
    assert [".."][..0] == [] && Walk([], []) == [];
    hide Walk;
  }

  lemma WalkOn(at: Path, names: seq<string>, name: string)
    ensures Walk(at, names + [name]) == Follow(Walk(at, names), name)
  {
    assert (names + [name])[..|names|] == names;
    hide Follow;
  }

  lemma {:induction false} ProperPlaces(at: Path, names: seq<string>)
    requires forall i :: 0 <= i < |names| ==> !IsDots(names[i])
    ensures Walk(at, names) == at + names
    ensures forall q :: q in Places(at, names) <==> at <= q <= at + names
  {
    if names == [] {
      assert at + names == at;
      forall q ensures q in Places(at, names) <==> at <= q <= at + names {
        assert at <= q <= at ==> q == at;
      }
    } else {
      var front, last := names[..|names| - 1], names[|names| - 1];
      assert names == front + [last];
      ProperPlaces(at, front);
      WalkByNames(at, front, last);
      assert at + names == (at + front) + [last];
      hide Walk;
      forall q ensures q in Places(at, names) <==> at <= q <= at + names {
        PrefixOfLonger(q, at + front, last);
      }
    }
  }

  lemma PrefixOfLonger(q: Path, p: Path, name: string)
    ensures q <= p + [name] <==> q <= p || q == p + [name]
  {
  }

  /**
   The places of a path whose names are all proper ones: the top, for a path that starts with a
   separator, or else the working directory, and from there down name by name.
   */
  lemma PlacesByNames(cwd: Path, s: string)
    requires forall i :: 0 <= i < |Segments(s)| ==> !IsDots(Segments(s)[i])
    ensures forall q :: q in PlacesOf(cwd, s) <==>
      if s != "" && s[0] == '/' then q <= Segments(s) else cwd <= q <= cwd + Segments(s)
  {
    ProperPlaces(StartOf(cwd, s), Segments(s));
    assert [] + Segments(s) == Segments(s);
  }
}
