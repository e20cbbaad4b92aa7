/**
 Parsing an argument vector (AppendSwitchesAndArguments and InitFromArgv in base/command_line.cc) is a
 stable partition of its trimmed items, and is idempotent exactly when no switch is fragile.
 */
module CommandLineParse {
  import opened CommandLineModel
  import opened CommandLineProof

  /** The items that are switches (or those that are not), in order. */
  function Selected(items: seq<string>, wanted: bool): seq<string> {
    if items == [] then []
    else (if IsSwitch(items[0]) == wanted then [items[0]] else []) + Selected(items[1..], wanted)
  }

  lemma {:induction false} SelectedHolds(items: seq<string>, wanted: bool)
    ensures forall s :: s in Selected(items, wanted) <==> s in items && IsSwitch(s) == wanted
    ensures |Selected(items, wanted)| <= |items|
  {
    hide IsSwitch;
    if items != [] {
      SelectedHolds(items[1..], wanted);
      assert items == [items[0]] + items[1..];
    }
  }

  /** A switch as the vector stores it: without the '=' when no value follows it. */
  function Stored(s: string): string {
    if FindEquals(s) + 1 == |s| then s[..|s| - 1] else s
  }

  function AllStored(items: seq<string>): (r: seq<string>)
    ensures |r| == |items| && forall i :: 0 <= i < |items| ==> r[i] == Stored(items[i])
  {
    seq(|items|, i requires 0 <= i < |items| => Stored(items[i]))
  }

  /** The trimmed items after the program. */
  function ItemsOf(argv: seq<string>): seq<string> {
    if argv == [] then [] else TrimAll(argv[1..])
  }

  function ProgramOf(argv: seq<string>): string {
    Trim(if argv == [] then "" else argv[0])
  }

  /** The items that are parsed as switches, those before "--" that are not, and "--" with what follows it. */
  function SwitchItems(items: seq<string>): seq<string> {
    Selected(items[..Terminator(items)], true)
  }

  function PlainItems(items: seq<string>): seq<string> {
    Selected(items[..Terminator(items)], false)
  }

  function Remainder(items: seq<string>): seq<string> {
    items[Terminator(items)..]
  }

  // ---------------------------------------------------------------- the partition

  lemma StoredIsEntry(s: string)
    requires IsSwitch(s)
    ensures Entry(SwitchName(s), SwitchValue(s)) == Stored(s)
    ensures SwitchName(s)[PrefixLength(SwitchName(s))..] == Key(s)
  {
    var n := FindEquals(s);
    FindEqualsFinds(s);
    assert PrefixLength(SwitchName(s)) > 0 by {
      assert n > 0;
      assert SwitchName(s)[0] == s[0];
    }
    if n == |s| {
      assert SwitchName(s) == s && s + "" == s;
    } else {
      assert s == s[..n] + "=" + s[n + 1..];
      assert s[..n] + ("=" + s[n + 1..]) == s;
      assert n + 1 == |s| ==> s[..n] + "" == s[..|s| - 1];
    }
  }

  lemma {:induction false} ScanHead(m: map<string, string>, e: string, rest: seq<string>)
    ensures Scan(m, [e] + rest) == Scan(m[Key(e) := SwitchValue(e)], rest)
  {
    if rest == [] {
      assert [e] + rest == [e] && [e][..0] == [];
    } else {
      var all := [e] + rest;
      assert all[..|all| - 1] == [e] + rest[..|rest| - 1];
      ScanHead(m, e, rest[..|rest| - 1]);
    }
  }

  /** The line after the first of the items. */
  function Next(l: Line, arg: string, parsing: bool): Line {
    if parsing && IsSwitch(arg) then AppendSwitch(l, SwitchName(arg), SwitchValue(arg)) else AppendArg(l, arg)
  }

  lemma AppendFirst(l: Line, items: seq<string>, parsing: bool)
    requires items != []
    ensures var arg := Trim(items[0]);
      var p := parsing && arg != TERMINATOR;
      AppendAll(l, items, parsing) == AppendAll(Next(l, arg, p), items[1..], p)
    ensures TrimAll(items) == [Trim(items[0])] + TrimAll(items[1..])
    ensures TrimAll(items)[1..] == TrimAll(items[1..])
  {
  }

  lemma {:induction false} AppendRemainder(l: Line, items: seq<string>)
    ensures AppendAll(l, items, false) == l.(argv := l.argv + TrimAll(items))
    decreases |items|
  {
    if items == [] {
      assert l.argv + [] == l.argv;
    } else {
      AppendFirst(l, items, false);
      AppendRemainder(AppendArg(l, Trim(items[0])), items[1..]);
      hide AppendAll, TrimAll, Trim, IsSwitch;
      Regroup(l.argv, Trim(items[0]), TrimAll(items[1..]));
    }
  }

  lemma Regroup(front: seq<string>, s: string, rest: seq<string>)
    ensures front + [s] + rest == front + ([s] + rest)
  {
  }

  /** The line with the switches put at the divider and the rest at the end. */
  function Partitioned(l: Line, switches: seq<string>, plain: seq<string>, rest: seq<string>): Line {
    var b := l.beginArgs;
    Fields(l.argv[..b] + AllStored(switches) + l.argv[b..] + plain + rest, Scan(l.switches, switches), b + |switches|)
  }

  lemma ItemIsSwitch(l: Line, s: string, switches: seq<string>, plain: seq<string>, rest: seq<string>)
    requires IsSwitch(s)
    ensures Partitioned(Next(l, s, true), switches, plain, rest) == Partitioned(l, [s] + switches, plain, rest)
  {
    StoredIsEntry(s);
    ScanHead(l.switches, s, switches);
    AllStoredHead(s, switches);
    hide Scan, Stored, IsSwitch, SwitchName, SwitchValue, Entry, PrefixLength, Key, AllStored;
    Divide(l.argv, l.beginArgs, Stored(s));
    Regroup(l.argv[..l.beginArgs], Stored(s), AllStored(switches));
  }

  lemma AllStoredHead(s: string, rest: seq<string>)
    ensures AllStored([s] + rest) == [Stored(s)] + AllStored(rest)
  {
    hide Stored;
  }

  lemma Divide(argv: seq<string>, b: nat, e: string)
    requires b <= |argv|
    ensures (argv[..b] + [e] + argv[b..])[..b + 1] == argv[..b] + [e]
    ensures (argv[..b] + [e] + argv[b..])[b + 1..] == argv[b..]
    ensures (argv + [e])[..b] == argv[..b] && (argv + [e])[b..] == argv[b..] + [e]
  {
  }

  lemma ItemIsPlain(l: Line, s: string, switches: seq<string>, plain: seq<string>, rest: seq<string>)
    requires !IsSwitch(s)
    ensures Partitioned(Next(l, s, true), switches, plain, rest) == Partitioned(l, switches, [s] + plain, rest)
  {
    hide Scan, IsSwitch, AllStored, AppendSwitch;
    Divide(l.argv, l.beginArgs, s);
    Reassociate(l.argv[..l.beginArgs] + AllStored(switches), l.argv[l.beginArgs..], s, plain);
  }

  lemma Reassociate(front: seq<string>, args: seq<string>, s: string, plain: seq<string>)
    ensures front + (args + [s]) + plain == front + args + ([s] + plain)
  {
  }

  /** The classification of the first item when it is not "--". */
  lemma FirstItem(items: seq<string>)
    requires items != [] && items[0] != TERMINATOR
    ensures SwitchItems(items) == (if IsSwitch(items[0]) then [items[0]] else []) + SwitchItems(items[1..])
    ensures PlainItems(items) == (if IsSwitch(items[0]) then [] else [items[0]]) + PlainItems(items[1..])
    ensures Remainder(items) == Remainder(items[1..])
  {
    var t := Terminator(items);
    assert t == 1 + Terminator(items[1..]);
    assert items[..t][1..] == items[1..][..t - 1];
  }

  /** Switches go to the divider and everything else to the end, each in its own order. */
  lemma {:induction false} PartitionOnto(l: Line, items: seq<string>)
    ensures var ts := TrimAll(items);
      AppendAll(l, items, true) == Partitioned(l, SwitchItems(ts), PlainItems(ts), Remainder(ts))
    decreases |items|
  {
    var ts := TrimAll(items);
    if items == [] {
      NothingToAppend(l);
    } else {
      AppendFirst(l, items, true);
      var arg := Trim(items[0]);
      if arg == TERMINATOR {
        AppendRemainder(AppendArg(l, arg), items[1..]);
        OnlyRemainder(l, ts);
      } else {
        FirstItem(ts);
        hide Partitioned, SwitchItems, PlainItems, Remainder, Trim, TrimAll, Next, IsSwitch, AppendAll;
        PartitionOnto(Next(l, arg, true), items[1..]);
        var switches, plain, rest := SwitchItems(ts[1..]), PlainItems(ts[1..]), Remainder(ts[1..]);
        assert switches == [] + switches && plain == [] + plain;
        if IsSwitch(arg) {
          ItemIsSwitch(l, arg, switches, plain, rest);
        } else {
          ItemIsPlain(l, arg, switches, plain, rest);
        }
      }
    }
  }

  lemma NothingToAppend(l: Line)
    ensures Partitioned(l, SwitchItems([]), PlainItems([]), Remainder([])) == l
  {
    assert l.argv == l.argv[..l.beginArgs] + AllStored([]) + l.argv[l.beginArgs..] + [] + [];
  }

  lemma OnlyRemainder(l: Line, ts: seq<string>)
    requires ts != [] && ts[0] == TERMINATOR
    ensures Partitioned(l, SwitchItems(ts), PlainItems(ts), Remainder(ts)) == l.(argv := l.argv + [ts[0]] + ts[1..])
  {
    assert ts[..0] == [] && ts[0..] == ts;
    assert l.argv[..l.beginArgs] + AllStored([]) + l.argv[l.beginArgs..] + [] + ts == l.argv + [ts[0]] + ts[1..];
  }

  /**
   Parsing a vector into a new command line: the program, then the switches before "--" in order, then
   the other items in order, with "--" and everything after it at the end; the map is the scan of the
   switches and the divider follows them.
   */
  lemma ParsePartitions(argv: seq<string>)
    ensures var items, l := ItemsOf(argv), Parse(argv);
      && l.argv == [ProgramOf(argv)] + AllStored(SwitchItems(items)) + PlainItems(items) + Remainder(items)
      && l.beginArgs == 1 + |SwitchItems(items)|
      && l.switches == Scan(map[], SwitchItems(items))
  {
    var new_ := Fresh(if argv == [] then "" else argv[0]);
    PartitionOnto(new_, if argv == [] then [] else argv[1..]);
    var items := ItemsOf(argv);
    assert new_.argv[..1] == [ProgramOf(argv)] && new_.argv[1..] == [];
    hide Trim, AppendAll, SwitchItems, PlainItems, Remainder, Scan;
    assert [ProgramOf(argv)] + AllStored(SwitchItems(items)) + []
        == [ProgramOf(argv)] + AllStored(SwitchItems(items));
  }

  /** Merging another line partitions its items in the same way, with its program if that is asked for. */
  lemma AppendArgumentsPartitions(l: Line, other: Line, includeProgram: bool)
    ensures var items := TrimAll(other.argv[1..]);
      Apply(l, Operation.AppendArguments(other, includeProgram)) ==
      Partitioned(if includeProgram then SetProgramOf(l, other.argv[0]) else l,
                  SwitchItems(items), PlainItems(items), Remainder(items))
  {
    PartitionOnto(if includeProgram then SetProgramOf(l, other.argv[0]) else l, other.argv[1..]);
  }

  // ---------------------------------------------------------------- nothing is lost

  predicate ValueMissing(s: string) {
    '=' in s && FindEquals(s) + 1 == |s|
  }

  lemma {:induction false} SelectedCounts(items: seq<string>)
    ensures multiset(Selected(items, true)) + multiset(Selected(items, false)) == multiset(items)
  {
    if items != [] {
      SelectedCounts(items[1..]);
      assert items == [items[0]] + items[1..];
    }
  }

  lemma StoredWhole(s: string)
    ensures Stored(s) == s <==> !ValueMissing(s)
  {
    FindEqualsFinds(s);
  }

  /** The items before "--" and the others make up all items. */
  lemma NothingDropped(items: seq<string>)
    ensures multiset(SwitchItems(items)) + multiset(PlainItems(items)) + multiset(Remainder(items)) == multiset(items)
  {
    SelectedCounts(items[..Terminator(items)]);
    assert items == items[..Terminator(items)] + items[Terminator(items)..];
  }

  /** The vector holds exactly the trimmed items, switches first, if and only if no switch ends in its first '='. */
  lemma ParseKeepsEveryItem(argv: seq<string>)
    ensures var items := ItemsOf(argv);
      Parse(argv).argv == [ProgramOf(argv)] + SwitchItems(items) + PlainItems(items) + Remainder(items) <==>
      forall i :: 0 <= i < Terminator(items) && IsSwitch(items[i]) ==> !ValueMissing(items[i])
  {
    ParsePartitions(argv);
    var items := ItemsOf(argv);
    var sw := SwitchItems(items);
    hide Stored, ValueMissing, Parse, Scan;
    SameFront([ProgramOf(argv)], AllStored(sw), sw, PlainItems(items), Remainder(items));
    forall s ensures Stored(s) == s <==> !ValueMissing(s) {
      StoredWhole(s);
    }
    SwitchItemsAre(items);
    hide *;
    if forall s :: s in sw ==> !ValueMissing(s) {
      assert forall k :: 0 <= k < |sw| ==> sw[k] in sw;
      assert AllStored(sw) == sw;
    } else {
      var s :| s in sw && ValueMissing(s);
      var k :| 0 <= k < |sw| && sw[k] == s;
      assert AllStored(sw)[k] != sw[k];
    }
  }

  /** The switch items are the switches before the first "--". */
  lemma SwitchItemsAre(items: seq<string>)
    ensures forall s :: s in SwitchItems(items) <==>
                        exists i :: 0 <= i < Terminator(items) && IsSwitch(items[i]) && items[i] == s
  {
    var front := items[..Terminator(items)];
    SelectedHolds(front, true);
    hide Selected, IsSwitch, Terminator;
    assert forall i :: 0 <= i < |front| ==> front[i] == items[i];
  }

  lemma SameFront(p: seq<string>, x: seq<string>, y: seq<string>, a: seq<string>, b: seq<string>)
    requires |x| == |y|
    ensures p + x + a + b == p + y + a + b <==> x == y
  {
    var left, right := p + x + a + b, p + y + a + b;
    assert left[|p|..|p| + |x|] == x && right[|p|..|p| + |x|] == y;
  }

  // ---------------------------------------------------------------- GetArgs

  /** Neither the switches nor the plain items hold "--", which the rest starts with. */
  lemma PartsAre(items: seq<string>)
    ensures forall s :: s in SwitchItems(items) ==> IsSwitch(s) && s != TERMINATOR && s in items
    ensures forall s :: s in PlainItems(items) ==> !IsSwitch(s) && s != TERMINATOR && s in items
    ensures forall s :: s in Remainder(items) ==> s in items
    ensures Remainder(items) == [] || Remainder(items)[0] == TERMINATOR
  {
    var front := items[..Terminator(items)];
    SelectedHolds(front, true);
    SelectedHolds(front, false);
    TerminatorFinds(items);
    hide Selected, IsSwitch, Terminator;
    assert forall s :: s in front ==> s in items && s != TERMINATOR;
  }

  /** On a parsed vector GetArgs gives the plain items and what follows "--", which alone is dropped. */
  lemma ArgsOfParse(argv: seq<string>)
    ensures var items := ItemsOf(argv);
      ArgsOf(Parse(argv)) == PlainItems(items) + (if Remainder(items) == [] then [] else Remainder(items)[1..])
  {
    ParsePartitions(argv);
    var items := ItemsOf(argv);
    var plain, rest := PlainItems(items), Remainder(items);
    var front := [ProgramOf(argv)] + AllStored(SwitchItems(items));
    PartsAre(items);
    hide Parse, Scan, AllStored, SwitchItems, ItemsOf, PlainItems, ProgramOf, Selected, Remainder, IsSwitch;
    ArgsAfter(front, plain, rest, Parse(argv));
  }

  lemma ArgsAfter(front: seq<string>, plain: seq<string>, rest: seq<string>, l: Line)
    requires l.argv == front + plain + rest && l.beginArgs == |front|
    requires TERMINATOR !in plain && (rest == [] || rest[0] == TERMINATOR)
    ensures ArgsOf(l) == plain + (if rest == [] then [] else rest[1..])
  {
    assert (front + plain + rest)[|front|..] == plain + rest;
    TerminatorAfter(plain, rest);
    assert rest != [] ==> (plain + rest)[..|plain|] == plain && (plain + rest)[|plain| + 1..] == rest[1..];
  }

  lemma {:induction false} TerminatorAfter(plain: seq<string>, rest: seq<string>)
    requires TERMINATOR !in plain
    ensures Terminator(plain + rest) == |plain| + Terminator(rest)
  {
    if plain == [] {
      assert plain + rest == rest;
    } else {
      assert (plain + rest)[1..] == plain[1..] + rest;
      TerminatorAfter(plain[1..], rest);
    }
  }

  // ---------------------------------------------------------------- idempotence

  /** A switch without a value that its stored form turns into "--" or into text with white space at the end. */
  predicate Fragile(s: string) {
    ValueMissing(s) && (s[..|s| - 1] == TERMINATOR || !Trimmed(s[..|s| - 1]))
  }

  lemma {:induction false} TrimKeepsFirst(s: string)
    requires s != "" && !White(s[0])
    ensures Trim(s) != "" && Trim(s)[0] == s[0]
    ensures forall c :: c in Trim(s) ==> c in s
    decreases |s|
  {
    if White(s[|s| - 1]) {
      TrimKeepsFirst(s[..|s| - 1]);
    }
  }

  /** Reading a stored switch again. */
  lemma StoredAgain(s: string)
    requires IsSwitch(s) && Trimmed(s) && s != TERMINATOR
    ensures IsSwitch(Stored(s)) && IsSwitch(Trim(Stored(s)))
    ensures Stored(Trim(Stored(s))) == Trim(Stored(s))
    ensures Fragile(s) <==> Stored(s) == TERMINATOR || Trim(Stored(s)) != Stored(s)
    ensures Key(Stored(s)) == Key(s) && SwitchValue(Stored(s)) == SwitchValue(s)
  {
    var t := Stored(s);
    StoredWhole(s);
    FindEqualsFinds(s);
    assert FindEquals(s) > 0;
    assert t[0] == '-';
    TrimKeepsFirst(t);
    if ValueMissing(s) {
      assert '=' !in t;
      FindEqualsFinds(t);
      FindEqualsFinds(Trim(t));
      assert t[..|t|] == t == SwitchName(s);
    }
  }

  ghost predicate SwitchesOnly(switches: seq<string>) {
    forall s :: s in switches ==> IsSwitch(s) && Trimmed(s) && s != TERMINATOR
  }

  lemma LastSwitch(switches: seq<string>) returns (front: seq<string>, last: string)
    requires switches != [] && SwitchesOnly(switches)
    ensures switches == front + [last] && SwitchesOnly(front)
    ensures IsSwitch(last) && Trimmed(last) && last != TERMINATOR
    ensures AllStored(switches) == AllStored(front) + [Stored(last)]
  {
    hide IsSwitch, Trimmed, Stored;
    front, last := switches[..|switches| - 1], switches[|switches| - 1];
    assert forall s :: s in front ==> s in switches;
  }

  lemma {:induction false} ScanStored(m: map<string, string>, switches: seq<string>)
    requires SwitchesOnly(switches)
    ensures Scan(m, AllStored(switches)) == Scan(m, switches)
    decreases |switches|
  {
    if switches != [] {
      hide *;
      var front, last := LastSwitch(switches);
      ScanStored(m, front);
      StoredAgain(last);
      ScanAppend(m, front, last);
      ScanAppend(m, AllStored(front), Stored(last));
    }
  }

  lemma {:induction false} SelectedParts(switches: seq<string>, plain: seq<string>)
    requires forall i :: 0 <= i < |switches| ==> IsSwitch(switches[i])
    requires forall i :: 0 <= i < |plain| ==> !IsSwitch(plain[i])
    ensures Selected(switches + plain, true) == switches && Selected(switches + plain, false) == plain
  {
    hide IsSwitch;
    if switches == [] {
      assert switches + plain == plain;
      if plain != [] {
        SelectedParts([], plain[1..]);
        assert [] + plain[1..] == plain[1..] && plain == [plain[0]] + plain[1..];
      }
    } else {
      assert (switches + plain)[1..] == switches[1..] + plain;
      assert switches == [switches[0]] + switches[1..];
      SelectedParts(switches[1..], plain);
    }
  }

  /** Classifying items that are already partitioned. */
  lemma Partition(switches: seq<string>, plain: seq<string>, rest: seq<string>)
    requires forall i :: 0 <= i < |switches| ==> IsSwitch(switches[i])
    requires forall i :: 0 <= i < |plain| ==> !IsSwitch(plain[i])
    requires TERMINATOR !in switches && TERMINATOR !in plain && (rest == [] || rest[0] == TERMINATOR)
    ensures var items := switches + plain + rest;
      SwitchItems(items) == switches && PlainItems(items) == plain && Remainder(items) == rest
  {
    TerminatorAfter(switches + plain, rest);
    SelectedParts(switches, plain);
    hide Selected, IsSwitch;
    assert (switches + plain + rest)[..|switches + plain|] == switches + plain;
  }

  /** With "--" among the first `n` items fewer than `n` of them are switches. */
  lemma FewerSwitches(items: seq<string>, n: nat)
    requires n <= |items| && TERMINATOR in items[..n]
    ensures |SwitchItems(items)| < n
  {
    var i :| 0 <= i < n && items[..n][i] == TERMINATOR;
    assert items[i] == TERMINATOR;
    TerminatorFinds(items);
    SelectedHolds(items[..Terminator(items)], true);
  }

  lemma {:induction false} TrimAllConcat(x: seq<string>, y: seq<string>)
    ensures TrimAll(x + y) == TrimAll(x) + TrimAll(y)
  {
    hide Trimmed, Trim;
  }

  lemma TrimAllSame(y: seq<string>)
    requires forall s :: s in y ==> Trimmed(s)
    ensures TrimAll(y) == y
  {
    hide Trimmed, Trim;
    assert forall i :: 0 <= i < |y| ==> y[i] in y;
  }

  /** The parts of a vector, and the vector and the line made of them. */
  datatype Parts = Parts(program: string, switches: seq<string>, plain: seq<string>, rest: seq<string>)

  function PartsOf(argv: seq<string>): Parts {
    var items := ItemsOf(argv);
    Parts(ProgramOf(argv), SwitchItems(items), PlainItems(items), Remainder(items))
  }

  function Vector(p: Parts): seq<string> {
    [p.program] + p.switches + p.plain + p.rest
  }

  function LineOf(p: Parts): Line {
    Fields(Vector(p.(switches := AllStored(p.switches))), Scan(map[], p.switches), 1 + |p.switches|)
  }

  /** All but the switches read the same again. */
  ghost predicate Settled(p: Parts) {
    && Trimmed(p.program)
    && (forall s :: s in p.plain ==> !IsSwitch(s) && Trimmed(s) && s != TERMINATOR)
    && (forall s :: s in p.rest ==> Trimmed(s))
    && (p.rest == [] || p.rest[0] == TERMINATOR)
  }

  lemma PartsOfParse(argv: seq<string>)
    ensures Parse(argv) == LineOf(PartsOf(argv))
    ensures Settled(PartsOf(argv)) && SwitchesOnly(PartsOf(argv).switches)
  {
    ParsePartitions(argv);
    PartsAre(ItemsOf(argv));
    assert forall s :: s in ItemsOf(argv) ==> Trimmed(s);
    hide ItemsOf, SwitchItems, PlainItems, Remainder, Trim, Trimmed, IsSwitch, Parse, Scan;
  }

  lemma ItemsOfVector(p: Parts)
    requires Settled(p)
    ensures ItemsOf(Vector(p)) == TrimAll(p.switches) + p.plain + p.rest
    ensures ProgramOf(Vector(p)) == p.program
  {
    assert Vector(p)[1..] == p.switches + p.plain + p.rest;
    hide Trimmed, Trim, TrimAll, IsSwitch;
    TrimAllConcat(p.switches + p.plain, p.rest);
    TrimAllConcat(p.switches, p.plain);
    TrimAllSame(p.plain);
    TrimAllSame(p.rest);
  }

  /** Parsing a vector whose switches read as switches again: either one of them ends the switches, or all stay. */
  lemma ParseAgain(p: Parts)
    requires Settled(p) && forall s :: s in TrimAll(p.switches) ==> IsSwitch(s)
    ensures TERMINATOR in TrimAll(p.switches) ==> |PartsOf(Vector(p)).switches| < |p.switches|
    ensures TERMINATOR !in TrimAll(p.switches) ==> PartsOf(Vector(p)) == p.(switches := TrimAll(p.switches))
  {
    ItemsOfVector(p);
    hide Trimmed, Trim, TrimAll, IsSwitch, Vector, ItemsOf, ProgramOf, SwitchItems, PlainItems, Remainder;
    var items, trimmed := ItemsOf(Vector(p)), TrimAll(p.switches);
    if TERMINATOR in trimmed {
      assert items[..|trimmed|] == trimmed;
      FewerSwitches(items, |trimmed|);
    } else {
      Partition(trimmed, p.plain, p.rest);
    }
  }

  /** One stored switch as a second parse sees it. */
  lemma StoredSwitchAt(sw: seq<string>, i: nat)
    requires SwitchesOnly(sw) && i < |sw|
    ensures var stored, again := AllStored(sw), TrimAll(AllStored(sw));
      && IsSwitch(again[i]) && Stored(again[i]) == again[i]
      && (Fragile(sw[i]) <==> stored[i] == TERMINATOR || again[i] != stored[i])
  {
    assert sw[i] in sw;
    hide IsSwitch, Trim, Trimmed, Stored, Fragile;
    StoredAgain(sw[i]);
  }

  lemma StoredSwitches(sw: seq<string>)
    requires SwitchesOnly(sw)
    ensures var again := TrimAll(AllStored(sw));
      && (forall s :: s in again ==> IsSwitch(s))
      && AllStored(again) == again
  {
    hide *;
    var again := TrimAll(AllStored(sw));
    forall i | 0 <= i < |again| ensures IsSwitch(again[i]) && Stored(again[i]) == again[i] {
      StoredSwitchAt(sw, i);
    }
    assert AllStored(again) == again;
  }

  lemma StoredSwitchesSame(sw: seq<string>)
    requires SwitchesOnly(sw)
    ensures var again := TrimAll(AllStored(sw));
      (TERMINATOR !in again && again == AllStored(sw)) <==> forall s :: s in sw ==> !Fragile(s)
  {
    hide *;
    var stored, again := AllStored(sw), TrimAll(AllStored(sw));
    forall i | 0 <= i < |sw| ensures Fragile(sw[i]) <==> stored[i] == TERMINATOR || again[i] != stored[i] {
      StoredSwitchAt(sw, i);
    }
    if forall s :: s in sw ==> !Fragile(s) {
      forall i | 0 <= i < |sw| ensures again[i] == stored[i] && again[i] != TERMINATOR {
        assert sw[i] in sw;
      }
      assert again == stored;
    } else {
      var s :| s in sw && Fragile(s);
      var i :| 0 <= i < |sw| && sw[i] == s;
      assert stored[i] == TERMINATOR || again[i] != stored[i];
    }
  }

  lemma ParseTwice(p: Parts)
    requires Settled(p) && SwitchesOnly(p.switches)
    ensures Parse(LineOf(p).argv) == LineOf(p) <==> forall s :: s in p.switches ==> !Fragile(s)
  {
    var stored := p.(switches := AllStored(p.switches));
    assert Settled(stored) && LineOf(p).argv == Vector(stored);
    StoredSwitches(p.switches);
    StoredSwitchesSame(p.switches);
    ScanStored(map[], p.switches);
    hide Settled, SwitchesOnly, IsSwitch, Scan, Fragile, TrimAll, AllStored, Stored, PartsOf, Parse;
    var again := TrimAll(stored.switches);
    ParseAgain(stored);
    PartsOfParse(Vector(stored));
    SameFront([p.program], again, stored.switches, p.plain, p.rest);
  }

  /** Parsing the vector that parsing left gives the same line if and only if no parsed switch is fragile. */
  lemma ParseIsIdempotent(argv: seq<string>)
    ensures var items := ItemsOf(argv);
      Parse(Parse(argv).argv) == Parse(argv) <==>
      forall i :: 0 <= i < Terminator(items) && IsSwitch(items[i]) ==> !Fragile(items[i])
  {
    var items := ItemsOf(argv);
    assert PartsOf(argv).switches == SwitchItems(items);
    hide *;
    PartsOfParse(argv);
    ParseTwice(PartsOf(argv));
    SwitchItemsAre(items);
  }

  lemma FragileFirst(program: string, s: string, more: seq<string>)
    requires IsSwitch(s) && Trimmed(s) && s != TERMINATOR && '=' !in s[..|s| - 1] && s[|s| - 1] == '='
    requires s[..|s| - 1] == TERMINATOR || White(s[|s| - 2])
    ensures Parse(Parse([program, s] + more).argv) != Parse([program, s] + more)
  {
    var argv := [program, s] + more;
    assert argv[1..] == [s] + more;
    assert ItemsOf(argv)[0] == s;
    FindEqualsAt(s, |s| - 1);
    assert Fragile(s);
    assert Terminator(ItemsOf(argv)) > 0;
    hide Fragile, IsSwitch, Trimmed, ItemsOf, Parse;
    ParseIsIdempotent(argv);
  }

  /** Two vectors on which parsing is not idempotent: "--=" becomes "--", and "-a =" loses its space. */
  lemma NotAlwaysIdempotent()
    ensures Parse(Parse(["p", "--=", "-x"]).argv) != Parse(["p", "--=", "-x"])
    ensures Parse(Parse(["p", "-a ="]).argv) != Parse(["p", "-a ="])
  {
    assert "--="[..2] == TERMINATOR;
    assert ["p", "--="] + ["-x"] == ["p", "--=", "-x"] && ["p", "-a ="] + [] == ["p", "-a ="];
    hide Parse;
    FragileFirst("p", "--=", ["-x"]);
    FragileFirst("p", "-a =", []);
  }
}
