/**
 What every run of CommandLine operations keeps: the divider in range, only switches in the switch
 segment, and agreement of that segment with the switch map; and what copying switches does.
 */
module CommandLineProof {
  import opened CommandLineModel

  // ---------------------------------------------------------------- scanning the switch segment

  /** Files the entries of `segment` into `m`, left to right. */
  function Scan(m: map<string, string>, segment: seq<string>): map<string, string> {
    if segment == [] then m
    else
      var last := segment[|segment| - 1];
      Scan(m, segment[..|segment| - 1])[Key(last) := SwitchValue(last)]
  }

  /** The last entry of `segment` filed under `key`, or -1. */
  function Rightmost(segment: seq<string>, key: string): (r: int)
    ensures -1 <= r < |segment|
    ensures r >= 0 ==> Key(segment[r]) == key
    ensures forall i :: r < i < |segment| ==> Key(segment[i]) != key
  {
    if segment == [] then -1
    else if Key(segment[|segment| - 1]) == key then |segment| - 1
    else Rightmost(segment[..|segment| - 1], key)
  }

  /** After `wrapped` wrapper words and the program come the switches, up to the divider. */
  ghost predicate Shape(l: Line, wrapped: nat) {
    1 + wrapped <= l.beginArgs && forall i :: 1 + wrapped <= i < l.beginArgs ==> IsSwitch(l.argv[i])
  }

  function Segment(l: Line, wrapped: nat): seq<string>
    requires 1 + wrapped <= l.beginArgs
  {
    l.argv[1 + wrapped..l.beginArgs]
  }

  /** Looking `key` up gives what the rightmost entry for it says, and nothing when there is none. */
  ghost predicate LooksUp(switches: map<string, string>, segment: seq<string>, key: string) {
    var i := Rightmost(segment, key);
    (key in switches <==> i >= 0) && (i >= 0 ==> switches[key] == SwitchValue(segment[i]))
  }

  ghost predicate Agrees(l: Line, wrapped: nat)
    requires 1 + wrapped <= l.beginArgs
  {
    forall key :: LooksUp(l.switches, Segment(l, wrapped), key)
  }

  lemma {:induction false} ScanLooksUp(segment: seq<string>, key: string)
    ensures LooksUp(Scan(map[], segment), segment, key)
  {
    if segment != [] {
      ScanLooksUp(segment[..|segment| - 1], key);
    }
  }

  lemma AgreesIsScan(l: Line, wrapped: nat)
    requires 1 + wrapped <= l.beginArgs
    ensures Agrees(l, wrapped) <==> l.switches == Scan(map[], Segment(l, wrapped))
  {
    var segment := Segment(l, wrapped);
    var scan := Scan(map[], segment);
    forall key ensures LooksUp(scan, segment, key) {
      ScanLooksUp(segment, key);
    }
    hide Scan, Rightmost;
    if Agrees(l, wrapped) {
      forall key ensures key in l.switches <==> key in scan {
        assert LooksUp(l.switches, segment, key) && LooksUp(scan, segment, key);
      }
      forall key | key in scan ensures l.switches[key] == scan[key] {
        assert LooksUp(l.switches, segment, key) && LooksUp(scan, segment, key);
      }
      assert l.switches == scan;
    }
  }

  // ---------------------------------------------------------------- entries

  lemma FindEqualsAt(s: string, n: nat)
    requires n <= |s| && '=' !in s[..n] && (n < |s| ==> s[n] == '=')
    ensures FindEquals(s) == n
  {
    var f := FindEquals(s);
    FindEqualsFinds(s);
    forall k | 0 <= k < n ensures s[k] != '=' {
      assert s[k] == s[..n][k];
    }
    forall k | 0 <= k < f ensures s[k] != '=' {
      assert s[k] == s[..f][k];
    }
  }

  /** An entry written for a name without '=' is read back as that name and value. */
  lemma EntryReads(name: string, value: string)
    requires '=' !in name
    ensures Key(Entry(name, value)) == name[PrefixLength(name)..]
    ensures SwitchValue(Entry(name, value)) == value
  {
    var full := if PrefixLength(name) == 0 then "--" + name else name;
    var e := Entry(name, value);
    assert e[..|full|] == full;
    FindEqualsAt(e, |full|);
    assert value != "" ==> e[|full| + 1..] == value;
    if PrefixLength(name) == 0 {
      assert full[2..] == name == name[0..];
    }
  }

  lemma EntryIsSwitch(name: string, value: string)
    ensures IsSwitch(Entry(name, value))
  {
    assert Entry(name, value)[0] == '-';
  }

  // ---------------------------------------------------------------- what each operation keeps

  ghost predicate Scanned(l: Line, wrapped: nat) {
    Shape(l, wrapped) && l.switches == Scan(map[], Segment(l, wrapped))
  }

  /** Some switch is filed under a name no scan can produce. */
  ghost predicate Tainted(l: Line) {
    exists key :: key in l.switches && '=' in key
  }

  /** The operation appends a switch whose name contains '='. */
  predicate NamesWithEquals(op: Operation) {
    match op
    case AppendSwitchNative(name, _) => '=' in name
    case CopySwitchesFrom(source, names) =>
      exists i :: 0 <= i < |names| && names[i] in source.switches && '=' in names[i]
    case _ => false
  }

  function WrapperWords(op: Operation): nat {
    if op.PrependWrapper? && op.wrapper != "" then |Pieces(op.wrapper)| else 0
  }

  function Wrapped(ops: seq<Operation>): nat {
    if ops == [] then 0 else Wrapped(ops[..|ops| - 1]) + WrapperWords(ops[|ops| - 1])
  }

  lemma ScanAppend(m: map<string, string>, segment: seq<string>, e: string)
    ensures Scan(m, segment + [e]) == Scan(m, segment)[Key(e) := SwitchValue(e)]
  {
    assert (segment + [e])[..|segment|] == segment;
  }

  lemma AppendSwitchKeeps(l: Line, wrapped: nat, name: string, value: string)
    requires Shape(l, wrapped)
    ensures Shape(AppendSwitch(l, name, value), wrapped)
    ensures Segment(AppendSwitch(l, name, value), wrapped) == Segment(l, wrapped) + [Entry(name, value)]
    ensures Scanned(l, wrapped) && '=' !in name ==> Scanned(AppendSwitch(l, name, value), wrapped)
    ensures '=' in name ==> Tainted(AppendSwitch(l, name, value))
    ensures Tainted(l) ==> Tainted(AppendSwitch(l, name, value))
  {
    var after := AppendSwitch(l, name, value);
    EntryIsSwitch(name, value);
    assert Segment(after, wrapped) == Segment(l, wrapped) + [Entry(name, value)];
    ScanAppend(map[], Segment(l, wrapped), Entry(name, value));
    if '=' !in name {
      EntryReads(name, value);
    } else {
      var i :| 0 <= i < |name| && name[i] == '=';
      var key := name[PrefixLength(name)..];
      assert key[i - PrefixLength(name)] == '=';
      assert key in after.switches;
    }
    if Tainted(l) {
      var key :| key in l.switches && '=' in key;
      assert key in after.switches;
    }
  }

  lemma AppendArgKeeps(l: Line, wrapped: nat, arg: string)
    ensures Shape(l, wrapped) ==> Shape(AppendArg(l, arg), wrapped)
    ensures Scanned(l, wrapped) ==> Scanned(AppendArg(l, arg), wrapped)
    ensures Tainted(l) ==> Tainted(AppendArg(l, arg))
  {
    if Shape(l, wrapped) {
      assert Segment(AppendArg(l, arg), wrapped) == Segment(l, wrapped);
    }
  }

  lemma {:induction false} AppendAllKeeps(l: Line, wrapped: nat, items: seq<string>, parsing: bool)
    requires Shape(l, wrapped)
    ensures Shape(AppendAll(l, items, parsing), wrapped)
    ensures Scanned(l, wrapped) ==> Scanned(AppendAll(l, items, parsing), wrapped)
    ensures Tainted(l) ==> Tainted(AppendAll(l, items, parsing))
    decreases |items|
  {
    hide Scanned, Tainted, Shape, AppendSwitch, AppendArg;
    if items != [] {
      var arg := Trim(items[0]);
      var p := parsing && arg != TERMINATOR;
      if p && IsSwitch(arg) {
        FindEqualsFinds(arg);
        AppendSwitchKeeps(l, wrapped, SwitchName(arg), SwitchValue(arg));
        AppendAllKeeps(AppendSwitch(l, SwitchName(arg), SwitchValue(arg)), wrapped, items[1..], p);
      } else {
        AppendArgKeeps(l, wrapped, arg);
        AppendAllKeeps(AppendArg(l, arg), wrapped, items[1..], p);
      }
    }
  }

  lemma {:induction false} CopyKeeps(l: Line, wrapped: nat, source: Line, names: seq<string>)
    requires Shape(l, wrapped)
    ensures var after := CopySwitches(l, source, names);
      var bad := exists i :: 0 <= i < |names| && names[i] in source.switches && '=' in names[i];
      && Shape(after, wrapped)
      && (Scanned(l, wrapped) && !bad ==> Scanned(after, wrapped))
      && (Tainted(l) || bad ==> Tainted(after))
  {
    hide Scanned, Tainted, Shape, AppendSwitch;
    if names != [] {
      var front, name := names[..|names| - 1], names[|names| - 1];
      CopyKeeps(l, wrapped, source, front);
      assert forall i :: 0 <= i < |front| ==> names[i] == front[i];
      if name in source.switches {
        AppendSwitchKeeps(CopySwitches(l, source, front), wrapped, name, source.switches[name]);
      }
    }
  }

  /** A line without a tainted name has none to copy to itself. */
  lemma {:induction false} CopyOwnKeeps(l: Line, wrapped: nat, names: seq<string>)
    requires Shape(l, wrapped)
    ensures Shape(CopyOwn(l, names), wrapped)
    ensures Scanned(l, wrapped) ==> Scanned(CopyOwn(l, names), wrapped)
    ensures Tainted(l) ==> Tainted(CopyOwn(l, names))
  {
    hide Tainted, Shape, AppendSwitch, Scan, Segment;
    if names != [] {
      var front, name := names[..|names| - 1], names[|names| - 1];
      var before := CopyOwn(l, front);
      CopyOwnKeeps(l, wrapped, front);
      if name in before.switches {
        AppendSwitchKeeps(before, wrapped, name, before.switches[name]);
        if Scanned(before, wrapped) {
          ShapeHasSegment(before, wrapped);
          ScanNames(Segment(before, wrapped), name);
        }
      }
    }
  }

  lemma ShapeHasSegment(l: Line, wrapped: nat)
    requires Shape(l, wrapped)
    ensures 1 + wrapped <= l.beginArgs
  {
  }

  lemma WrapKeeps(l: Line, wrapped: nat, wrapper: string)
    ensures var words := if wrapper == "" then 0 else |Pieces(wrapper)|;
      && (Shape(l, wrapped) ==> Shape(Wrap(l, wrapper), wrapped + words))
      && (Scanned(l, wrapped) ==> Scanned(Wrap(l, wrapper), wrapped + words))
      && (Tainted(l) ==> Tainted(Wrap(l, wrapper)))
  {
    hide Scan, TrimAll, Pieces, IsSwitch;
    if wrapper != "" && Shape(l, wrapped) {
      var words := |Pieces(wrapper)|;
      var after := Wrap(l, wrapper);
      assert forall i :: words <= i < |after.argv| ==> after.argv[i] == l.argv[i - words];
      assert Segment(after, wrapped + words) == Segment(l, wrapped);
    }
  }

  lemma SetProgramKeeps(l: Line, wrapped: nat, program: string)
    ensures Shape(l, wrapped) ==> Shape(SetProgramOf(l, program), wrapped)
    ensures Scanned(l, wrapped) ==> Scanned(SetProgramOf(l, program), wrapped)
    ensures Tainted(l) ==> Tainted(SetProgramOf(l, program))
  {
    if Shape(l, wrapped) {
      assert Segment(SetProgramOf(l, program), wrapped) == Segment(l, wrapped);
    }
  }

  lemma ApplyKeeps(l: Line, wrapped: nat, op: Operation)
    requires Shape(l, wrapped)
    ensures var after, w := Apply(l, op), wrapped + WrapperWords(op);
      && Shape(after, w)
      && (Scanned(l, wrapped) && !NamesWithEquals(op) ==> Scanned(after, w))
      && (Tainted(l) || NamesWithEquals(op) ==> Tainted(after))
  {
    hide Scanned, Tainted, Shape, AppendSwitch, AppendArg, CopySwitches, CopyOwn, AppendAll, Wrap, SetProgramOf;
    match op
    case AppendSwitchNative(name, value) => AppendSwitchKeeps(l, wrapped, name, value);
    case AppendArgNative(arg) => AppendArgKeeps(l, wrapped, arg);
    case CopySwitchesFrom(source, names) => CopyKeeps(l, wrapped, source, names);
    case CopyOwnSwitches(names) => CopyOwnKeeps(l, wrapped, names);
    case AppendArguments(other, includeProgram) =>
      SetProgramKeeps(l, wrapped, other.argv[0]);
      AppendAllKeeps(if includeProgram then SetProgramOf(l, other.argv[0]) else l, wrapped, other.argv[1..], true);
    case PrependWrapper(wrapper) => WrapKeeps(l, wrapped, wrapper);
    case SetProgram(program) => SetProgramKeeps(l, wrapped, program);
  }

  /** No scan produces a name with '=' in it. */
  lemma {:induction false} ScanNames(segment: seq<string>, key: string)
    requires key in Scan(map[], segment)
    ensures '=' !in key
  {
    var last := segment[|segment| - 1];
    if key == Key(last) {
      FindEqualsFinds(last);
      assert forall c :: c in key ==> c in SwitchName(last);
    } else {
      ScanNames(segment[..|segment| - 1], key);
    }
  }

  lemma TaintedDisagrees(l: Line, wrapped: nat)
    requires Shape(l, wrapped) && Tainted(l)
    ensures !Scanned(l, wrapped)
  {
    var key :| key in l.switches && '=' in key;
    if Scanned(l, wrapped) {
      ScanNames(Segment(l, wrapped), key);
    }
  }

  predicate Clean(ops: seq<Operation>) {
    forall k :: 0 <= k < |ops| ==> !NamesWithEquals(ops[k])
  }

  lemma CleanLast(ops: seq<Operation>)
    requires ops != []
    ensures Clean(ops) <==> Clean(ops[..|ops| - 1]) && !NamesWithEquals(ops[|ops| - 1])
  {
    hide NamesWithEquals;
    assert forall k :: 0 <= k < |ops| - 1 ==> ops[..|ops| - 1][k] == ops[k];
  }

  /** What holds of a line on which only clean operations, or also others, have worked. */
  ghost predicate Kept(l: Line, wrapped: nat, clean: bool) {
    Shape(l, wrapped) && (clean ==> Scanned(l, wrapped)) && (!clean ==> Tainted(l))
  }

  lemma ApplyKept(l: Line, wrapped: nat, op: Operation, clean: bool)
    requires Kept(l, wrapped, clean)
    ensures Kept(Apply(l, op), wrapped + WrapperWords(op), clean && !NamesWithEquals(op))
  {
    hide Scanned, Tainted, Shape, Apply, NamesWithEquals;
    ApplyKeeps(l, wrapped, op);
  }

  lemma RunLast(l: Line, ops: seq<Operation>)
    ensures ops == [] ==> Run(l, ops) == l && Wrapped(ops) == 0 && Clean(ops)
    ensures ops != [] ==>
      var front, last := ops[..|ops| - 1], ops[|ops| - 1];
      Run(l, ops) == Apply(Run(l, front), last) && Wrapped(ops) == Wrapped(front) + WrapperWords(last)
  {
    hide Apply, WrapperWords;
  }

  lemma ScannedIsKept(l: Line)
    requires Scanned(l, 0)
    ensures Kept(l, 0, true)
  {
  }

  lemma {:induction false} RunKeeps(l: Line, ops: seq<Operation>)
    requires Scanned(l, 0)
    ensures Kept(Run(l, ops), Wrapped(ops), Clean(ops))
  {
    hide *;
    RunLast(l, ops);
    if ops == [] {
      ScannedIsKept(l);
    } else {
      var front := ops[..|ops| - 1];
      RunKeeps(l, front);
      CleanLast(ops);
      ApplyKept(Run(l, front), Wrapped(front), ops[|ops| - 1], Clean(front));
    }
  }

  /** A command line as its constructors leave it. */
  ghost predicate Built(l: Line) {
    (exists program :: l == Fresh(program)) || (exists argv :: l == Parse(argv))
  }

  lemma BuiltIsScanned(l: Line)
    requires Built(l)
    ensures Scanned(l, 0)
  {
    hide Trim, AppendAll, IsSwitch;
    if program :| l == Fresh(program) {
    } else {
      var argv :| l == Parse(argv);
      var empty := Fresh(if argv == [] then "" else argv[0]);
      assert Scanned(empty, 0);
      AppendAllKeeps(empty, 0, if argv == [] then [] else argv[1..], true);
    }
  }

  /**
   After any sequence of operations on a newly built command line the divider is in range and the
   switch segment holds only switches; every lookup gives what the rightmost matching entry of that
   segment says if and only if no switch was appended under a name with '=' in it.
   */
  lemma SwitchesAgree(l: Line, ops: seq<Operation>)
    requires Built(l)
    ensures var after, w := Run(l, ops), Wrapped(ops);
      && 1 + w <= after.beginArgs <= |after.argv|
      && (forall i :: 1 + w <= i < after.beginArgs ==> IsSwitch(after.argv[i]))
      && (Agrees(after, w) <==> forall k :: 0 <= k < |ops| ==> !NamesWithEquals(ops[k]))
  {
    hide Run, Wrapped, NamesWithEquals, Scan;
    BuiltIsScanned(l);
    RunKeeps(l, ops);
    var after, w := Run(l, ops), Wrapped(ops);
    AgreesIsScan(after, w);
    if !Clean(ops) {
      TaintedDisagrees(after, w);
    }
  }

  // ---------------------------------------------------------------- copying switches

  /** The names among `names` that the source has. */
  predicate Copied(source: Line, names: seq<string>, name: string) {
    name in names && name in source.switches
  }

  lemma {:induction false} CopyWithoutPrefix(l: Line, source: Line, names: seq<string>)
    requires forall name :: Copied(source, names, name) ==> !IsSwitch(name)
    ensures forall key :: key in CopySwitches(l, source, names).switches <==>
                          key in l.switches || Copied(source, names, key)
    ensures forall key :: Copied(source, names, key) ==>
                          CopySwitches(l, source, names).switches[key] == source.switches[key]
    ensures forall key :: key in l.switches && !Copied(source, names, key) ==>
                          CopySwitches(l, source, names).switches[key] == l.switches[key]
  {
    if names != [] {
      var front, name := names[..|names| - 1], names[|names| - 1];
      assert names == front + [name];
      assert forall key :: Copied(source, names, key) <==>
                           Copied(source, front, key) || (key == name && name in source.switches);
      CopyWithoutPrefix(l, source, front);
      if name in source.switches {
        assert Copied(source, names, name);
        assert name[0..] == name;
      }
    }
  }

  /** A key that the target did not have comes from a copied name. */
  lemma {:induction false} CopyComesFrom(source: Line, names: seq<string>, l: Line, key: string) returns (name: string)
    requires key !in l.switches && key in CopySwitches(l, source, names).switches
    ensures Copied(source, names, name) && name[PrefixLength(name)..] == key
  {
    var front, last := names[..|names| - 1], names[|names| - 1];
    assert names == front + [last];
    if last in source.switches && last[PrefixLength(last)..] == key {
      name := last;
    } else {
      name := CopyComesFrom(source, front, l, key);
    }
  }

  /** Among the copied names that look like switches, one that no other copied name can produce. */
  lemma LongestPrefixed(source: Line, names: seq<string>) returns (name: string)
    requires exists name :: Copied(source, names, name) && IsSwitch(name)
    ensures Copied(source, names, name) && IsSwitch(name)
    ensures forall n :: Copied(source, names, n) && IsSwitch(n) ==> |n| <= |name|
  {
    name :| Copied(source, names, name) && IsSwitch(name);
    var i := 0;
    while i < |names|
      invariant 0 <= i <= |names| && Copied(source, names, name) && IsSwitch(name)
      invariant forall k :: 0 <= k < i && names[k] in source.switches && IsSwitch(names[k]) ==> |names[k]| <= |name|
    {
      if names[i] in source.switches && IsSwitch(names[i]) && |names[i]| > |name| {
        name := names[i];
      }
      i := i + 1;
    }
  }

  /** The switches of the source that are asked for. */
  function Wanted(source: Line, names: seq<string>): map<string, string> {
    map key | key in source.switches && key in names :: source.switches[key]
  }

  /**
   Copying adds exactly the asked-for switches of the source, with their values, to any line when none
   of those that exist starts with '-'; and only then, as long as the line has none of the names that
   do: such a name is filed without its prefix.
   */
  lemma CopyIsFaithful(l: Line, source: Line, names: seq<string>)
    ensures (forall name :: Copied(source, names, name) ==> !IsSwitch(name)) ==>
      CopySwitches(l, source, names).switches == l.switches + Wanted(source, names)
    ensures (forall name :: Copied(source, names, name) && IsSwitch(name) ==> name !in l.switches) ==>
      (CopySwitches(l, source, names).switches == l.switches + Wanted(source, names) <==>
       forall name :: Copied(source, names, name) ==> !IsSwitch(name))
  {
    var after := CopySwitches(l, source, names).switches;
    var wanted := Wanted(source, names);
    assert forall key :: key in wanted <==> Copied(source, names, key);
    if forall name :: Copied(source, names, name) ==> !IsSwitch(name) {
      CopyWithoutPrefix(l, source, names);
      assert after == l.switches + wanted;
    } else if forall name :: Copied(source, names, name) && IsSwitch(name) ==> name !in l.switches {
      var name := LongestPrefixed(source, names);
      assert name in l.switches + wanted;
      if name in after {
        var origin := CopyComesFrom(source, names, l, name);
      }
    }
  }

  // ---------------------------------------------------------------- two ways to go wrong

  /** A name with '=' in it is filed under that name, but read back under the part before the '='. */
  lemma EqualsInNameDisagrees()
    ensures !Agrees(Run(Fresh("p"), [AppendSwitchNative("a=b", "c")]), 0)
  {
    var op := AppendSwitchNative("a=b", "c");
    assert "a=b"[1] == '=';
    assert NamesWithEquals([op][0]);
    assert [op][..0] == [] && Wrapped([op]) == 0;
    assert Built(Fresh("p"));
    hide Run, Agrees, NamesWithEquals, Fresh;
    SwitchesAgree(Fresh("p"), [op]);
  }

  /** A switch given as "---x" is filed as "-x"; copying that name files its value as "x". */
  lemma CopyLosesPrefix()
    ensures var source := AppendSwitch(Fresh("p"), "---x", "v");
      && source.switches == map["-x" := "v"]
      && CopySwitches(Fresh("q"), source, ["-x"]).switches == map["x" := "v"]
  {
    assert "---x"[2..] == "-x" && "-x"[1..] == "x";
    var source := AppendSwitch(Fresh("p"), "---x", "v");
    assert source.switches == map["-x" := "v"];
    assert ["-x"][..0] == [] && ["-x"][0] == "-x";
  }
}
