/**
 CommandLine (base/command_line.cc, POSIX configuration): the argument vector `argv`, the divider
 `beginArgs` between switches and arguments, and the map `switches`, which must all agree.
 A `Line` is the value of the three fields; the class updates them in place.
 */
module CommandLineModel {

  datatype Fields = Fields(argv: seq<string>, switches: map<string, string>, beginArgs: nat)

  /** The divider stays inside the vector, which always has room for the program. */
  type Line = l: Fields | 1 <= l.beginArgs <= |l.argv| witness Fields([""], map[], 1)

  const TERMINATOR := "--"

  // ---------------------------------------------------------------- text

  predicate White(c: char) {
    c == ' ' || '\t' <= c <= '\r'
  }

  predicate Trimmed(s: string) {
    s == "" || (!White(s[0]) && !White(s[|s| - 1]))
  }

  predicate Outside(s: string, i: nat, j: nat)
    requires i <= j <= |s|
  {
    forall k :: 0 <= k < |s| && !(i <= k < j) ==> White(s[k])
  }

  /** Nothing but white space has been cut from the ends of `s` to get `r`. */
  ghost predicate CutFrom(s: string, r: string) {
    exists i: nat, j: nat :: i <= j <= |s| && Outside(s, i, j) && r == s[i..j]
  }

  /** What TrimWhitespace keeps. */
  function Trim(s: string): (r: string)
    ensures Trimmed(r) && (Trimmed(s) <==> r == s)
    decreases |s|
  {
    if s == "" then ""
    else if White(s[0]) then Trim(s[1..])
    else if White(s[|s| - 1]) then Trim(s[..|s| - 1])
    else s
  }

  lemma {:induction false} TrimCuts(s: string)
    ensures CutFrom(s, Trim(s))
    decreases |s|
  {
    if s == "" {
      assert Outside(s, 0, 0);
    } else if White(s[0]) {
      TrimCuts(s[1..]);
      CutFront(s, Trim(s));
    } else if White(s[|s| - 1]) {
      TrimCuts(s[..|s| - 1]);
      CutBack(s, Trim(s));
    } else {
      assert Outside(s, 0, |s|);
    }
  }

  lemma CutFront(s: string, r: string)
    requires s != "" && White(s[0]) && CutFrom(s[1..], r)
    ensures CutFrom(s, r)
  {
    var i: nat, j: nat :| i <= j <= |s[1..]| && Outside(s[1..], i, j) && r == s[1..][i..j];
    forall k | 0 <= k < |s| && !(i + 1 <= k < j + 1) ensures White(s[k]) {
      assert k > 0 ==> s[k] == s[1..][k - 1];
    }
    assert r == s[i + 1..j + 1] && Outside(s, i + 1, j + 1);
  }

  lemma CutBack(s: string, r: string)
    requires s != "" && White(s[|s| - 1]) && CutFrom(s[..|s| - 1], r)
    ensures CutFrom(s, r)
  {
    var front := s[..|s| - 1];
    var i: nat, j: nat :| i <= j <= |front| && Outside(front, i, j) && r == front[i..j];
    forall k | 0 <= k < |s| && !(i <= k < j) ensures White(s[k]) {
      assert k < |s| - 1 ==> s[k] == front[k];
    }
    assert r == s[i..j] && Outside(s, i, j);
  }

  function TrimAll(items: seq<string>): (r: seq<string>)
    ensures |r| == |items| && forall i :: 0 <= i < |items| ==> r[i] == Trim(items[i])
  {
    if items == [] then [] else [Trim(items[0])] + TrimAll(items[1..])
  }

  /** The pieces between the spaces of `s`, empty ones included. */
  function Pieces(s: string): (r: seq<string>)
    ensures |r| >= 1
  {
    if s == "" then [""]
    else
      var rest := Pieces(s[1..]);
      if s[0] == ' ' then [""] + rest else [[s[0]] + rest[0]] + rest[1..]
  }

  /** The pieces with a space between each two. */
  function Spaced(pieces: seq<string>): string {
    if pieces == [] then "" else if |pieces| == 1 then pieces[0] else pieces[0] + " " + Spaced(pieces[1..])
  }

  /** Putting the spaces back gives the text, and no piece has a space in it. */
  lemma {:induction false} PiecesAreBetweenSpaces(s: string)
    ensures Spaced(Pieces(s)) == s && forall i :: 0 <= i < |Pieces(s)| ==> ' ' !in Pieces(s)[i]
  {
    if s != "" {
      PiecesAreBetweenSpaces(s[1..]);
      var rest := Pieces(s[1..]);
      hide Pieces;
      if s[0] == ' ' {
        assert ([""] + rest)[1..] == rest;
        assert "" + " " + s[1..] == s;
      } else {
        var first := [s[0]] + rest[0];
        assert ([first] + rest[1..])[1..] == rest[1..];
        assert s == [s[0]] + s[1..];
        if |rest| > 1 {
          assert first + " " + Spaced(rest[1..]) == [s[0]] + (rest[0] + " " + Spaced(rest[1..]));
        }
      }
    }
  }

  // ---------------------------------------------------------------- switches

  /** Length of the switch prefix "--" or "-", the longer one tried first. */
  function PrefixLength(s: string): (n: nat)
    ensures n <= |s| && n <= 2
  {
    if |s| >= 2 && s[0] == '-' && s[1] == '-' then 2
    else if |s| >= 1 && s[0] == '-' then 1
    else 0
  }

  predicate IsSwitch(s: string) {
    PrefixLength(s) > 0
  }

  /** Position of the first '=', or the length. */
  function FindEquals(s: string): (n: nat)
    ensures n <= |s|
  {
    if s == "" || s[0] == '=' then 0 else 1 + FindEquals(s[1..])
  }

  lemma {:induction false} FindEqualsFinds(s: string)
    ensures '=' !in s[..FindEquals(s)]
    ensures FindEquals(s) < |s| ==> s[FindEquals(s)] == '='
    ensures '=' in s <==> FindEquals(s) < |s|
  {
    if s != "" && s[0] != '=' {
      FindEqualsFinds(s[1..]);
      assert s[..FindEquals(s)] == [s[0]] + s[1..][..FindEquals(s) - 1];
      assert s == [s[0]] + s[1..];
    }
  }

  function SwitchName(s: string): string {
    s[..FindEquals(s)]
  }

  function SwitchValue(s: string): string {
    if FindEquals(s) < |s| then s[FindEquals(s) + 1..] else ""
  }

  /** The name under which a scan of the vector files the entry `s`. */
  function Key(s: string): string {
    SwitchName(s)[PrefixLength(SwitchName(s))..]
  }

  /** The text that stands in the vector for a switch. */
  function Entry(name: string, value: string): string {
    (if PrefixLength(name) == 0 then "--" + name else name) + (if value == "" then "" else "=" + value)
  }

  // ---------------------------------------------------------------- operations on values

  function AppendSwitch(l: Line, name: string, value: string): Line {
    var b := l.beginArgs;
    Fields(l.argv[..b] + [Entry(name, value)] + l.argv[b..],
           l.switches[name[PrefixLength(name)..] := value], b + 1)
  }

  function AppendArg(l: Line, arg: string): Line {
    l.(argv := l.argv + [arg])
  }

  function SetProgramOf(l: Line, program: string): Line {
    l.(argv := l.argv[0 := Trim(program)])
  }

  /** Appends the items in order, as switches until "--" is seen. */
  function AppendAll(l: Line, items: seq<string>, parsing: bool): Line
    decreases |items|
  {
    if items == [] then l
    else
      var arg := Trim(items[0]);
      var p := parsing && arg != TERMINATOR;
      AppendAll(if p && IsSwitch(arg) then AppendSwitch(l, SwitchName(arg), SwitchValue(arg)) else AppendArg(l, arg),
                items[1..], p)
  }

  function CopySwitches(l: Line, source: Line, names: seq<string>): Line {
    if names == [] then l
    else
      var before := CopySwitches(l, source, names[..|names| - 1]);
      var name := names[|names| - 1];
      if name in source.switches then AppendSwitch(before, name, source.switches[name]) else before
  }

  /** Copying from the line itself: each value is looked up as it is by then. */
  function CopyOwn(l: Line, names: seq<string>): Line {
    if names == [] then l
    else
      var before := CopyOwn(l, names[..|names| - 1]);
      var name := names[|names| - 1];
      if name in before.switches then AppendSwitch(before, name, before.switches[name]) else before
  }

  function Wrap(l: Line, wrapper: string): Line {
    if wrapper == "" then l
    else
      var pieces := TrimAll(Pieces(wrapper));
      Fields(pieces + l.argv, l.switches, |pieces| + l.beginArgs)
  }

  function Fresh(program: string): Line {
    Fields([Trim(program)], map[], 1)
  }

  function Parse(argv: seq<string>): Line {
    AppendAll(Fresh(if argv == [] then "" else argv[0]), if argv == [] then [] else argv[1..], true)
  }

  datatype Operation =
    | AppendSwitchNative(name: string, value: string)
    | AppendArgNative(arg: string)
    | CopySwitchesFrom(source: Line, names: seq<string>)
    | CopyOwnSwitches(names: seq<string>)
    | AppendArguments(other: Line, includeProgram: bool)
    | PrependWrapper(wrapper: string)
    | SetProgram(program: string)

  function Apply(l: Line, op: Operation): Line {
    match op
    case AppendSwitchNative(name, value) => AppendSwitch(l, name, value)
    case AppendArgNative(arg) => AppendArg(l, arg)
    case CopySwitchesFrom(source, names) => CopySwitches(l, source, names)
    case CopyOwnSwitches(names) => CopyOwn(l, names)
    case AppendArguments(other, includeProgram) =>
      AppendAll(if includeProgram then SetProgramOf(l, other.argv[0]) else l, other.argv[1..], true)
    case PrependWrapper(wrapper) => Wrap(l, wrapper)
    case SetProgram(program) => SetProgramOf(l, program)
  }

  function Run(l: Line, ops: seq<Operation>): Line {
    if ops == [] then l else Apply(Run(l, ops[..|ops| - 1]), ops[|ops| - 1])
  }

  /** The arguments, without the first "--" among them. */
  function ArgsOf(l: Line): seq<string> {
    var args := l.argv[l.beginArgs..];
    var t := Terminator(args);
    if t < |args| then args[..t] + args[t + 1..] else args
  }

  /** Position of the first "--", or the length. */
  function Terminator(items: seq<string>): (t: nat)
    ensures t <= |items|
  {
    if items == [] || items[0] == TERMINATOR then 0 else 1 + Terminator(items[1..])
  }

  lemma {:induction false} TerminatorFinds(items: seq<string>)
    ensures var t := Terminator(items);
      (t < |items| ==> items[t] == TERMINATOR) && forall i :: 0 <= i < t ==> items[i] != TERMINATOR
  {
    if items != [] && items[0] != TERMINATOR {
      TerminatorFinds(items[1..]);
      forall i | 0 <= i < Terminator(items) ensures items[i] != TERMINATOR {
        assert i > 0 ==> items[i] == items[1..][i - 1];
      }
    }
  }

  // ---------------------------------------------------------------- the class

  class CommandLine {
    var argv: seq<string>
    var switches: map<string, string>
    var beginArgs: nat

    ghost predicate Valid() reads this {
      1 <= beginArgs <= |argv|
    }

    ghost function State(): (l: Line)
      requires Valid()
      reads this
    {
      Fields(argv, switches, beginArgs)
    }

    constructor (program: string)
      ensures Valid() && State() == Fresh(program)
    {
      argv := [Trim(program)];
      switches := map[];
      beginArgs := 1;
    }

    constructor FromArgv(items: seq<string>)
      ensures Valid() && State() == Parse(items)
    {
      argv := [""];
      switches := map[];
      beginArgs := 1;
      new;
      InitFromArgv(items);
    }

    /** Leaves the map as it is, so that only a map without entries gives the parse of `items`. */
    method InitFromArgv(items: seq<string>)
      modifies this
      ensures Valid()
      ensures State() == AppendAll(Fresh(if items == [] then "" else items[0]).(switches := old(switches)),
                                   if items == [] then [] else items[1..], true)
      ensures old(switches) == map[] ==> State() == Parse(items)
    {
      argv := [""];
      beginArgs := 1;
      SetProgram(if items == [] then "" else items[0]);
      assert State() == Fresh(if items == [] then "" else items[0]).(switches := old(switches));
      AppendSwitchesAndArguments(items);
    }

    method SetProgram(program: string)
      requires Valid()
      modifies this
      ensures Valid() && State() == Apply(old(State()), Operation.SetProgram(program))
    {
      argv := argv[0 := Trim(program)];
    }

    method AppendSwitchNative(name: string, value: string)
      requires Valid()
      modifies this
      ensures Valid() && State() == Apply(old(State()), Operation.AppendSwitchNative(name, value))
    {
      var combined := name;
      var prefixLength := PrefixLength(combined);
      switches := switches[name[prefixLength..] := value];
      if prefixLength == 0 {
        combined := "--" + combined;
      }
      if value != "" {
        combined := combined + ("=" + value);
      } else {
        assert combined == combined + "";
      }
      argv := argv[..beginArgs] + [combined] + argv[beginArgs..];
      beginArgs := beginArgs + 1;
    }

    method AppendArgNative(arg: string)
      requires Valid()
      modifies this
      ensures Valid() && State() == Apply(old(State()), Operation.AppendArgNative(arg))
    {
      argv := argv + [arg];
    }

    method AppendSwitchesAndArguments(items: seq<string>)
      requires Valid()
      modifies this
      ensures Valid()
      ensures State() == AppendAll(old(State()), if items == [] then [] else items[1..], true)
    {
      hide AppendAll, AppendSwitch, AppendArg, Trim, SwitchName, SwitchValue, PrefixLength;
      var parsing := true;
      var i := 1;
      while i < |items|
        invariant 1 <= i && Valid() && (|items| > 0 ==> i <= |items|)
        invariant items != [] ==>
          AppendAll(State(), items[i..], parsing) == AppendAll(old(State()), items[1..], true)
        invariant items == [] ==> State() == old(State())
      {
        ghost var before := State();
        ghost var was := parsing;
        var arg := Trim(items[i]);
        parsing := parsing && arg != TERMINATOR;
        if parsing && IsSwitch(arg) {
          AppendSwitchNative(SwitchName(arg), SwitchValue(arg));
        } else {
          AppendArgNative(arg);
        }
        AppendNext(before, items, i, was);
        i := i + 1;
      }
      assert items != [] ==> items[i..] == [];
      AppendNone(State(), parsing);
      AppendNone(State(), true);
    }

    method CopySwitchesFrom(source: CommandLine, names: seq<string>)
      requires Valid() && source.Valid()
      modifies this
      ensures Valid()
      ensures State() == Apply(old(State()), if source == this then Operation.CopyOwnSwitches(names)
                                             else Operation.CopySwitchesFrom(old(source.State()), names))
    {
      var i := 0;
      while i < |names|
        invariant 0 <= i <= |names| && Valid() && source.Valid()
        invariant source != this ==> source.State() == old(source.State())
        invariant State() == (if source == this then CopyOwn(old(State()), names[..i])
                              else CopySwitches(old(State()), old(source.State()), names[..i]))
      {
        assert names[..i + 1][..i] == names[..i];
        if names[i] in source.switches {
          AppendSwitchNative(names[i], source.switches[names[i]]);
        }
        i := i + 1;
      }
      assert names[..i] == names;
    }

    /**
     Appends the other line's items. A line with anything behind its program cannot be appended to
     itself: the source's loop follows the vector that it makes longer, see SelfAppendNeverEnds.
     */
    method AppendArguments(other: CommandLine, includeProgram: bool)
      requires Valid() && other.Valid() && (other == this ==> |argv| == 1)
      modifies this
      ensures Valid() && State() == Apply(old(State()), Operation.AppendArguments(old(other.State()), includeProgram))
    {
      if includeProgram {
        SetProgram(other.argv[0]);
      }
      AppendSwitchesAndArguments(other.argv);
    }

    method PrependWrapper(wrapper: string)
      requires Valid()
      modifies this
      ensures Valid() && State() == Apply(old(State()), Operation.PrependWrapper(wrapper))
    {
      if wrapper == "" {
        return;
      }
      var pieces := SplitString(wrapper);
      argv := pieces + argv;
      beginArgs := beginArgs + |pieces|;
    }

    method GetArgs() returns (args: seq<string>)
      requires Valid()
      ensures args == ArgsOf(State())
    {
      args := argv[beginArgs..];
      var t := 0;
      while t < |args| && args[t] != TERMINATOR
        invariant 0 <= t <= |args| && forall i :: 0 <= i < t ==> args[i] != TERMINATOR
      {
        t := t + 1;
      }
      TerminatorFinds(args);
      assert t == Terminator(args);
      if t < |args| {
        args := args[..t] + args[t + 1..];
      }
    }
  }

  /** One turn of the parsing loop when the vector it reads is the one it appends to. */
  function SelfTurn(l: Line, i: nat, parsing: bool): (r: (Line, bool))
    requires i < |l.argv|
    ensures |r.0.argv| == |l.argv| + 1
  {
    var arg := Trim(l.argv[i]);
    var p := parsing && arg != TERMINATOR;
    (if p && IsSwitch(arg) then AppendSwitch(l, SwitchName(arg), SwitchValue(arg)) else AppendArg(l, arg), p)
  }

  /** The line and the flag after `n` turns, if the loop gets that far. */
  function SelfTurns(l: Line, n: nat): (r: (Line, bool))
    requires |l.argv| >= 2
    ensures |r.0.argv| == |l.argv| + n
  {
    if n == 0 then (l, true) else var (before, parsing) := SelfTurns(l, n - 1); SelfTurn(before, n, parsing)
  }

  /** Appending a line with two or more items to itself: the loop test holds after every number of turns. */
  lemma SelfAppendNeverEnds(l: Line, n: nat)
    requires |l.argv| >= 2
    ensures 1 + n < |SelfTurns(l, n).0.argv|
  {
  }

  lemma AppendNone(l: Line, parsing: bool)
    ensures AppendAll(l, [], parsing) == l
  {
  }

  /** One turn of the parsing loop. */
  lemma AppendNext(l: Line, items: seq<string>, i: nat, parsing: bool)
    requires i < |items|
    ensures var arg := Trim(items[i]);
      var p := parsing && arg != TERMINATOR;
      AppendAll(l, items[i..], parsing) ==
      AppendAll(if p && IsSwitch(arg) then AppendSwitch(l, SwitchName(arg), SwitchValue(arg)) else AppendArg(l, arg),
                items[i + 1..], p)
  {
    assert items[i..][1..] == items[i + 1..];
  }

  /** SplitString with a space: the trimmed pieces between the spaces. */
  method SplitString(s: string) returns (r: seq<string>)
    ensures r == TrimAll(Pieces(s))
  {
    hide *;
    r := [];
    var last, i := 0, 0;
    ResumedFromStart(s);
    while i <= |s|
      invariant 0 <= last <= i <= |s| + 1
      invariant i <= |s| ==> r + TrimAll(Resumed(s[last..i], s[i..])) == TrimAll(Pieces(s))
      invariant i == |s| + 1 ==> r == TrimAll(Pieces(s))
    {
      if i == |s| || s[i] == ' ' {
        SplitHere(r, s, last, i);
        r := r + [Trim(s[last..i])];
        last := i + 1;
      } else {
        SplitLater(s, last, i);
      }
      i := i + 1;
    }
  }

  /** The pieces of `rest` when `open` has already been read of the first one. */
  function Resumed(open: string, rest: string): seq<string> {
    [open + Pieces(rest)[0]] + Pieces(rest)[1..]
  }

  lemma ResumedFromStart(s: string)
    ensures [] + TrimAll(Resumed(s[0..0], s[0..])) == TrimAll(Pieces(s))
  {
    assert s[0..] == s && s[0..0] + Pieces(s)[0] == Pieces(s)[0];
    assert Resumed(s[0..0], s[0..]) == Pieces(s);
  }

  lemma SplitHere(r: seq<string>, s: string, last: nat, i: nat)
    requires last <= i <= |s| && (i < |s| ==> s[i] == ' ')
    ensures i == |s| ==> r + TrimAll(Resumed(s[last..i], s[i..])) == r + [Trim(s[last..i])]
    ensures i < |s| ==>
      r + TrimAll(Resumed(s[last..i], s[i..])) ==
      r + [Trim(s[last..i])] + TrimAll(Resumed(s[i + 1..i + 1], s[i + 1..]))
  {
    hide Trim;
    assert s[last..i] + "" == s[last..i];
    if i < |s| {
      assert s[i..][1..] == s[i + 1..];
      assert s[i + 1..i + 1] + Pieces(s[i + 1..])[0] == Pieces(s[i + 1..])[0];
      assert Resumed(s[i + 1..i + 1], s[i + 1..]) == Pieces(s[i + 1..]);
      assert Resumed(s[last..i], s[i..]) == [s[last..i]] + Pieces(s[i + 1..]);
    } else {
      assert Resumed(s[last..i], s[i..]) == [s[last..i]];
    }
  }

  lemma SplitLater(s: string, last: nat, i: nat)
    requires last <= i < |s| && s[i] != ' '
    ensures Resumed(s[last..i], s[i..]) == Resumed(s[last..i + 1], s[i + 1..])
  {
    assert s[i..][1..] == s[i + 1..];
    assert s[last..i] + ([s[i]] + Pieces(s[i + 1..])[0]) == s[last..i + 1] + Pieces(s[i + 1..])[0];
  }
}
