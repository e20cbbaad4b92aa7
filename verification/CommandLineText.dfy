/**
 The command line in terms of text alone: which items are switches, under which name and with which value
 they are filed, what is left as an argument, and what a wrapper puts in front.
 */
module CommandLineText {
  import opened CommandLineModel
  import opened CommandLineProof
  import opened CommandLineParse

  // ---------------------------------------------------------------- one item

  /** "--" or "-", the longer one first, or nothing; '/' is no prefix. */
  lemma PrefixByText(s: string)
    ensures PrefixLength(s) == if "--" <= s then 2 else if "-" <= s then 1 else 0
    ensures IsSwitch(s) <==> "-" <= s
  {
  }

  /** `item` is a dash or two, the name, and nothing or '=' and the value. */
  ghost predicate SwitchText(item: string, name: string, value: string) {
    && "-" <= item && '=' !in name
    && var dashed := (if "--" <= item then "--" else "-") + name;
       item == dashed + "=" + value || (item == dashed && value == "")
  }

  lemma DashedSplits(item: string, name: string, value: string, n: nat)
    requires n <= |item| && '=' !in item[..n] && '=' !in name
    requires item == item[..n] + name + "=" + value || (item == item[..n] + name && value == "")
    ensures SwitchName(item) == item[..n] + name && SwitchValue(item) == value
  {
    var m := n + |name|;
    assert item[..m] == item[..n] + name;
    FindEqualsAt(item, m);
    assert m < |item| ==> item[m + 1..] == value;
  }

  lemma DashesOfName(item: string)
    ensures "-" <= SwitchName(item) <==> "-" <= item
    ensures "--" <= SwitchName(item) <==> "--" <= item
  {
    var m := FindEquals(item);
    FindEqualsFinds(item);
    assert m < 2 ==> m == |item| || item[m] == '=';
  }

  /** A switch is filed under its text after the dashes up to '=', with the text after that. */
  lemma SwitchByText(item: string, name: string, value: string)
    ensures SwitchText(item, name, value) <==> IsSwitch(item) && Key(item) == name && SwitchValue(item) == value
  {
    PrefixByText(item);
    PrefixByText(SwitchName(item));
    DashesOfName(item);
    hide PrefixLength, IsSwitch;
    if "-" <= item {
      var n := if "--" <= item then 2 else 1;
      assert item[..n] == if "--" <= item then "--" else "-";
      if SwitchText(item, name, value) {
        DashedSplits(item, name, value, n);
        assert SwitchName(item)[n..] == name;
      }
      KeySplits(item, n);
    }
  }

  lemma KeySplits(item: string, n: nat)
    requires n <= |item| && '=' !in item[..n] && n == PrefixLength(SwitchName(item))
    ensures item == item[..n] + Key(item) + "=" + SwitchValue(item) || (item == item[..n] + Key(item) && SwitchValue(item) == "")
    ensures '=' !in Key(item)
  {
    FindEqualsFinds(item);
    CutTwice(item, n, FindEquals(item));
  }

  lemma CutTwice(item: string, n: nat, m: nat)
    requires n <= |item| && m <= |item| && '=' !in item[..n] && '=' !in item[..m] && (m < |item| ==> item[m] == '=')
    ensures n <= m && '=' !in item[..m][n..]
    ensures m < |item| ==> item == item[..n] + item[..m][n..] + "=" + item[m + 1..]
    ensures m == |item| ==> item == item[..n] + item[..m][n..]
  {
    forall k | 0 <= k < n ensures item[k] != '=' {
      assert item[..n][k] == item[k];
    }
    assert item[..m] == item[..n] + item[..m][n..];
    assert m < |item| ==> item == item[..m] + "=" + item[m + 1..];
    assert m == |item| ==> item == item[..m];
  }

  /** What the vector holds for a switch: its dashes, its name, and its value if there is one. */
  lemma StoredByText(item: string, name: string, value: string)
    requires SwitchText(item, name, value)
    ensures Stored(item) == (if "--" <= item then "--" else "-") + name + (if value == "" then "" else "=" + value)
  {
    SwitchByText(item, name, value);
    FindEqualsFinds(item);
    var dashed := (if "--" <= item then "--" else "-") + name;
    var n := if "--" <= item then 2 else 1;
    assert item[..n] == if "--" <= item then "--" else "-";
    DashedSplits(item, name, value, n);
    assert SwitchName(item) == dashed;
    assert dashed + ("=" + value) == dashed + "=" + value;
    assert dashed + "" == dashed;
    hide Key, IsSwitch, PrefixLength, FindEquals;
    assert FindEquals(item) == |dashed|;
  }

  /** White space, character by character. */
  lemma WhiteByText(c: char)
    ensures White(c) <==> c == ' ' || c == '\t' || c == '\n' || c == 11 as char || c == 12 as char || c == '\r'
  {
  }

  // ---------------------------------------------------------------- a whole vector

  /** The items that start with '-' (or those that do not), in order. */
  function Picked(items: seq<string>, dashed: bool): seq<string> {
    if items == [] then []
    else (if ("-" <= items[0]) == dashed then [items[0]] else []) + Picked(items[1..], dashed)
  }

  lemma {:induction false} PickedIsSelected(items: seq<string>, dashed: bool)
    ensures Selected(items, dashed) == Picked(items, dashed)
  {
    if items != [] {
      PrefixByText(items[0]);
      hide IsSwitch;
      PickedIsSelected(items[1..], dashed);
    }
  }

  /** The first "--" stands at `t`, or there is none. */
  ghost predicate FirstTerminator(items: seq<string>, t: nat) {
    t <= |items| && (forall i :: 0 <= i < t ==> items[i] != "--") && (t < |items| ==> items[t] == "--")
  }

  lemma TerminatorByText(items: seq<string>, t: nat)
    requires FirstTerminator(items, t)
    ensures Terminator(items) == t
  {
    TerminatorFinds(items);
    var u := Terminator(items);
    hide Terminator;
    assert !(t < u) && !(u < t);
  }

  /** `name` is filed if and only if an item says so, and under the value of the last item that does. */
  ghost predicate Filed(items: seq<string>, name: string, switches: map<string, string>) {
    && (name in switches <==> exists i, value :: 0 <= i < |items| && SwitchText(items[i], name, value))
    && forall i, value :: 0 <= i < |items| && SwitchText(items[i], name, value) && NotAfter(items, i, name) ==>
         name in switches && switches[name] == value
  }

  ghost predicate NotAfter(items: seq<string>, i: int, name: string) {
    forall j, value :: i < j < |items| ==> 0 <= j && !SwitchText(items[j], name, value)
  }

  lemma {:induction false} SelectedLast(items: seq<string>, last: string)
    ensures Selected(items + [last], true) == Selected(items, true) + if IsSwitch(last) then [last] else []
  {
    hide IsSwitch;
    if items == [] {
      assert items + [last] == [last] && [last][1..] == [];
    } else {
      assert (items + [last])[1..] == items[1..] + [last];
      SelectedLast(items[1..], last);
    }
  }

  lemma FiledLast(items: seq<string>, last: string, name: string, before: map<string, string>, after: map<string, string>)
    requires Filed(items, name, before)
    requires after == if IsSwitch(last) then before[Key(last) := SwitchValue(last)] else before
    ensures Filed(items + [last], name, after)
  {
    var all := items + [last];
    forall value ensures SwitchText(last, name, value) <==> IsSwitch(last) && Key(last) == name && SwitchValue(last) == value {
      SwitchByText(last, name, value);
    }
    hide SwitchText, IsSwitch, Key, SwitchValue;
    assert all[|items|] == last && forall i :: 0 <= i < |items| ==> all[i] == items[i];
    if name in after {
      if name in before {
        var i, value :| 0 <= i < |items| && SwitchText(items[i], name, value);
        assert SwitchText(all[i], name, value);
      } else {
        assert SwitchText(all[|items|], name, SwitchValue(last));
      }
    }
    forall i, value | 0 <= i < |all| && SwitchText(all[i], name, value) && NotAfter(all, i, name)
      ensures name in after && after[name] == value
    {
      if i < |items| {
        assert !SwitchText(all[|items|], name, SwitchValue(last));
        assert NotAfter(items, i, name) by {
          forall j, v | i < j < |items| ensures !SwitchText(items[j], name, v) {
            assert !SwitchText(all[j], name, v);
          }
        }
      }
    }
  }

  lemma {:induction false} ScanFiles(items: seq<string>, name: string)
    ensures Filed(items, name, Scan(map[], Selected(items, true)))
  {
    hide *;
    if items == [] {
      NothingFiled(name);
    } else {
      var front, last := items[..|items| - 1], items[|items| - 1];
      assert items == front + [last];
      ScanFiles(front, name);
      SelectedLast(front, last);
      var chosen := Selected(front, true);
      ScanAppend(map[], chosen, last);
      assert chosen + [] == chosen;
      FiledLast(front, last, name, Scan(map[], chosen), Scan(map[], Selected(items, true)));
    }
  }

  lemma NothingFiled(name: string)
    ensures Filed([], name, Scan(map[], Selected([], true)))
  {
  }

  /**
   Parsing in terms of text. Of the trimmed items before the first "--" those that start with '-' are
   switches: they follow the program in order, and each is filed under its text after the dashes up to '='.
   All others are arguments, in order, and so is everything from "--" on, which itself GetArgs leaves out.
   */
  lemma ParseByText(argv: seq<string>, t: nat)
    requires FirstTerminator(ItemsOf(argv), t)
    ensures var items, l := ItemsOf(argv), Parse(argv);
      && l.argv[..l.beginArgs] == [ProgramOf(argv)] + AllStored(Picked(items[..t], true))
      && l.argv[l.beginArgs..] == Picked(items[..t], false) + items[t..]
      && ArgsOf(l) == Picked(items[..t], false) + (if t < |items| then items[t + 1..] else [])
    ensures forall name :: Filed(ItemsOf(argv)[..t], name, Parse(argv).switches)
  {
    var items := ItemsOf(argv);
    TerminatorByText(items, t);
    PickedIsSelected(items[..t], true);
    PickedIsSelected(items[..t], false);
    ParsePartitions(argv);
    ArgsOfParse(argv);
    hide Parse, Scan, Selected, Filed, ItemsOf, Terminator, AllStored, ArgsOf, ProgramOf, FirstTerminator, Picked;
    FrontAndBack([ProgramOf(argv)] + AllStored(SwitchItems(items)), PlainItems(items), items[t..]);
    assert t < |items| ==> items[t..][1..] == items[t + 1..];
    forall name ensures Filed(items[..t], name, Parse(argv).switches) {
      ScanFiles(items[..t], name);
    }
  }

  lemma FrontAndBack(front: seq<string>, plain: seq<string>, rest: seq<string>)
    ensures (front + plain + rest)[..|front|] == front && (front + plain + rest)[|front|..] == plain + rest
  {
  }

  // ---------------------------------------------------------------- appending a switch, and wrappers

  function WithoutDashes(name: string): string {
    if "--" <= name then name[2..] else if "-" <= name then name[1..] else name
  }

  /** The switch stands at the divider, and its text says what is filed: the name without dashes, and the value. */
  lemma AppendSwitchByText(l: Line, name: string, value: string)
    ensures var after := Apply(l, Operation.AppendSwitchNative(name, value));
      && after.argv[..l.beginArgs] == l.argv[..l.beginArgs] && after.argv[l.beginArgs + 1..] == l.argv[l.beginArgs..]
      && after.beginArgs == l.beginArgs + 1 && after.switches == l.switches[WithoutDashes(name) := value]
      && ('=' !in name ==> SwitchText(after.argv[l.beginArgs], WithoutDashes(name), value))
      && ("-" <= name && value == "" ==> after.argv[l.beginArgs] == name)
  {
    PrefixByText(name);
    var e := Entry(name, value);
    EntryIsSwitch(name, value);
    if '=' !in name {
      EntryReads(name, value);
      SwitchByText(e, WithoutDashes(name), value);
    }
    assert name + "" == name;
    hide PrefixLength, IsSwitch, Entry, Key, SwitchValue, SwitchText;
  }

  /** A wrapper's words, which are its text between single spaces, stand in front of the whole old vector. */
  lemma WrapperByText(l: Line, wrapper: string)
    ensures Apply(l, Operation.PrependWrapper("")) == l
    ensures wrapper != "" ==>
      exists pieces ::
        && Spaced(pieces) == wrapper && (forall i :: 0 <= i < |pieces| ==> ' ' !in pieces[i])
        && var after := Apply(l, Operation.PrependWrapper(wrapper));
           && |after.argv| == |pieces| + |l.argv|
           && (forall i :: 0 <= i < |pieces| ==> after.argv[i] == Trim(pieces[i]))
           && (forall i :: 0 <= i < |l.argv| ==> after.argv[|pieces| + i] == l.argv[i])
           && after.switches == l.switches && after.beginArgs == |pieces| + l.beginArgs
  {
    PiecesAreBetweenSpaces(wrapper);
    var pieces := Pieces(wrapper);
    hide Pieces, Spaced, Trim;
    assert wrapper != "" ==> Spaced(pieces) == wrapper;
  }

  /** The program is the trimmed text, which stands first; nothing else changes. */
  lemma ProgramByText(l: Line, program: string)
    ensures var after := Apply(l, Operation.SetProgram(program));
      && CutFrom(program, after.argv[0]) && Trimmed(after.argv[0])
      && |after.argv| == |l.argv| && (forall i :: 0 < i < |l.argv| ==> after.argv[i] == l.argv[i])
      && after.switches == l.switches && after.beginArgs == l.beginArgs
    ensures Fresh(program).argv == [Apply(l, Operation.SetProgram(program)).argv[0]]
    ensures Fresh(program).switches == map[] && Fresh(program).beginArgs == 1
  {
    TrimCuts(program);
    hide Trim;
  }

  /** Copying from the line itself leaves the map alone when no copied name starts with a dash. */
  lemma {:induction false} CopyOwnByText(l: Line, names: seq<string>)
    requires forall i :: 0 <= i < |names| && names[i] in l.switches ==> !("-" <= names[i])
    ensures Apply(l, Operation.CopyOwnSwitches(names)).switches == l.switches
    ensures l.beginArgs <= Apply(l, Operation.CopyOwnSwitches(names)).beginArgs
    ensures Apply(l, Operation.CopyOwnSwitches(names)).argv[..l.beginArgs] == l.argv[..l.beginArgs]
  {
    if names != [] {
      var front, name := names[..|names| - 1], names[|names| - 1];
      CopyOwnByText(l, front);
      var before := CopyOwn(l, front);
      if name in before.switches {
        AppendSwitchByText(before, name, before.switches[name]);
        assert before.switches[name := before.switches[name]] == before.switches;
        hide AppendSwitch, SwitchText;
        assert CopyOwn(l, names) == AppendSwitch(before, name, before.switches[name]);
      }
    }
  }
}
