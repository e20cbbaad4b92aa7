/**
 QuoteForCommandLineToArgvW (base/command_line.cc) and the published rules by which
 CommandLineToArgvW splits a command line into arguments: exactly which argument lists
 survive being quoted, joined with spaces and split again.
 */
module CommandLineQuoting {

  /** The characters that make the source quote an argument. */
  predicate Special(c: char) {
    c == ' ' || c == '\\' || c == '"'
  }

  predicate NeedsQuotes(arg: string) {
    exists i :: 0 <= i < |arg| && Special(arg[i])
  }

  function Backslashes(n: nat): (s: string)
    ensures |s| == n && forall i :: 0 <= i < n ==> s[i] == '\\'
  {
    if n == 0 then [] else ['\\'] + Backslashes(n - 1)
  }

  /** Only backslashes stand between here and a double quote or the end. */
  predicate BeforeQuote(s: string) {
    s == [] || s[0] == '"' || (s[0] == '\\' && BeforeQuote(s[1..]))
  }

  /** A run of backslashes before a double quote or the end is doubled, a double quote is escaped. */
  function Escape(s: string): string {
    if s == [] then []
    else if s[0] == '\\' then (if BeforeQuote(s[1..]) then ['\\', '\\'] else ['\\']) + Escape(s[1..])
    else if s[0] == '"' then ['\\', '"'] + Escape(s[1..])
    else [s[0]] + Escape(s[1..])
  }

  function Quote(arg: string): string {
    if NeedsQuotes(arg) then ['"'] + Escape(arg) + ['"'] else arg
  }

  /** Pushes `n` backslashes. */
  method PushBackslashes(out: string, n: nat) returns (r: string)
    ensures r == out + Backslashes(n)
  {
    r := out;
    var j := 0;
    while j < n
      invariant 0 <= j <= n && r == out + Backslashes(j)
    {
      r := r + ['\\'];
      BackslashesEnd(j);
      j := j + 1;
    }
  }

  lemma {:induction false} BackslashesEnd(n: nat)
    ensures Backslashes(n) + ['\\'] == Backslashes(n + 1)
  {
    if n > 0 {
      BackslashesEnd(n - 1);
      assert Backslashes(n) + ['\\'] == ['\\'] + (Backslashes(n - 1) + ['\\']);
    }
  }

  /** A run of `n` backslashes before text that does not start with one. */
  lemma {:induction false} EscapeRun(n: nat, tail: string)
    requires tail == [] || tail[0] != '\\'
    ensures BeforeQuote(Backslashes(n) + tail) == BeforeQuote(tail)
    ensures Escape(Backslashes(n) + tail) == Backslashes(if BeforeQuote(tail) then 2 * n else n) + Escape(tail)
  {
    if n == 0 {
      assert Backslashes(0) + tail == tail;
    } else {
      hide *;
      EscapeRun(n - 1, tail);
      OneMore(n, tail);
      EscapeBackslash(Backslashes(n - 1) + tail);
      if BeforeQuote(tail) {
        TwoMore(n, Escape(tail));
      } else {
        OneMore(n, Escape(tail));
      }
    }
  }

  lemma OneMore(n: nat, e: string)
    requires n > 0
    ensures Backslashes(n) + e == ['\\'] + (Backslashes(n - 1) + e)
  {
    Regroup(Backslashes(n - 1), e);
  }

  lemma TwoMore(n: nat, e: string)
    requires n > 0
    ensures Backslashes(2 * n) + e == ['\\', '\\'] + (Backslashes(2 * (n - 1)) + e)
  {
    hide Backslashes;
    OneMore(2 * n, e);
    OneMore(2 * n - 1, e);
  }

  lemma Regroup(b: string, e: string)
    ensures ['\\'] + (b + e) == (['\\'] + b) + e
  {
  }

  lemma EscapeBackslash(rest: string)
    ensures BeforeQuote(['\\'] + rest) == BeforeQuote(rest)
    ensures Escape(['\\'] + rest) == (if BeforeQuote(rest) then ['\\', '\\'] else ['\\']) + Escape(rest)
  {
    assert (['\\'] + rest)[1..] == rest;
  }

  /** What the loop writes for the run of backslashes from `i` to `end`. */
  lemma EscapeRunAt(arg: string, i: nat, end: nat, out: string)
    requires i < end <= |arg| && (forall k :: i <= k < end ==> arg[k] == '\\') && (end < |arg| ==> arg[end] != '\\')
    ensures var count := if end == |arg| || arg[end] == '"' then 2 * (end - i) else end - i;
      out + Backslashes(count) + Escape(arg[end..]) == out + Escape(arg[i..])
  {
    EscapeRun(end - i, arg[end..]);
    hide Escape;
    assert arg[i..] == Backslashes(end - i) + arg[end..];
    assert BeforeQuote(arg[end..]) == (end == |arg| || arg[end] == '"');
  }

  lemma EscapeOther(arg: string, i: nat, out: string)
    requires i < |arg| && arg[i] != '\\'
    ensures var text := if arg[i] == '"' then ['\\', '"'] else [arg[i]];
      out + text + Escape(arg[i + 1..]) == out + Escape(arg[i..])
  {
    assert arg[i..][1..] == arg[i + 1..];
  }

  lemma EscapeNothing()
    ensures Escape([]) == []
  {
  }

  /** Finds the extent of a run of backslashes. */
  method RunEnd(arg: string, start: nat) returns (end: nat)
    requires start < |arg| && arg[start] == '\\'
    ensures start < end <= |arg| && (forall k :: start <= k < end ==> arg[k] == '\\')
    ensures end < |arg| ==> arg[end] != '\\'
  {
    end := start + 1;
    while end < |arg| && arg[end] == '\\'
      invariant start < end <= |arg| && forall k :: start <= k < end ==> arg[k] == '\\'
    {
      end := end + 1;
    }
  }

  /** The source's loops, building the result in a buffer. */
  method QuoteForCommandLineToArgvW(arg: string) returns (out: string)
    ensures out == Quote(arg)
  {
    if forall i :: 0 <= i < |arg| ==> !Special(arg[i]) {
      return arg;
    }
    out := ['"'];
    hide Escape;
    var i := 0;
    assert arg[i..] == arg;
    while i < |arg|
      invariant 0 <= i <= |arg|
      invariant out + Escape(arg[i..]) == ['"'] + Escape(arg)
    {
      if arg[i] == '\\' {
        var end := RunEnd(arg, i);
        var backslashCount := end - i;
        EscapeRunAt(arg, i, end, out);
        if end == |arg| || arg[end] == '"' {
          backslashCount := backslashCount * 2;
        }
        out := PushBackslashes(out, backslashCount);
        i := end;
      } else {
        EscapeOther(arg, i, out);
        if arg[i] == '"' {
          out := out + ['\\', '"'];
        } else {
          out := out + [arg[i]];
        }
        i := i + 1;
      }
    }
    assert arg[i..] == [];
    EscapeNothing();
    out := out + ['"'];
  }

  // ---------------------------------------------------------------- the published splitting rules

  predicate Blank(c: char) {
    c == ' ' || c == '\t'
  }

  /** One argument: what was read so far, and the text after it. */
  datatype Split = Split(arg: string, rest: string)

  /**
   Reads on inside an argument, after `pending` backslashes. Backslashes are literal unless
   they precede a double quote; then each pair stands for one, and an odd one escapes the
   double quote.
   */
  function ReadArgument(s: string, quoted: bool, pending: nat, read: string): (r: Split)
    ensures |r.rest| <= |s|
    ensures s != [] && (quoted || !Blank(s[0])) ==> |r.rest| < |s|
  {
    if s == [] || (!quoted && Blank(s[0])) then Split(read + Backslashes(pending), s)
    else if s[0] == '\\' then ReadArgument(s[1..], quoted, pending + 1, read)
    else if s[0] == '"' then
      if pending % 2 == 0
      then ReadArgument(s[1..], !quoted, 0, read + Backslashes(pending / 2))
      else ReadArgument(s[1..], quoted, 0, read + Backslashes(pending / 2) + ['"'])
    else ReadArgument(s[1..], quoted, 0, read + Backslashes(pending) + [s[0]])
  }

  function Arguments(s: string): seq<string>
    decreases |s|
  {
    if s == [] then []
    else if Blank(s[0]) then Arguments(s[1..])
    else
      var r := ReadArgument(s, false, 0, []);
      [r.arg] + Arguments(r.rest)
  }

  /** A command line ends at its first NUL. */
  function Truncated(s: string): (t: string)
    ensures t <= s && '\0' !in t && ('\0' !in s ==> t == s)
  {
    if s == [] || s[0] == '\0' then [] else [s[0]] + Truncated(s[1..])
  }

  /** A space and the quoted argument, for each argument. */
  function Joined(args: seq<string>): string {
    if args == [] then [] else [' '] + Quote(args[0]) + Joined(args[1..])
  }

  // ---------------------------------------------------------------- reading back one argument

  /** The end of an argument: the end of the line or a space. */
  predicate Ends(rest: string) {
    rest == [] || rest[0] == ' '
  }

  /** One character of an argument. */
  lemma ReadOne(c: char, tail: string, quoted: bool, pending: nat, read: string)
    requires quoted || !Blank(c)
    ensures ReadArgument([c] + tail, quoted, pending, read) ==
      if c == '\\' then ReadArgument(tail, quoted, pending + 1, read)
      else if c != '"' then ReadArgument(tail, quoted, 0, read + Backslashes(pending) + [c])
      else if pending % 2 == 0 then ReadArgument(tail, !quoted, 0, read + Backslashes(pending / 2))
      else ReadArgument(tail, quoted, 0, read + Backslashes(pending / 2) + ['"'])
  {
    assert ([c] + tail)[1..] == tail;
  }

  lemma ReadEnd(rest: string, read: string)
    requires Ends(rest)
    ensures ReadArgument(rest, false, 0, read) == Split(read, rest)
  {
    assert read + Backslashes(0) == read;
  }

  lemma AfterRun(read: string, r: nat, c: char, tail: string)
    ensures read + Backslashes(r) + [c] + Backslashes(0) + tail == read + Backslashes(r) + ([c] + tail)
    ensures c == '\\' ==> read + Backslashes(r + 1) + tail == read + Backslashes(r) + ([c] + tail)
  {
    BackslashesEnd(r);
  }

  /** Escape puts at most one backslash in front of a character. */
  lemma EscapeOne(s: string, rest: string)
    requires s != []
    ensures var tail := Escape(s[1..]) + rest;
      Escape(s) + rest == if s[0] == '"' || (s[0] == '\\' && BeforeQuote(s)) then ['\\'] + ([s[0]] + tail) else [s[0]] + tail
  {
    OneInFront(s[0], Escape(s[1..]), rest);
  }

  lemma OneInFront(c: char, escaped: string, rest: string)
    ensures (['\\', c] + escaped) + rest == ['\\'] + ([c] + (escaped + rest))
    ensures ([c] + escaped) + rest == [c] + (escaped + rest)
  {
  }

  /** Reading what Escape wrote, after the `r` backslashes that precede `s` in the argument. */
  lemma {:induction false} ReadEscaped(s: string, r: nat, rest: string, read: string)
    requires Ends(rest)
    ensures ReadArgument(Escape(s) + (['"'] + rest), true, if BeforeQuote(s) then 2 * r else r, read)
         == Split(read + Backslashes(r) + s, rest)
  {
    hide ReadArgument, Backslashes;
    var pending := if BeforeQuote(s) then 2 * r else r;
    if s == [] {
      assert Escape(s) + (['"'] + rest) == ['"'] + rest;
      ReadOne('"', rest, true, pending, read);
      ReadEnd(rest, read + Backslashes(r));
      assert read + Backslashes(r) + s == read + Backslashes(r);
    } else {
      var c, tail := s[0], Escape(s[1..]) + (['"'] + rest);
      assert s == [c] + s[1..];
      EscapeOne(s, ['"'] + rest);
      hide Escape;
      AfterRun(read, r, c, s[1..]);
      ReadOne(c, tail, true, pending, read);
      ReadOne('\\', [c] + tail, true, pending, read);
      ReadOne(c, tail, true, pending + 1, read);
      if c == '\\' {
        ReadEscaped(s[1..], r + 1, rest, read);
      } else {
        ReadEscaped(s[1..], 0, rest, read + Backslashes(r) + [c]);
      }
    }
  }

  lemma {:induction false} ReadPlain(u: string, rest: string, read: string)
    requires Ends(rest) && forall i :: 0 <= i < |u| ==> !Special(u[i]) && !Blank(u[i])
    ensures ReadArgument(u + rest, false, 0, read) == Split(read + u, rest)
  {
    if u == [] {
      assert u + rest == rest && read + Backslashes(0) == read + u;
    } else {
      assert (u + rest)[1..] == u[1..] + rest;
      assert read + Backslashes(0) + [u[0]] == read + [u[0]];
      ReadPlain(u[1..], rest, read + [u[0]]);
      assert read + [u[0]] + u[1..] == read + u;
    }
  }

  /** The arguments that survive. */
  predicate Good(arg: string) {
    arg != [] && '\0' !in arg && ('\t' !in arg || NeedsQuotes(arg))
  }

  /** A quoted argument is read back whole. */
  lemma ReadQuoted(arg: string, rest: string)
    requires Ends(rest) && arg != [] && ('\t' !in arg || NeedsQuotes(arg))
    ensures ReadArgument(Quote(arg) + rest, false, 0, []) == Split(arg, rest)
    ensures Quote(arg) != [] && !Blank(Quote(arg)[0])
  {
    hide Escape, ReadArgument;
    if NeedsQuotes(arg) {
      var tail := Escape(arg) + (['"'] + rest);
      assert Quote(arg) + rest == ['"'] + tail;
      ReadOne('"', tail, false, 0, []);
      ReadEscaped(arg, 0, rest, []);
      assert [] + Backslashes(0) == [] && [] + Backslashes(0) + arg == arg;
    } else {
      ReadPlain(arg, rest, []);
      assert [] + arg == arg;
    }
  }

  lemma JoinedFirst(args: seq<string>)
    requires args != []
    ensures Joined(args) == [' '] + (Quote(args[0]) + Joined(args[1..])) && Ends(Joined(args[1..]))
  {
    hide Quote;
  }

  lemma ArgumentsFirst(text: string, arg: string, rest: string)
    requires text != [] && !Blank(text[0]) && ReadArgument(text, false, 0, []) == Split(arg, rest)
    ensures Arguments([' '] + text) == [arg] + Arguments(rest)
  {
    hide ReadArgument;
    assert ([' '] + text)[1..] == text;
  }

  lemma {:induction false} GoodListSurvives(args: seq<string>)
    requires forall i :: 0 <= i < |args| ==> Good(args[i])
    ensures Arguments(Joined(args)) == args
  {
    hide ReadArgument, Quote;
    if args != [] {
      var rest := Joined(args[1..]);
      GoodListSurvives(args[1..]);
      JoinedFirst(args);
      hide Joined, Arguments;
      ReadQuoted(args[0], rest);
      ArgumentsFirst(Quote(args[0]) + rest, args[0], rest);
    }
  }

  // ---------------------------------------------------------------- nothing else survives

  /** What splitting can return for text without NUL that was quoted by the source. */
  ghost predicate Fine(list: seq<string>) {
    forall i :: 0 <= i < |list| ==> list[i] != [] && ('\t' !in list[i] || NeedsQuotes(list[i]))
  }

  /** Unquoted text falls apart into pieces without blanks. */
  lemma {:induction false} PlainPieces(u: string, rest: string)
    requires Ends(rest) && !NeedsQuotes(u) && Fine(Arguments(rest))
    ensures Fine(Arguments(u + rest))
    decreases |u|
  {
    var text := u + rest;
    if u == [] {
      assert text == rest;
    } else if Blank(u[0]) {
      assert text[1..] == u[1..] + rest;
      PlainPieces(u[1..], rest);
    } else {
      var k := PlainEnd(u, rest, []);
      assert [] + u[..k] == u[..k];
      PlainPieces(u[k..], rest);
    }
  }

  /** Reading unquoted text stops at the first blank. */
  lemma {:induction false} PlainEnd(u: string, rest: string, read: string) returns (k: nat)
    requires Ends(rest) && !NeedsQuotes(u)
    ensures k <= |u| && '\t' !in u[..k] && (u != [] && !Blank(u[0]) ==> k > 0)
    ensures ReadArgument(u + rest, false, 0, read) == Split(read + u[..k], u[k..] + rest)
  {
    if u == [] || Blank(u[0]) {
      k := 0;
      assert read + u[..0] == read + Backslashes(0) && u[0..] + rest == u + rest;
      assert u == [] ==> u + rest == rest;
    } else {
      assert (u + rest)[1..] == u[1..] + rest;
      assert read + Backslashes(0) + [u[0]] == read + [u[0]];
      var j := PlainEnd(u[1..], rest, read + [u[0]]);
      k := j + 1;
      assert u[..k] == [u[0]] + u[1..][..j];
      assert u[1..][j..] == u[k..];
      assert read + [u[0]] + u[1..][..j] == read + u[..k];
    }
  }

  lemma {:induction false} PiecesAreFine(args: seq<string>)
    ensures Fine(Arguments(Joined(args)))
  {
    if args != [] {
      var rest := Joined(args[1..]);
      PiecesAreFine(args[1..]);
      assert Joined(args)[1..] == Quote(args[0]) + rest;
      if NeedsQuotes(args[0]) {
        ReadQuoted(args[0], rest);
      } else {
        PlainPieces(args[0], rest);
      }
    }
  }

  // ---------------------------------------------------------------- NUL

  ghost predicate NoNul(list: seq<string>) {
    forall i :: 0 <= i < |list| ==> '\0' !in list[i]
  }

  lemma {:induction false} ReadKeepsNulOut(s: string, quoted: bool, pending: nat, read: string)
    requires '\0' !in s && '\0' !in read
    ensures var r := ReadArgument(s, quoted, pending, read); '\0' !in r.arg && '\0' !in r.rest
  {
    if s != [] && (quoted || !Blank(s[0])) {
      if s[0] == '\\' {
        ReadKeepsNulOut(s[1..], quoted, pending + 1, read);
      } else if s[0] == '"' {
        ReadKeepsNulOut(s[1..], !quoted, 0, read + Backslashes(pending / 2));
        ReadKeepsNulOut(s[1..], quoted, 0, read + Backslashes(pending / 2) + ['"']);
      } else {
        ReadKeepsNulOut(s[1..], quoted, 0, read + Backslashes(pending) + [s[0]]);
      }
    }
  }

  lemma {:induction false} ArgumentsHaveNoNul(s: string)
    requires '\0' !in s
    ensures NoNul(Arguments(s))
    decreases |s|
  {
    if s != [] {
      if Blank(s[0]) {
        ArgumentsHaveNoNul(s[1..]);
      } else {
        ReadKeepsNulOut(s, false, 0, []);
        ArgumentsHaveNoNul(ReadArgument(s, false, 0, []).rest);
      }
    }
  }

  lemma {:induction false} EscapeAddsNoNul(s: string)
    requires '\0' !in s
    ensures '\0' !in Escape(s)
  {
    if s != [] {
      EscapeAddsNoNul(s[1..]);
    }
  }

  lemma {:induction false} JoinedHasNoNul(args: seq<string>)
    requires NoNul(args)
    ensures '\0' !in Joined(args)
  {
    if args != [] {
      EscapeAddsNoNul(args[0]);
      JoinedHasNoNul(args[1..]);
    }
  }

  // ---------------------------------------------------------------- main result

  /** The round trip returns the list exactly when every argument is good. */
  lemma RoundTrip(args: seq<string>)
    ensures Arguments(Truncated(Joined(args))) == args <==> forall i :: 0 <= i < |args| ==> Good(args[i])
  {
    if forall i :: 0 <= i < |args| ==> Good(args[i]) {
      JoinedHasNoNul(args);
      GoodListSurvives(args);
    }
    if Arguments(Truncated(Joined(args))) == args {
      ArgumentsHaveNoNul(Truncated(Joined(args)));
      JoinedHasNoNul(args);
      PiecesAreFine(args);
    }
  }

  /** An argument is left alone exactly when it has no space, backslash or double quote in it. */
  lemma QuotesByText(arg: string)
    ensures Quote(arg) == arg <==> ' ' !in arg && '\\' !in arg && '"' !in arg
    ensures Quote(arg) != arg ==> |Quote(arg)| >= |arg| + 2 && Quote(arg)[0] == '"' && Quote(arg)[|Quote(arg)| - 1] == '"'
  {
    EscapeIsLonger(arg);
    hide Escape;
    assert NeedsQuotes(arg) <==> ' ' in arg || '\\' in arg || '"' in arg;
    if NeedsQuotes(arg) {
      assert |Quote(arg)| >= |arg| + 2;
    }
  }

  lemma {:induction false} EscapeIsLonger(s: string)
    ensures |Escape(s)| >= |s|
  {
    if s != [] {
      EscapeIsLonger(s[1..]);
      hide BeforeQuote;
    }
  }
}
