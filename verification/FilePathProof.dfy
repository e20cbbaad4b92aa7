/**
 The algebra of POSIX paths: the backward walk of GetComponents against a plain split of the string,
 BaseName and DirName against Append, AppendRelativePath, and extensions.
 */
module FilePathProof {
  import opened FilePathModel

  /** A file name: something, with no separator in it. */
  ghost predicate IsName(c: string) {
    c != "" && forall i :: 0 <= i < |c| ==> !IsSeparator(c[i])
  }

  /** Nothing, or text that ends in a separator. */
  predicate EndsOpen(d: string) {
    d == "" || IsSeparator(d[|d| - 1])
  }

  /** Text that ends in something other than a separator. */
  predicate EndsClosed(x: string) {
    x != "" && !IsSeparator(x[|x| - 1])
  }

  // ---------------------------------------------------------------- taking paths apart

  lemma {:induction false} DropSeparators(x: string, seps: string)
    requires x != "" && (EndsClosed(x) || |x| == 1) && AreAllSeparators(seps)
    ensures DropTrailing(x + seps) == x
  {
    if seps == "" {
      assert x + seps == x;
    } else {
      assert (x + seps)[..|x + seps| - 1] == x + seps[..|seps| - 1];
      DropSeparators(x, seps[..|seps| - 1]);
    }
  }

  lemma StripClosed(x: string, seps: string)
    requires EndsClosed(x) && AreAllSeparators(seps)
    ensures Strip(x + seps) == x
  {
    DropSeparators(x, seps);
    assert (x + seps)[|x| - 1] == x[|x| - 1];
  }

  lemma StripRoot(p: string)
    requires p != "" && AreAllSeparators(p)
    ensures Strip(p) == if |p| == 2 then p else "/"
  {
    assert p == p[..1] + p[1..];
    DropSeparators(p[..1], p[1..]);
    assert p[..1] == "/";
    assert |p| == 2 ==> p == "//";
  }

  /** Cuts off the trailing separators of a path that has something else. */
  lemma {:induction false} CutSeparators(p: string) returns (x: string, seps: string)
    requires !AreAllSeparators(p)
    ensures p == x + seps && EndsClosed(x) && AreAllSeparators(seps)
  {
    var n := |p| - 1;
    if IsSeparator(p[n]) {
      var rest: string;
      x, rest := CutSeparators(p[..n]);
      seps := rest + [p[n]];
    } else {
      x, seps := p, "";
    }
  }

  /** Cuts a path that ends in a name into that name and what stands before it. */
  lemma CutName(x: string) returns (d: string, c: string)
    requires EndsClosed(x)
    ensures x == d + c && EndsOpen(d) && IsName(c)
  {
    hide LastIndex;
    var last := LastIndex(x, SEPARATOR);
    LastIndexFinds(x, SEPARATOR);
    assert last != |x| - 1;
    d, c := CutAt(x, last);
  }

  lemma CutAt(x: string, last: int) returns (d: string, c: string)
    requires -1 <= last < |x| - 1 && (last >= 0 ==> IsSeparator(x[last]))
    requires forall k :: last < k < |x| ==> !IsSeparator(x[k])
    ensures x == d + c && EndsOpen(d) && IsName(c)
  {
    var n := last + 1;
    assert n > 0 ==> IsSeparator(x[n - 1]);
    NameFrom(x, n);
    hide IsName;
    d, c := x[..n], x[n..];
  }

  lemma NameFrom(x: string, n: nat)
    requires n < |x| && forall k :: n <= k < |x| ==> !IsSeparator(x[k])
    ensures IsName(x[n..])
  {
    hide IsSeparator;
  }

  lemma {:induction false} LastIndexConcat(a: string, b: string, ch: char)
    ensures LastIndex(a + b, ch) == if LastIndex(b, ch) >= 0 then |a| + LastIndex(b, ch) else LastIndex(a, ch)
  {
    if b == "" {
      assert a + b == a;
    } else {
      assert (a + b)[..|a + b| - 1] == a + b[..|b| - 1];
      LastIndexConcat(a, b[..|b| - 1], ch);
    }
  }

  lemma NameHasNoSeparator(c: string)
    requires IsName(c)
    ensures LastIndex(c, SEPARATOR) == -1
  {
    LastIndexFinds(c, SEPARATOR);
  }

  /** The directory of a name that stands after `d`. */
  ghost function Above(d: string): string {
    if d == "" then CURRENT
    else if AreAllSeparators(d) then (if |d| == 2 || |d| == 3 then "//" else "/")
    else Strip(d)
  }

  lemma AboveIs(d: string, c: string)
    requires EndsOpen(d) && d != "" && IsName(c)
    ensures Strip(WithoutLast(d + c)) == Above(d)
  {
    NameHasNoSeparator(c);
    LastIndexConcat(d, c, SEPARATOR);
    LastIndexFinds(d, SEPARATOR);
    var last := |d| - 1;
    assert LastIndex(d + c, SEPARATOR) == last;
    var w := WithoutLast(d + c);
    if AreAllSeparators(d) {
      assert w == d[..if last <= 1 then last + 1 else last];
      StripRoot(w);
      assert |w| == 2 ==> w == "//";
    } else {
      assert w == d[..last];
      var x, seps := CutSeparators(d);
      StripClosed(x, seps);
      assert seps != "";
      assert w == x + seps[..|seps| - 1];
      StripClosed(x, seps[..|seps| - 1]);
    }
  }

  /** DirName and BaseName of a name after `d`, with any separators behind it. */
  lemma LastName(d: string, c: string, seps: string)
    requires EndsOpen(d) && IsName(c) && AreAllSeparators(seps)
    ensures BaseName(d + c + seps) == c
    ensures DirName(d + c + seps) == Above(d)
    ensures DirName(d + c + seps) == d + c + seps <==> d + c + seps == CURRENT
  {
    var x := d + c;
    assert x[|x| - 1] == c[|c| - 1];
    StripClosed(x, seps);
    NameHasNoSeparator(c);
    LastIndexConcat(d, c, SEPARATOR);
    LastIndexFinds(d, SEPARATOR);
    assert LastIndex(x, SEPARATOR) == |d| - 1;
    assert x[|d|..] == c;
    if d == "" {
      assert x == c && Strip("") == "";
    } else {
      AboveIs(d, c);
      assert Above(d) != "" by { AboveIsSomething(d); }
      assert |Above(d)| < |x + seps| by { AboveIsShorter(d); }
    }
  }

  lemma AboveIsSomething(d: string)
    ensures Above(d) != ""
  {
    if !AreAllSeparators(d) {
      var x, seps := CutSeparators(d);
      StripClosed(x, seps);
    }
  }

  lemma AboveIsShorter(d: string)
    requires d != "" && EndsOpen(d)
    ensures |Above(d)| <= |d|
  {
  }

  /** Every path is empty, or only separators, or ends in a name with separators behind it. */
  lemma TakeApart(p: string) returns (d: string, c: string, seps: string)
    requires !AreAllSeparators(p)
    ensures p == d + c + seps && EndsOpen(d) && IsName(c) && AreAllSeparators(seps)
  {
    var x: string;
    x, seps := CutSeparators(p);
    d, c := CutName(x);
  }

  /** The walk from a path that ends in a name. */
  lemma ComponentsOfName(d: string, c: string, seps: string)
    requires EndsOpen(d) && IsName(c) && AreAllSeparators(seps)
    ensures Components(d + c + seps) ==
      if d + c + seps == CURRENT then [] else Components(Above(d)) + [c]
  {
    LastName(d, c, seps);
    hide DirName, BaseName, Above;
    assert !IsSeparator(c[0]);
  }

  lemma ComponentsOfRoot(p: string)
    requires p != "" && AreAllSeparators(p)
    ensures Components(p) == [if |p| == 2 then "//" else "/"]
  {
    assert |p| == 1 ==> p == "/";
    assert |p| == 2 ==> p == "//";
    RootIsFixed();
    if |p| > 2 {
      StripRoot(p);
    }
  }

  lemma RootIsFixed()
    ensures DirName("/") == "/" && BaseName("/") == "/"
    ensures DirName("//") == "//" && BaseName("//") == "//"
    ensures DirName(".") == "." && BaseName(".") == "." && Components(".") == []
  {
    assert "/"[..1] == "/" && "//"[..2] == "//" && "."[..0] == "";
    assert LastIndex("/", SEPARATOR) == 0 && LastIndex("//", SEPARATOR) == 1 && LastIndex(".", SEPARATOR) == -1;
  }

  // ---------------------------------------------------------------- the plain split

  function FirstSeparator(s: string): (n: nat)
    ensures n <= |s|
    ensures forall i :: 0 <= i < n ==> !IsSeparator(s[i])
    ensures n < |s| ==> IsSeparator(s[n])
  {
    if s == "" || IsSeparator(s[0]) then 0 else 1 + FirstSeparator(s[1..])
  }

  /** What stands between the separators, the empty pieces left out. */
  function Segments(s: string): seq<string> {
    if s == "" then []
    else if IsSeparator(s[0]) then Segments(s[1..])
    else
      var n := FirstSeparator(s);
      [s[..n]] + Segments(s[n..])
  }

  /** How many separators a path starts with. */
  function Leading(p: string): (n: nat)
    ensures n <= |p| && forall i :: 0 <= i < n ==> IsSeparator(p[i])
    ensures n < |p| ==> !IsSeparator(p[n])
  {
    if p == "" || !IsSeparator(p[0]) then 0 else 1 + Leading(p[1..])
  }

  /** "//" alone is an alternate root; any other number of leading separators is "/". */
  function Root(p: string): seq<string> {
    if Leading(p) == 0 then [] else if Leading(p) == 2 then ["//"] else ["/"]
  }

  function Split(p: string): seq<string> {
    Root(p) + Segments(p)
  }

  lemma {:induction false} SegmentsConcat(a: string, b: string)
    requires EndsOpen(a) || b == "" || IsSeparator(b[0])
    ensures Segments(a + b) == Segments(a) + Segments(b)
    decreases |a|
  {
    if a == "" {
      assert a + b == b;
    } else if IsSeparator(a[0]) {
      assert (a + b)[1..] == a[1..] + b;
      SegmentsConcat(a[1..], b);
    } else {
      var n := FirstSeparator(a);
      assert FirstSeparator(a + b) == n by { FirstSeparatorIs(a + b, n); }
      assert (a + b)[..n] == a[..n] && (a + b)[n..] == a[n..] + b;
      SegmentsConcat(a[n..], b);
      assert [a[..n]] + Segments(a[n..]) + Segments(b) == [a[..n]] + (Segments(a[n..]) + Segments(b));
    }
  }

  lemma FirstSeparatorIs(s: string, n: nat)
    requires n <= |s| && (forall i :: 0 <= i < n ==> !IsSeparator(s[i])) && (n < |s| ==> IsSeparator(s[n]))
    ensures FirstSeparator(s) == n
  {
    hide FirstSeparator;
    var m := FirstSeparator(s);
    assert m < |s| ==> IsSeparator(s[m]);
  }

  lemma {:induction false} SegmentsOfSeparators(s: string)
    ensures Segments(s) == [] <==> AreAllSeparators(s)
  {
    if s != "" && IsSeparator(s[0]) {
      SegmentsOfSeparators(s[1..]);
      assert AreAllSeparators(s[1..]) <==> AreAllSeparators(s) by {
        assert forall i :: 0 < i < |s| ==> s[i] == s[1..][i - 1];
      }
    }
  }

  lemma SegmentsOfName(c: string)
    requires IsName(c)
    ensures Segments(c) == [c]
  {
    FirstSeparatorIs(c, |c|);
    assert c[..|c|] == c && c[|c|..] == "";
  }

  /** The segments of a path that ends in a name. */
  lemma SegmentsEnd(d: string, c: string, seps: string)
    requires EndsOpen(d) && IsName(c) && AreAllSeparators(seps)
    ensures Segments(d + c + seps) == Segments(d) + [c]
  {
    SegmentsConcat(d + c, seps);
    SegmentsConcat(d, c);
    SegmentsOfName(c);
    SegmentsOfSeparators(seps);
  }

  /** A path that starts and ends in a name and has one segment is that segment. */
  lemma SoleSegment(x: string)
    requires EndsClosed(x) && !IsSeparator(x[0]) && |Segments(x)| == 1
    ensures x == Segments(x)[0]
  {
    var n := FirstSeparator(x);
    assert Segments(x) == [x[..n]] + Segments(x[n..]);
    SegmentsOfSeparators(x[n..]);
    LastOfTail(x, n);
    assert n == |x| && x[..n] == x;
  }

  lemma LastOfTail(x: string, n: nat)
    requires EndsClosed(x) && n <= |x|
    ensures n == |x| || !AreAllSeparators(x[n..])
  {
    assert n < |x| ==> x[n..][|x| - 1 - n] == x[|x| - 1];
  }

  lemma LeadingIs(p: string, n: nat)
    requires n <= |p| && (forall i :: 0 <= i < n ==> IsSeparator(p[i])) && (n < |p| ==> !IsSeparator(p[n]))
    ensures Leading(p) == n
  {
    hide Leading;
    var m := Leading(p);
    assert m < |p| ==> !IsSeparator(p[m]);
  }

  // ---------------------------------------------------------------- what the walk finds

  /** Three separators and something behind them: the walk takes the root for "//". */
  predicate TripleRoot(p: string) {
    Leading(p) == 3 && |p| > 3
  }

  /** A "." at the start that the walk loses: alone, or before another segment. */
  predicate LeadingDotLost(p: string) {
    p == CURRENT || (|p| >= 2 && p[..2] == "./" && !AreAllSeparators(p[2..]))
  }

  function RootFound(p: string): seq<string> {
    if TripleRoot(p) then ["//"] else Root(p)
  }

  function SegmentsFound(p: string): seq<string> {
    var all := Segments(p);
    if Leading(p) == 0 && all != [] && all[0] == CURRENT && (|all| > 1 || p == CURRENT) then all[1..] else all
  }

  function Found(p: string): seq<string> {
    RootFound(p) + SegmentsFound(p)
  }

  lemma FoundOfCurrent(c: string, seps: string)
    requires IsName(c) && AreAllSeparators(seps)
    ensures Found("" + c + seps) == if "" + c + seps == CURRENT then [] else Found(CURRENT) + [c]
  {
    var p := "" + c + seps;
    SegmentsEnd("", c, seps);
    assert Segments("") == [];
    assert p[0] == c[0];
    LeadingIs(p, 0);
    LeadingIs(CURRENT, 0);
    SegmentsOfName(CURRENT);
    hide Segments, Leading, IsName, AreAllSeparators;
    assert Segments(p) == [c] && Found(CURRENT) == [];
  }

  lemma FoundUnderRoot(d: string, c: string, seps: string)
    requires d != "" && AreAllSeparators(d) && IsName(c) && AreAllSeparators(seps)
    ensures Found(d + c + seps) == Found(Above(d)) + [c]
  {
    var p := d + c + seps;
    SegmentsEnd(d, c, seps);
    assert p[|d|] == c[0];
    LeadingIs(p, |d|);
    SegmentsOfSeparators(d);
    FoundOfRoot("/");
    FoundOfRoot("//");
    hide Segments, Leading, IsName;
    assert Segments(p) == [c];
  }

  /** What is found of a path that ends in a name follows from what is found of its directory. */
  lemma FoundOfName(d: string, c: string, seps: string)
    requires EndsOpen(d) && IsName(c) && AreAllSeparators(seps)
    ensures Found(d + c + seps) == if d + c + seps == CURRENT then [] else Found(Above(d)) + [c]
  {
    if d == "" {
      assert Above(d) == CURRENT;
      hide *;
      FoundOfCurrent(c, seps);
    } else {
      assert d + c + seps != CURRENT;
      hide *;
      if AreAllSeparators(d) {
        FoundUnderRoot(d, c, seps);
      } else {
        FoundBelow(d, c, seps);
      }
    }
  }

  /** Two paths with the same start, the longer of which has one more segment. */
  lemma FoundGrows(x: string, p: string, c: string)
    requires Leading(x) == Leading(p) && |x| < |p| && p != CURRENT && Leading(x) < |x|
    requires Segments(p) == Segments(x) + [c] && Segments(x) != []
    requires Leading(x) == 0 && Segments(x) == [CURRENT] ==> x == CURRENT
    ensures Found(p) == Found(x) + [c]
  {
    hide Segments, Leading;
    assert RootFound(p) == RootFound(x);
    assert |Segments(x)| == 1 && Segments(x)[0] == CURRENT ==> Segments(x) == [CURRENT];
    assert SegmentsFound(p) == SegmentsFound(x) + [c];
    assert RootFound(x) + (SegmentsFound(x) + [c]) == RootFound(x) + SegmentsFound(x) + [c];
  }

  /** A path that ends in a name has a longer path's start, and some segment. */
  lemma StartsAlike(x: string, p: string)
    requires EndsClosed(x) && x <= p
    ensures Leading(x) == Leading(p) < |x| && Segments(x) != []
  {
    hide Segments;
    SegmentsOfSeparators(x);
    var n := Leading(x);
    assert n < |x|;
    LeadingIs(p, n);
  }

  lemma FoundBelow(d: string, c: string, seps: string)
    requires EndsOpen(d) && !AreAllSeparators(d) && IsName(c) && AreAllSeparators(seps)
    ensures Found(d + c + seps) == Found(Above(d)) + [c]
  {
    var x, tail := CutSeparators(d);
    FoundBelowCut(x, tail, c, seps);
  }

  lemma FoundBelowCut(x: string, tail: string, c: string, seps: string)
    requires EndsClosed(x) && AreAllSeparators(tail) && tail != "" && IsName(c) && AreAllSeparators(seps)
    ensures Found(x + tail + c + seps) == Found(Above(x + tail)) + [c]
  {
    var d := x + tail;
    var p := d + c + seps;
    StripClosed(x, tail);
    assert d[|x| - 1] == x[|x| - 1];
    assert Above(d) == x;
    assert x <= p && p != CURRENT;
    assert IsSeparator(tail[0]) && d[|d| - 1] == tail[|tail| - 1];
    StartsAlike(x, p);
    assert !IsSeparator(x[0]) || Leading(x) > 0;
    assert EndsOpen(d);
    hide *;
    SegmentsEnd(d, c, seps);
    SegmentsConcat(x, tail);
    SegmentsOfSeparators(tail);
    if Leading(x) == 0 && Segments(x) == [CURRENT] {
      SoleSegment(x);
    }
    FoundGrows(x, p, c);
  }

  lemma FoundOfRoot(p: string)
    requires p != "" && AreAllSeparators(p)
    ensures Found(p) == [if |p| == 2 then "//" else "/"]
  {
    LeadingIs(p, |p|);
    SegmentsOfSeparators(p);
  }

  lemma AboveIsLower(d: string, c: string, seps: string)
    requires EndsOpen(d) && IsName(c) && AreAllSeparators(seps) && d + c + seps != CURRENT
    ensures Rank(Above(d)) < Rank(d + c + seps)
  {
    LastName(d, c, seps);
    DirNameDescends(d + c + seps);
  }

  /** The closed form of the backward walk, for every path. */
  lemma {:induction false} ComponentsAre(p: string)
    ensures Components(p) == Found(p)
    decreases Rank(p)
  {
    if p == "" {
      assert Segments("") == [] && Leading("") == 0;
    } else if AreAllSeparators(p) {
      ComponentsOfRoot(p);
      FoundOfRoot(p);
    } else {
      var d, c, seps := TakeApart(p);
      hide *;
      ComponentsOfName(d, c, seps);
      FoundOfName(d, c, seps);
      if p != CURRENT {
        AboveIsLower(d, c, seps);
        ComponentsAre(Above(d));
      }
    }
  }

  lemma SegmentsAfterDot(rest: string)
    ensures Segments("./" + rest) == [CURRENT] + Segments(rest) && Leading("./" + rest) == 0
    ensures Segments(rest) == [] <==> AreAllSeparators(rest)
  {
    LeadingIs("./" + rest, 0);
    SegmentsConcat("./", rest);
    SegmentsEnd("", ".", "/");
    assert "" + "." + "/" == "./" && Segments("") == [];
    SegmentsOfSeparators(rest);
  }

  /** A first segment "." that is not the whole path has a separator behind it. */
  lemma FirstSegmentIsDot(p: string)
    requires p != "" && Leading(p) == 0 && Segments(p)[0] == CURRENT
    ensures p == CURRENT || (|p| >= 2 && p[..2] == "./")
  {
    var n := FirstSeparator(p);
    assert p[..n] == CURRENT;
    hide *;
    DotThenSeparator(p, n);
  }

  lemma DotThenSeparator(p: string, n: nat)
    requires n <= |p| && p[..n] == CURRENT && (n < |p| ==> IsSeparator(p[n]))
    ensures p == CURRENT || (|p| >= 2 && p[..2] == "./")
  {
    assert n == 1 && p[0] == '.';
    if |p| == 1 {
      assert p == p[..n];
    } else {
      assert p[..2] == ['.', p[1]];
    }
  }

  /** The segments that the walk drops, said of the characters of the path. */
  lemma LostDot(p: string)
    ensures SegmentsFound(p) != Segments(p) <==> LeadingDotLost(p)
  {
    if p == CURRENT {
      SegmentsOfName(CURRENT);
      LeadingIs(CURRENT, 0);
    } else if |p| >= 2 && p[..2] == "./" {
      assert p == "./" + p[2..];
      hide Segments, Leading, AreAllSeparators;
      SegmentsAfterDot(p[2..]);
    } else if Leading(p) == 0 && Segments(p) != [] && Segments(p)[0] == CURRENT {
      FirstSegmentIsDot(p);
    }
  }

  /**
   The backward walk finds the root, if any, and the non-empty segments in order, for exactly the
   paths that do not start with three separators before a name and do not lose a leading ".".
   */
  lemma ComponentsAreSplit(p: string)
    ensures Components(p) == Split(p) <==> !TripleRoot(p) && !LeadingDotLost(p)
  {
    ComponentsAre(p);
    LostDot(p);
    assert TripleRoot(p) ==> LeadingDotLost(p) == false by {
      if TripleRoot(p) { assert IsSeparator(p[0]); }
    }
    hide Segments, Leading, LeadingDotLost;
    if TripleRoot(p) {
      assert RootFound(p)[0] != Root(p)[0];
      assert Split(p)[0] == "/" && Found(p)[0] == "//";
    } else if LeadingDotLost(p) {
      assert |SegmentsFound(p)| != |Segments(p)|;
      assert |Found(p)| != |Split(p)|;
    }
  }

  /** Where the walk and the split differ: an alternate root is invented, and a "." is lost. */
  lemma WalkIsNotAlwaysSplit(c: string)
    requires IsName(c)
    ensures Components("///" + c) == ["//", c] && Split("///" + c) == ["/", c]
    ensures Components("./" + c) == [c] && Split("./" + c) == [".", c]
  {
    ExtraRoot(c);
    LostCurrent(c);
  }

  lemma ExtraRoot(c: string)
    requires IsName(c)
    ensures Components("///" + c) == ["//", c] && Split("///" + c) == ["/", c]
  {
    hide *;
    ExtraRootWalk(c);
    ExtraRootSplit(c);
  }

  lemma ExtraRootWalk(c: string)
    requires IsName(c)
    ensures Components("///" + c) == ["//", c]
  {
    assert "///" + c + "" == "///" + c;
    assert Above("///") == "//" && EndsOpen("///") && AreAllSeparators("") && AreAllSeparators("//");
    assert "///" + c != CURRENT;
    hide *;
    ComponentsOfName("///", c, "");
    ComponentsOfRoot("//");
  }

  lemma ExtraRootSplit(c: string)
    requires IsName(c)
    ensures Split("///" + c) == ["/", c]
  {
    var p := "///" + c;
    assert p[3] == c[0] && p + "" == p;
    LeadingIs(p, 3);
    assert EndsOpen("///") && AreAllSeparators("") && AreAllSeparators("///");
    assert Root(p) == ["/"];
    hide Leading, Segments, IsName, AreAllSeparators, Root, EndsOpen;
    SegmentsEnd("///", c, "");
    SegmentsOfSeparators("///");
  }

  lemma LostCurrent(c: string)
    requires IsName(c)
    ensures Components("./" + c) == [c] && Split("./" + c) == [".", c]
  {
    hide Leading, Components, Segments, Strip, DropTrailing;
    StripClosed(".", "/");
    assert "." + "/" == "./" && "./"[0] == '.';
    RootIsFixed();
    ComponentsOfName("./", c, "");
    assert "./" + c + "" == "./" + c;
    SegmentsAfterDot(c);
    SegmentsOfName(c);
  }

  // ---------------------------------------------------------------- Append

  ghost predicate Stripped(q: string) {
    Strip(q) == q
  }

  lemma {:induction false} DropLeavesClosed(p: string)
    ensures |DropTrailing(p)| <= 1 || EndsClosed(DropTrailing(p))
  {
    if |p| > 1 && IsSeparator(p[|p| - 1]) {
      DropLeavesClosed(p[..|p| - 1]);
    }
  }

  lemma StrippedCases(q: string)
    ensures Stripped(q) <==> q == "" || q == "/" || q == "//" || EndsClosed(q)
  {
    if Stripped(q) && q != "//" {
      DropLeavesClosed(q);
      assert |q| == 1 && IsSeparator(q[0]) ==> q == "/";
    }
    if EndsClosed(q) {
      StripClosed(q, "");
      assert q + "" == q;
    }
  }

  lemma StripIsStripped(q: string)
    ensures Stripped(Strip(q))
  {
    DropLeavesClosed(q);
    var s := Strip(q);
    assert |s| == 1 && IsSeparator(s[0]) ==> s == "/";
    assert |s| == 1 && !IsSeparator(s[0]) ==> EndsClosed(s);
    StrippedCases(s);
  }

  /** A path that stands for the current directory. */
  predicate IsCurrent(q: string) {
    q == "" || q == CURRENT
  }

  /** "." with separators behind it, which has the component "." that Append does not keep. */
  predicate HiddenDot(q: string) {
    Strip(q) == CURRENT && q != CURRENT
  }

  /** The directory that a component is appended in. */
  ghost function Place(q: string): string {
    if Strip(q) == "" then CURRENT else Strip(q)
  }

  /** What Append puts before the component. */
  ghost function Before(q: string): string {
    if q == CURRENT then "" else if EndsClosed(Strip(q)) then Strip(q) + "/" else Strip(q)
  }

  lemma AppendParts(q: string, c: string)
    requires IsName(c)
    ensures Append(q, c) == Before(q) + c && EndsOpen(Before(q)) && Above(Before(q)) == Place(q)
    ensures Before(q) == "" <==> IsCurrent(q)
  {
    var s := Strip(q);
    StripIsStripped(q);
    StrippedCases(s);
    if q == CURRENT {
      StrippedCases(CURRENT);
    } else if EndsClosed(s) {
      StripClosed(s, "/");
      assert !AreAllSeparators(s + "/") by { assert (s + "/")[|s| - 1] == s[|s| - 1]; }
    } else if s == "" {
      StripKeepsSomething(q);
    }
  }

  lemma StripKeepsSomething(q: string)
    ensures Strip(q) == "" <==> q == ""
  {
    if q != "" {
      DropKeepsSomething(q);
    }
  }

  lemma {:induction false} DropKeepsSomething(q: string)
    requires q != ""
    ensures DropTrailing(q) != ""
  {
    if |q| > 1 && IsSeparator(q[|q| - 1]) {
      DropKeepsSomething(q[..|q| - 1]);
    }
  }

  lemma StripOfName(d: string, c: string, seps: string)
    requires IsName(c) && AreAllSeparators(seps)
    ensures Strip(d + c + seps) == d + c && Place(d + c + seps) == d + c && EndsClosed(d + c)
    ensures HiddenDot(d + c + seps) <==> d + c == CURRENT && seps != ""
    ensures d + c + seps == CURRENT <==> d + c == CURRENT && seps == ""
    ensures d + c == CURRENT ==> d == "" && c == CURRENT
  {
    assert EndsClosed(d + c) by { assert (d + c)[|d + c| - 1] == c[|c| - 1]; }
    StripClosed(d + c, seps);
    hide Strip, IsName, AreAllSeparators;
    assert seps == "" ==> d + c + seps == d + c;
    assert |d + c + seps| == |d| + |c| + |seps|;
    assert |c| > 0 by { NameIsSomething(c); }
    assert d == "" ==> d + c == c;
  }

  lemma NameIsSomething(c: string)
    requires IsName(c)
    ensures |c| > 0
  {
  }

  lemma ComponentsStripName(d: string, c: string, seps: string)
    requires EndsOpen(d) && IsName(c) && AreAllSeparators(seps)
    ensures var q := d + c + seps;
      if HiddenDot(q) then Components(q) == [CURRENT] else Components(q) == Components(Place(q))
  {
    assert AreAllSeparators("");
    hide *;
    CurrentHasNone();
    StripOfName(d, c, seps);
    ComponentsOfName(d, c, seps);
    NothingBehind(d, c);
    ComponentsOfName(d, c, "");
    AboveNothing();
  }

  lemma NothingBehind(d: string, c: string)
    ensures d + c + "" == d + c && [] + [c] == [c]
  {
  }

  lemma CurrentHasNone()
    ensures Components(CURRENT) == [] && Components("") == []
  {
    hide Components;
    RootIsFixed();
    NothingHasNone();
  }

  lemma NothingHasNone()
    ensures Components("") == [] && !HiddenDot("") && Place("") == CURRENT
  {
  }

  lemma ComponentsStripRoot(q: string)
    requires q != "" && AreAllSeparators(q)
    ensures !HiddenDot(q) && Components(q) == Components(Place(q))
  {
    StripRoot(q);
    var s := Strip(q);
    assert s != "" && AreAllSeparators(s) && (|s| == 2 <==> |q| == 2);
    assert s[0] == '/' && s != CURRENT;
    hide Components, Strip, AreAllSeparators;
    ComponentsOfRoot(q);
    ComponentsOfRoot(s);
  }

  /** Trailing separators matter to the components only behind a lone ".". */
  lemma ComponentsStrip(q: string)
    ensures if HiddenDot(q) then Components(q) == [CURRENT] else Components(q) == Components(Place(q))
    ensures Components(CURRENT) == []
  {
    hide *;
    CurrentHasNone();
    if q == "" {
      NothingHasNone();
    } else if AreAllSeparators(q) {
      ComponentsStripRoot(q);
    } else {
      var d, c, seps := TakeApart(q);
      ComponentsStripName(d, c, seps);
    }
  }

  lemma AboveNothing()
    ensures Above("") == CURRENT
  {
  }

  /** An appended path, as a name behind what Append puts before it. */
  lemma AppendShape(q: string, c: string)
    requires IsName(c)
    ensures var d := Before(q);
      && Append(q, c) == d + c + "" && EndsOpen(d) && Above(d) == Place(q)
      && (d + c + "" == CURRENT <==> c == CURRENT && IsCurrent(q))
      && Stripped(d + c + "")
  {
    AppendParts(q, c);
    var d := Before(q);
    assert d + c + "" == d + c;
    assert AreAllSeparators("");
    hide Before, Append, Above, Place, AreAllSeparators, IsName;
    StripOfName(d, c, "");
    StrippedCases(d + c);
    assert d == "" ==> d + c == c;
  }

  /**
   BaseName and DirName undo Append on every path, and Append adds exactly one component, unless it
   adds "." to the current directory or the path is a "." with separators behind it.
   */
  lemma AppendIsUndone(q: string, c: string)
    requires IsName(c)
    ensures BaseName(Append(q, c)) == c && DirName(Append(q, c)) == Place(q)
    ensures Components(Append(q, c)) == if c == CURRENT && IsCurrent(q) then [] else Components(Place(q)) + [c]
    ensures Components(Append(q, c)) == Components(q) + [c] <==> !(c == CURRENT && IsCurrent(q)) && !HiddenDot(q)
    ensures Stripped(Append(q, c))
  {
    assert AreAllSeparators("");
    hide *;
    AppendShape(q, c);
    LastName(Before(q), c, "");
    ComponentsOfName(Before(q), c, "");
    ComponentsStrip(q);
  }

  /** Every component after the first is a name. */
  lemma {:induction false} LaterComponentsAreNames(p: string)
    ensures forall i :: 1 <= i < |Components(p)| ==> IsName(Components(p)[i])
    decreases Rank(p)
  {
    if p != "" && AreAllSeparators(p) {
      ComponentsOfRoot(p);
    } else if p != "" {
      var d, c, seps := TakeApart(p);
      hide *;
      ComponentsOfName(d, c, seps);
      if p != CURRENT {
        AboveIsLower(d, c, seps);
        LaterComponentsAreNames(Above(d));
      }
    }
  }

  /** A stripped path that does not stand for the current directory. */
  ghost predicate Elsewhere(q: string) {
    Stripped(q) && !IsCurrent(q)
  }

  lemma ElsewherePlace(q: string)
    requires Elsewhere(q)
    ensures Place(q) == q && !IsCurrent(q)
  {
  }

  /** One name, unless it is "." and goes to the current directory. */
  lemma AppendOne(q: string, c: string)
    requires IsName(c) && !(c == CURRENT && IsCurrent(q))
    ensures Elsewhere(Append(q, c)) && Components(Append(q, c)) == Components(Place(q)) + [c]
  {
    AppendParts(q, c);
    assert Append(q, c) != "" && Append(q, c) != CURRENT;
    hide Components, Append, Stripped, Place, IsName;
    AppendIsUndone(q, c);
  }

  /** Appending names in turn, the first of which is not a "." for the current directory, adds them all. */
  lemma {:induction false} AppendAllAdds(q: string, names: seq<string>)
    requires names != [] && (forall i :: 0 <= i < |names| ==> IsName(names[i]))
    requires !(names[0] == CURRENT && IsCurrent(q))
    ensures Components(AppendAll(q, names)) == Components(Place(q)) + names && Elsewhere(AppendAll(q, names))
  {
    var front, last := names[..|names| - 1], names[|names| - 1];
    assert AppendAll(q, names) == Append(AppendAll(q, front), last);
    if front == [] {
      assert AppendAll(q, front) == q && names == [last];
      hide *;
      AppendOne(q, last);
    } else {
      hide *;
      AppendAllAdds(q, front);
      ElsewherePlace(AppendAll(q, front));
      AppendOne(AppendAll(q, front), last);
      Extend(Components(Place(q)), names);
    }
  }

  lemma Extend(a: seq<string>, names: seq<string>)
    requires names != []
    ensures a + names[..|names| - 1] + [names[|names| - 1]] == a + names
  {
  }

  /** A leading "." is lost on the current directory. */
  lemma {:induction false} AppendAllLosesDot(q: string, names: seq<string>)
    requires names != [] && IsCurrent(q) && names[0] == CURRENT && forall i :: 0 <= i < |names| ==> IsName(names[i])
    ensures |Components(AppendAll(q, names))| < |names| && Stripped(AppendAll(q, names))
  {
    var front, last := names[..|names| - 1], names[|names| - 1];
    assert AppendAll(q, names) == Append(AppendAll(q, front), last);
    if front == [] {
      assert AppendAll(q, front) == q;
      hide Components, Append, Place, IsName;
      AppendIsUndone(q, last);
    } else {
      hide *;
      AppendAllLosesDot(q, front);
      AppendIsUndone(AppendAll(q, front), last);
      StrippedPlace(AppendAll(q, front));
    }
  }

  lemma StrippedPlace(q: string)
    requires Stripped(q)
    ensures Components(Place(q)) == Components(q)
  {
    hide Components;
    ComponentsStrip(q);
  }

  /** Different lists of names, appended in turn, give different paths; on the current directory for lists without ".". */
  lemma AppendAllIsUnique(q: string, a: seq<string>, b: seq<string>)
    requires AppendAll(q, a) == AppendAll(q, b)
    requires forall i :: 0 <= i < |a| ==> IsName(a[i]) && (IsCurrent(q) ==> a[i] != CURRENT)
    requires forall i :: 0 <= i < |b| ==> IsName(b[i]) && (IsCurrent(q) ==> b[i] != CURRENT)
    ensures a == b
  {
    if a == [] {
      AppendAllIsLonger(q, b);
    } else if b == [] {
      AppendAllIsLonger(q, a);
    } else {
      hide *;
      AppendAllAdds(q, a);
      AppendAllAdds(q, b);
      var base := Components(Place(q));
      assert (base + a)[|base|..] == a && (base + b)[|base|..] == b;
    }
  }

  /** Appending anything gives another path. */
  lemma AppendAllIsLonger(q: string, names: seq<string>)
    requires forall i :: 0 <= i < |names| ==> IsName(names[i]) && (IsCurrent(q) ==> names[i] != CURRENT)
    ensures AppendAll(q, names) == q <==> names == []
  {
    if names != [] {
      AppendAllAdds(q, names);
      if Elsewhere(q) {
        ElsewherePlace(q);
        hide *;
        assert |Components(AppendAll(q, names))| == |Components(q)| + |names|;
      }
    }
  }

  /**
   When `parent` is a parent of `child`, appending the rest of the child to a path adds exactly the
   child's further components, unless the rest starts with "." and the path is the current directory,
   or the path is a "." with separators behind it.
   */
  lemma RelativePathIsRest(parent: string, child: string, target: string)
    requires IsParent(parent, child)
    ensures var rest := Components(child)[|Components(parent)|..];
      && rest != []
      && (Components(AppendAll(target, rest)) == Components(target) + rest <==>
          !(rest[0] == CURRENT && IsCurrent(target)) && !HiddenDot(target))
  {
    LaterComponentsAreNames(child);
    assert Components("") == [];
    hide *;
    ParentHasComponents(parent, child);
    ComponentsStrip(target);
    var rest := Components(child)[|Components(parent)|..];
    assert forall i :: 0 <= i < |rest| ==> IsName(rest[i]);
    AddsExactly(target, rest);
  }

  lemma AddsExactly(target: string, rest: seq<string>)
    requires rest != [] && forall i :: 0 <= i < |rest| ==> IsName(rest[i])
    ensures Components(AppendAll(target, rest)) == Components(target) + rest <==>
            !(rest[0] == CURRENT && IsCurrent(target)) && !HiddenDot(target)
  {
    hide Components, AppendAll, IsName, Strip;
    ComponentsStrip(target);
    if rest[0] == CURRENT && IsCurrent(target) {
      AppendAllLosesDot(target, rest);
    } else {
      AppendAllAdds(target, rest);
    }
  }

  lemma ParentHasComponents(parent: string, child: string)
    requires IsParent(parent, child)
    ensures 0 < |Components(parent)| < |Components(child)|
    ensures !IsCurrent(parent)
    ensures Components(parent) + Components(child)[|Components(parent)|..] == Components(child)
  {
    RootIsFixed();
  }

  /** On the parent itself the result has the child's components, unless the parent is a "." with separators behind it. */
  lemma ParentRebuildsChild(parent: string, child: string)
    requires IsParent(parent, child)
    ensures Components(AppendAll(parent, Components(child)[|Components(parent)|..])) == Components(child) <==> !HiddenDot(parent)
  {
    hide *;
    ParentHasComponents(parent, child);
    RelativePathIsRest(parent, child, parent);
  }

  // ---------------------------------------------------------------- extensions

  /** The extension of a name stands at the same place in every path that ends in that name. */
  lemma ExtensionInPath(d: string, c: string)
    requires EndsOpen(d) && IsName(c) && ExtensionPosition(c) != -1
    ensures ExtensionPosition(d + c) == |d| + ExtensionPosition(c)
  {
    if d == "" {
      assert d + c == c;
    } else {
      var last := LastIndex(c, '.');
      var front, ext := c[..last], c[last + 1..];
      assert d + c != CURRENT && d + c != PARENT by { assert (d + c)[|d| - 1] == SEPARATOR; }
      assert last > 0 ==> ExtensionPosition(c) == PositionOf(front, ext);
      hide *;
      LastIndexConcat(d, c, '.');
      SamePieces(d, c, last);
      PositionIs(d + c, d + front, ext);
      NoSeparatorBefore(c, last);
      Shifted(d, front, ext);
    }
  }

  function PositionOf(front: string, ext: string): int {
    ChosenDot(|front|, LastIndex(front, '.'), LastIndex(front, SEPARATOR), CommonDoubleExtension(ext))
  }

  lemma PositionIs(s: string, front: string, ext: string)
    requires s != CURRENT && s != PARENT && front != "" && LastIndex(s, '.') == |front|
    requires s[..|front|] == front && s[|front| + 1..] == ext
    ensures ExtensionPosition(s) == PositionOf(front, ext)
  {
  }

  /** Text before a name moves the position of its extension and nothing else. */
  lemma Shifted(d: string, front: string, ext: string)
    requires d != "" && EndsOpen(d) && LastIndex(front, SEPARATOR) == -1
    ensures PositionOf(d + front, ext) == |d| + (if front == "" then 0 else PositionOf(front, ext))
  {
    LastSeparatorIsLast(d);
    hide LastIndex, CommonDoubleExtension;
    LastIndexConcat(d, front, '.');
    LastIndexConcat(d, front, SEPARATOR);
  }

  lemma SamePieces(d: string, c: string, last: nat)
    requires last < |c|
    ensures (d + c)[|d| + last + 1..] == c[last + 1..] && (d + c)[..|d| + last] == d + c[..last]
  {
  }

  lemma NoSeparatorBefore(c: string, n: nat)
    requires IsName(c) && n <= |c|
    ensures LastIndex(c[..n], SEPARATOR) == -1
  {
    hide LastIndex;
    LastIndexFinds(c[..n], SEPARATOR);
  }

  lemma LastSeparatorIsLast(d: string)
    requires d != "" && EndsOpen(d)
    ensures LastIndex(d, SEPARATOR) == |d| - 1 && LastIndex(d, '.') < |d| - 1
  {
    hide LastIndex;
    LastIndexFinds(d, SEPARATOR);
    LastIndexFinds(d, '.');
  }

  /** Without a dot in its base name a path has no extension. */
  lemma NoExtension(p: string)
    requires AreAllSeparators(p)
    ensures Extension(p) == ""
  {
    var base := BaseName(p);
    assert AreAllSeparators(base) by {
      StripIsPrefix(p);
      hide LastIndex, Strip;
    }
    hide LastIndex, BaseName;
    LastIndexFinds(base, '.');
  }

  /** The extension of a path that ends in a name. */
  lemma ExtensionOfName(d: string, c: string, seps: string)
    requires EndsOpen(d) && IsName(c) && AreAllSeparators(seps)
    ensures Extension(d + c + seps) == if ExtensionPosition(c) == -1 then "" else c[ExtensionPosition(c)..]
    ensures Strip(d + c + seps) == d + c
  {
    hide ExtensionPosition, BaseName, Strip;
    LastName(d, c, seps);
    assert EndsClosed(d + c) by { assert (d + c)[|d + c| - 1] == c[|c| - 1]; }
    StripClosed(d + c, seps);
  }

  lemma ExtensionRebuildsName(d: string, c: string)
    requires EndsOpen(d) && IsName(c)
    ensures RemoveExtension(d + c) + Extension(d + c) == d + c
  {
    hide ExtensionPosition, Extension;
    ExtensionOfName(d, c, "");
    assert d + c + "" == d + c;
    if ExtensionPosition(c) != -1 {
      var dot := ExtensionPosition(c);
      ExtensionInPath(d, c);
      assert (d + c)[..|d| + dot] + c[dot..] == d + c;
    } else {
      assert d + c + "" == d + c;
    }
  }

  lemma ExtensionMissesSeparator(d: string, c: string, seps: string)
    requires EndsOpen(d) && IsName(c) && AreAllSeparators(seps) && seps != ""
    ensures RemoveExtension(d + c + seps) + Extension(d + c + seps) == d + c + seps <==> Extension(d + c + seps) == ""
  {
    var p := d + c + seps;
    hide ExtensionPosition, Extension;
    ExtensionOfName(d, c, seps);
    var whole := RemoveExtension(p) + Extension(p);
    if Extension(p) == "" {
      assert whole == p;
    } else {
      var e := Extension(p);
      assert e[|e| - 1] == c[|c| - 1];
      assert whole[|whole| - 1] == e[|e| - 1];
      assert p[|p| - 1] == seps[|seps| - 1];
    }
  }

  /** RemoveExtension followed by Extension rebuilds the path if and only if there is no extension or nothing to strip. */
  lemma ExtensionRebuilds(p: string)
    ensures RemoveExtension(p) + Extension(p) == p <==> Stripped(p) || Extension(p) == ""
  {
    if AreAllSeparators(p) {
      NoExtension(p);
      assert RemoveExtension(p) == p && p + "" == p;
    } else {
      hide ExtensionPosition, Extension, RemoveExtension, Strip;
      var d, c, seps := TakeApart(p);
      ExtensionOfName(d, c, seps);
      if seps == "" {
        assert p == d + c;
        ExtensionRebuildsName(d, c);
      } else {
        ExtensionMissesSeparator(d, c, seps);
      }
    }
  }

  /** A directory with an extension and a separator behind it, against the claim in base/file_path.h. */
  lemma ExtensionDoesNotAlwaysRebuild()
    ensures Extension("a.b/") == ".b" && RemoveExtension("a.b/") == "a"
  {
    assert "a.b"[1..] == ".b" && "a.b/"[..1] == "a" && "" + "a.b" + "/" == "a.b/";
    hide LastIndex, ExtensionPosition, BaseName, Strip, Extension, CommonDoubleExtension;
    DotAtOne("a.b");
    DotAtOne("a.b/");
    ExtensionOfName("", "a.b", "/");
  }

  lemma DotAtOne(s: string)
    requires |s| > 2 && s[1] == '.' && s[2] == 'b' && forall k :: 1 < k < |s| ==> s[k] != '.'
    requires |s| < 5
    ensures ExtensionPosition(s) == 1
  {
    LastIndexFinds(s, '.');
    hide LastIndex;
    assert LastIndex(s, '.') == 1;
    assert s[2..][0] == 'b';
  }

  ghost predicate DotFree(s: string) {
    forall i :: 0 <= i < |s| ==> s[i] != '.'
  }

  /** `e` is a dot, one to four dot-free characters, and a dot with a common double extension. */
  ghost predicate DoubleExtension(e: string, n: nat) {
    1 <= n <= 4 && n + 1 < |e| && DotFree(e[1..n + 1]) && e[n + 1] == '.' &&
    DotFree(e[n + 2..]) && CommonDoubleExtension(e[n + 2..])
  }

  /** Precisely one dot in front, then dot-free text or a double extension. */
  ghost predicate WellShaped(e: string) {
    e != "" && e[0] == '.' && (DotFree(e[1..]) || exists n: nat :: DoubleExtension(e, n))
  }

  lemma ExtensionShape(p: string)
    ensures Extension(p) == "" || WellShaped(Extension(p))
  {
    hide BaseName, LastIndex, CommonDoubleExtension;
    var c := BaseName(p);
    var dot := ExtensionPosition(c);
    if dot != -1 {
      var last := LastIndex(c, '.');
      LastIndexFinds(c, '.');
      if dot == last {
        assert DotFree(c[dot..][1..]);
      } else {
        LastIndexFinds(c[..last], '.');
        DoubleShape(c, dot, last);
      }
    }
  }

  lemma DoubleShape(c: string, dot: nat, last: nat)
    requires dot + 1 < last <= dot + 5 && last < |c| && c[dot] == '.' && c[last] == '.'
    requires forall i :: dot < i < last ==> c[..last][i] != '.'
    requires forall i :: last < i < |c| ==> c[i] != '.'
    requires CommonDoubleExtension(c[last + 1..])
    ensures WellShaped(c[dot..])
  {
    hide CommonDoubleExtension;
    var e, n := c[dot..], last - dot - 1;
    var inner := e[1..n + 1];
    forall i | 0 <= i < n ensures inner[i] != '.' {
      assert inner[i] == c[..last][dot + 1 + i];
    }
    assert e[n + 2..] == c[last + 1..];
    assert DoubleExtension(e, n);
  }

  // ---------------------------------------------------------------- what counts as a parent

  /** Appending names to a path makes it a parent of the result, and only that makes it one. */
  lemma AppendedIsChild(q: string, names: seq<string>)
    requires Components(q) != [] && !HiddenDot(q) && forall i :: 0 <= i < |names| ==> IsName(names[i])
    ensures IsParent(q, AppendAll(q, names)) <==> names != []
  {
    assert IsCurrent(q) ==> Components(q) == [] by { CurrentHasNone(); }
    hide Components, IsName, HiddenDot;
    if names == [] {
      assert AppendAll(q, names) == q;
    } else {
      AddsExactly(q, names);
    }
  }

  /** A parent is a path that has a component, and of which the other has all components and more. */
  lemma ParentExactly(parent: string, child: string)
    ensures IsParent(parent, child) <==>
      Components(parent) != [] && exists more :: more != [] && Components(child) == Components(parent) + more
  {
    hide Components;
    var p, c := Components(parent), Components(child);
    if IsParent(parent, child) {
      assert c == p + c[|p|..];
    }
  }

  // ---------------------------------------------------------------- appending more than a name

  /** Nothing appended is the stripped path; on the current directory anything stands alone. */
  lemma AppendNothing(q: string, c: string)
    ensures q != CURRENT ==> Append(q, "") == Strip(q)
    ensures Append(CURRENT, c) == c
  {
    assert Strip(q) + "" == Strip(q);
  }

  lemma StripSegments(q: string)
    ensures Segments(Strip(q)) == Segments(q) && (Strip(q) != "" <==> q != "")
    ensures q != "" ==> (IsSeparator(Strip(q)[0]) <==> IsSeparator(q[0]))
  {
    if AreAllSeparators(q) {
      if q != "" {
        StripRoot(q);
        SegmentsOfSeparators(q);
        SegmentsOfSeparators(Strip(q));
      }
    } else {
      var x, seps := CutSeparators(q);
      StripClosed(x, seps);
      SegmentsConcat(x, seps);
      SegmentsOfSeparators(seps);
      hide Segments, Strip;
      assert Segments(x) + [] == Segments(x);
      assert q[0] == x[0];
    }
  }

  /** A relative path of any number of names behind another: the segments of both, and the start of the first. */
  lemma AppendJoins(q: string, c: string)
    requires q != CURRENT && (c == "" || !IsSeparator(c[0]))
    ensures Segments(Append(q, c)) == Segments(q) + Segments(c)
    ensures q != "" ==> Append(q, c) != "" && (IsSeparator(Append(q, c)[0]) <==> IsSeparator(q[0]))
  {
    StripSegments(q);
    var s := Strip(q);
    assert Append(q, c) == (if c != "" && EndsClosed(s) then s + [SEPARATOR] else s) + c;
    hide Segments, Strip, Append;
    if c == "" {
      assert s + c == s;
      SegmentsOfSeparators("");
      assert Segments(s) + [] == Segments(s);
    } else if EndsClosed(s) {
      SegmentsConcat(s, [SEPARATOR]);
      SegmentsOfSeparators([SEPARATOR]);
      SegmentsConcat(s + [SEPARATOR], c);
      assert Segments(s) + [] == Segments(s);
    } else {
      SegmentsConcat(s, c);
    }
  }
}
