/**
 FilePath (base/file_path.cc, POSIX configuration: the separator is '/', there are no drive letters).
 Each operation is a function on path strings; the class runs the source's loops and local edits and
 is proved to compute those functions.
 */
module FilePathModel {

  const SEPARATOR := '/'
  const CURRENT := "."
  const PARENT := ".."

  predicate IsSeparator(c: char) {
    c == SEPARATOR
  }

  predicate AreAllSeparators(s: string) {
    forall i :: 0 <= i < |s| ==> IsSeparator(s[i])
  }

  /** Position of the last `c` in `s`, or -1. */
  function LastIndex(s: string, c: char): (i: int)
    ensures -1 <= i < |s|
  {
    if s == "" then -1 else if s[|s| - 1] == c then |s| - 1 else LastIndex(s[..|s| - 1], c)
  }

  lemma {:induction false} LastIndexFinds(s: string, c: char)
    ensures LastIndex(s, c) >= 0 ==> s[LastIndex(s, c)] == c
    ensures forall k :: LastIndex(s, c) < k < |s| ==> s[k] != c
  {
    if s != "" && s[|s| - 1] != c {
      LastIndexFinds(s[..|s| - 1], c);
    }
  }

  // ---------------------------------------------------------------- stripping

  function DropTrailing(p: string): (r: string)
    ensures |r| <= |p|
  {
    if |p| > 1 && IsSeparator(p[|p| - 1]) then DropTrailing(p[..|p| - 1]) else p
  }

  /** Trailing separators go, but a single one stays, and so does exactly "//", the alternate root. */
  function Strip(p: string): (r: string)
    ensures |r| <= |p|
  {
    if p == "//" then p else DropTrailing(p)
  }

  // ---------------------------------------------------------------- directory and base name

  /** What is left of a stripped path after its last component goes, before stripping again. */
  function WithoutLast(s: string): (r: string)
    ensures |r| <= |s|
  {
    var last := LastIndex(s, SEPARATOR);
    if last == -1 then ""
    else if last == 0 then s[..1]
    else if last == 1 && IsSeparator(s[0]) then s[..2]
    else s[..last]
  }

  function DirName(p: string): string {
    var d := Strip(WithoutLast(Strip(p)));
    if d == "" then CURRENT else d
  }

  function BaseName(p: string): string {
    var s := Strip(p);
    var last := LastIndex(s, SEPARATOR);
    if last != -1 && last < |s| - 1 then s[last + 1..] else s
  }

  /** Ends the walk up a path: "." is the bottom, otherwise shorter is lower. */
  function Rank(p: string): nat {
    if p == CURRENT then 0 else 1 + |p|
  }

  /** One step up is lower, unless the step changes nothing. */
  lemma DirNameDescends(p: string)
    ensures DirName(p) != p ==> Rank(DirName(p)) < Rank(p)
  {
    var s := Strip(p);
    var w := WithoutLast(s);
    var d := Strip(w);
    LastIndexFinds(s, SEPARATOR);
    if d != "" && |d| == |p| {
      StripIsPrefix(p);
      StripIsPrefix(w);
      assert w == s[..|w|];
      assert d == p;
    }
  }

  lemma {:induction false} DropIsPrefix(p: string)
    ensures DropTrailing(p) == p[..|DropTrailing(p)|]
  {
    if |p| > 1 && IsSeparator(p[|p| - 1]) {
      DropIsPrefix(p[..|p| - 1]);
    }
  }

  lemma StripIsPrefix(p: string)
    ensures Strip(p) == p[..|Strip(p)|]
  {
    DropIsPrefix(p);
  }

  // ---------------------------------------------------------------- components

  /** The components found by walking up: the base names of all steps, the root last of all. */
  function Components(p: string): seq<string>
    decreases Rank(p)
  {
    if p == "" then []
    else if DirName(p) == p then
      var base := BaseName(p);
      if base == "" || base == CURRENT then [] else [base]
    else
      DirNameDescends(p);
      Components(DirName(p)) + (if AreAllSeparators(BaseName(p)) then [] else [BaseName(p)])
  }

  function Append(p: string, component: string): string {
    if p == CURRENT then component
    else
      var s := Strip(p);
      (if component != "" && s != "" && !IsSeparator(s[|s| - 1]) then s + [SEPARATOR] else s) + component
  }

  function AppendAll(p: string, components: seq<string>): string {
    if components == [] then p
    else Append(AppendAll(p, components[..|components| - 1]), components[|components| - 1])
  }

  predicate IsParent(parent: string, child: string) {
    var p, c := Components(parent), Components(child);
    p != [] && |p| < |c| && p == c[..|p|]
  }

  // ---------------------------------------------------------------- extensions

  function ToLower(c: char): char {
    if 'A' <= c <= 'Z' then c - 'A' + 'a' else c
  }

  predicate LowerCaseEquals(s: string, lower: string) {
    |s| == |lower| && forall i :: 0 <= i < |s| ==> ToLower(s[i]) == lower[i]
  }

  predicate CommonDoubleExtension(s: string) {
    LowerCaseEquals(s, "gz") || LowerCaseEquals(s, "z") || LowerCaseEquals(s, "bz2")
  }

  /** Of the last two dots, the one that starts the extension: the earlier one only before a common double extension. */
  function ChosenDot(last: int, penultimate: int, separator: int, common: bool): int {
    if common && penultimate != -1 && (separator == -1 || penultimate > separator) && 1 < last - penultimate <= 5
    then penultimate
    else last
  }

  /** Position of the '.' that starts the extension, or -1. */
  function ExtensionPosition(s: string): (i: int)
    ensures -1 <= i < |s|
  {
    if s == CURRENT || s == PARENT then -1
    else
      var last := LastIndex(s, '.');
      if last <= 0 then last
      else ChosenDot(last, LastIndex(s[..last], '.'), LastIndex(s[..last], SEPARATOR), CommonDoubleExtension(s[last + 1..]))
  }

  function Extension(p: string): string {
    var base := BaseName(p);
    var dot := ExtensionPosition(base);
    if dot == -1 then "" else base[dot..]
  }

  function RemoveExtension(p: string): string {
    var dot := ExtensionPosition(p);
    if Extension(p) == "" || dot == -1 then p else p[..dot]
  }

  // ---------------------------------------------------------------- the class

  function Reversed(s: seq<string>): seq<string> {
    if s == [] then [] else [s[|s| - 1]] + Reversed(s[..|s| - 1])
  }

  class FilePath {
    var path: string

    constructor (p: string)
      ensures path == p
    {
      path := p;
    }

    method StripTrailingSeparatorsInternal()
      modifies this
      ensures path == Strip(old(path))
    {
      ghost var whole := path;
      var lastStripped := -1;
      var pos := |path|;
      assert whole[..|whole|] == whole;
      while pos > 1 && IsSeparator(path[pos - 1])
        invariant 0 <= pos <= |path| <= |whole| && (whole != "" ==> pos >= 1)
        invariant path == whole[..|path|] && DropTrailing(whole[..pos]) == DropTrailing(whole)
        invariant lastStripped == (if |path| == |whole| then -1 else pos + 1)
        invariant pos < |path| ==> whole == "//" && path == whole
        invariant whole == "//" ==> path == whole
        decreases pos
      {
        if pos != 2 || lastStripped == 3 || !IsSeparator(path[0]) {
          assert whole[..pos][..pos - 1] == whole[..pos - 1];
          path := path[..pos - 1];
          lastStripped := pos;
        }
        pos := pos - 1;
      }
      assert whole != "//" ==> path == whole[..pos];
    }

    method GetDirName() returns (dir: FilePath)
      ensures fresh(dir) && dir.path == DirName(path)
    {
      dir := new FilePath(path);
      dir.StripTrailingSeparatorsInternal();
      var last := LastIndex(dir.path, SEPARATOR);
      if last == -1 {
        dir.path := "";
      } else if last == 0 {
        dir.path := dir.path[..1];
      } else if last == 1 && IsSeparator(dir.path[0]) {
        dir.path := dir.path[..2];
      } else if last != 0 {
        dir.path := dir.path[..last];
      }
      dir.StripTrailingSeparatorsInternal();
      if dir.path == "" {
        dir.path := CURRENT;
      }
    }

    method GetBaseName() returns (base: FilePath)
      ensures fresh(base) && base.path == BaseName(path)
    {
      base := new FilePath(path);
      base.StripTrailingSeparatorsInternal();
      var last := LastIndex(base.path, SEPARATOR);
      if last != -1 && last < |base.path| - 1 {
        base.path := base.path[last + 1..];
      }
    }

    /** Walks up the path, collecting base names, then puts them in order. */
    method GetComponents() returns (components: seq<string>)
      ensures components == Components(path)
    {
      if path == "" {
        return [];
      }
      var collected: seq<string> := [];
      var current: FilePath := this;
      var dir := current.GetDirName();
      assert Components(path) == Components(current.path) + Reversed(collected);
      while current.path != dir.path
        invariant dir.path == DirName(current.path) && current.path != ""
        invariant Components(path) == Components(current.path) + Reversed(collected)
        decreases Rank(current.path)
      {
        hide DirName, BaseName, Rank;
        var base := current.GetBaseName();
        WalkUp(current.path, collected);
        if !AreAllSeparators(base.path) {
          collected := collected + [base.path];
        }
        DirNameDescends(current.path);
        DirNameIsSomething(current.path);
        current := dir;
        dir := current.GetDirName();
      }
      var base := current.GetBaseName();
      WalkEnds(current.path, collected);
      if base.path != "" && base.path != CURRENT {
        collected := collected + [base.path];
      }
      components := Reversed(collected);
    }

    method AppendComponent(component: string) returns (r: FilePath)
      ensures fresh(r) && r.path == Append(path, component)
    {
      if path == CURRENT {
        r := new FilePath(component);
        return;
      }
      r := new FilePath(path);
      r.StripTrailingSeparatorsInternal();
      if |component| > 0 && |r.path| > 0 {
        if !IsSeparator(r.path[|r.path| - 1]) {
          r.path := r.path + [SEPARATOR];
        }
      }
      r.path := r.path + component;
    }

    /** Extends this path by the components in turn. */
    method AppendEach(components: seq<string>) returns (r: FilePath)
      ensures r.path == AppendAll(path, components)
    {
      hide Append;
      r := this;
      var i := 0;
      while i < |components|
        invariant 0 <= i <= |components| && r.path == AppendAll(path, components[..i])
      {
        assert components[..i + 1][..i] == components[..i];
        r := r.AppendComponent(components[i]);
        i := i + 1;
      }
      assert components[..i] == components;
    }

    /** Extends `target` by what `child` has after this path, when this path is a parent of it. */
    method AppendRelativePath(child: FilePath, target: FilePath?) returns (isParent: bool, r: FilePath?)
      ensures isParent == IsParent(path, child.path)
      ensures target == null <==> r == null
      ensures target != null && !isParent ==> r == target
      ensures target != null && isParent ==>
        r.path == AppendAll(target.path, Components(child.path)[|Components(path)|..])
    {
      hide Components, AppendAll;
      r := target;
      var parents := GetComponents();
      var children := child.GetComponents();
      isParent := parents != [] && |parents| < |children|;
      var i := 0;
      while isParent && i < |parents|
        invariant isParent ==> 0 < |parents| < |children| && 0 <= i <= |parents| && parents[..i] == children[..i]
        invariant parents != [] && |parents| < |children| && !isParent ==> parents != children[..|parents|]
        decreases |parents| - i
      {
        if parents[i] != children[i] {
          assert children[..|parents|][i] != parents[i];
          isParent := false;
        }
        i := i + 1;
      }
      assert isParent ==> parents[..i] == parents;
      if isParent && target != null {
        r := target.AppendEach(children[|parents|..]);
      }
    }
  }

  lemma DirNameIsSomething(p: string)
    ensures DirName(p) != ""
  {
  }

  /** One turn of the walk. */
  lemma WalkUp(p: string, collected: seq<string>)
    requires p != "" && DirName(p) != p
    ensures Components(p) + Reversed(collected) ==
      Components(DirName(p)) +
      Reversed(if AreAllSeparators(BaseName(p)) then collected else collected + [BaseName(p)])
  {
    hide DirName, BaseName, AreAllSeparators;
    assert (collected + [BaseName(p)])[..|collected|] == collected;
    Rejoin(Components(DirName(p)), BaseName(p), Reversed(collected));
  }

  lemma Rejoin(a: seq<string>, s: string, b: seq<string>)
    ensures (a + [s]) + b == a + ([s] + b) && (a + []) + b == a + b
  {
  }

  /** The last turn adds the root, if there is one. */
  lemma WalkEnds(p: string, collected: seq<string>)
    requires p != "" && DirName(p) == p
    ensures Components(p) + Reversed(collected) ==
      Reversed(if BaseName(p) == "" || BaseName(p) == CURRENT then collected else collected + [BaseName(p)])
  {
    hide DirName, BaseName;
    assert (collected + [BaseName(p)])[..|collected|] == collected;
  }
}
