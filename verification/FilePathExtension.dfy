/**
 The extension of a path in terms of text: exactly which part of the name it is.
 */
module FilePathExtension {
  import opened FilePathModel
  import opened FilePathProof

  /** "gz", "z" or "bz2" in any case. */
  predicate SuffixText(x: string) {
    || (|x| == 2 && (x[0] == 'g' || x[0] == 'G') && (x[1] == 'z' || x[1] == 'Z'))
    || (|x| == 1 && (x[0] == 'z' || x[0] == 'Z'))
    || (|x| == 3 && (x[0] == 'b' || x[0] == 'B') && (x[1] == 'z' || x[1] == 'Z') && x[2] == '2')
  }

  lemma SuffixByText(x: string)
    ensures CommonDoubleExtension(x) <==> SuffixText(x)
  {
    assert LowerCaseEquals(x, "gz") <==> |x| == 2 && (x[0] == 'g' || x[0] == 'G') && (x[1] == 'z' || x[1] == 'Z');
    assert LowerCaseEquals(x, "z") <==> |x| == 1 && (x[0] == 'z' || x[0] == 'Z');
    assert LowerCaseEquals(x, "bz2") <==>
      |x| == 3 && (x[0] == 'b' || x[0] == 'B') && (x[1] == 'z' || x[1] == 'Z') && x[2] == '2';
  }

  /** `s` ends in a dot and one to four characters other than dots. */
  ghost predicate ShortPiece(s: string, stem: string, y: string) {
    s == stem + "." + y && DotFree(y) && 1 <= |y| <= 4
  }

  lemma LastDot(s: string, x: string)
    requires DotFree(x)
    ensures LastIndex(s + "." + x, '.') == |s|
    ensures (s + "." + x)[..|s|] == s && (s + "." + x)[|s|..] == "." + x && (s + "." + x)[|s| + 1..] == x
  {
    NoDot(x);
    assert LastIndex(".", '.') == 0;
    hide *;
    LastIndexConcat(s + ".", x, '.');
    LastIndexConcat(s, ".", '.');
    AtDot(s, x);
  }

  lemma AtDot(s: string, x: string)
    ensures (s + "." + x)[..|s|] == s && (s + "." + x)[|s|..] == "." + x && (s + "." + x)[|s| + 1..] == x
  {
  }

  lemma NoDot(c: string)
    requires DotFree(c)
    ensures LastIndex(c, '.') == -1
  {
    LastIndexFinds(c, '.');
    hide LastIndex;
  }

  lemma PrefixHasNoSeparator(c: string, s: string)
    requires IsName(c) && s <= c
    ensures LastIndex(s, SEPARATOR) == -1
  {
    LastIndexFinds(s, SEPARATOR);
    hide LastIndex;
  }

  /** Where the extension of a name starts that has `x` behind its last dot. */
  lemma PositionByText(s: string, x: string)
    requires IsName(s + "." + x) && DotFree(x) && s + "." + x != CURRENT && s + "." + x != PARENT
    ensures forall stem, y :: SuffixText(x) && ShortPiece(s, stem, y) ==> ExtensionPosition(s + "." + x) == |stem|
    ensures !SuffixText(x) || !(exists stem, y :: ShortPiece(s, stem, y)) ==> ExtensionPosition(s + "." + x) == |s|
  {
    var c := s + "." + x;
    LastDot(s, x);
    SuffixByText(x);
    PrefixHasNoSeparator(c, s);
    var before := LastIndex(s, '.');
    assert ExtensionPosition(c) == if s == "" then 0 else ChosenDot(|s|, before, -1, SuffixText(x));
    hide LastIndex, CommonDoubleExtension, SuffixText, ExtensionPosition, IsName;
    if stem, y :| ShortPiece(s, stem, y) {
      LastDot(stem, y);
    }
    if exists stem, y :: ShortPiece(s, stem, y) {
      forall stem, y | ShortPiece(s, stem, y) ensures before == |stem| {
        LastDot(stem, y);
      }
    } else if before != -1 && 1 < |s| - before <= 5 {
      LastIndexFinds(s, '.');
      assert s == s[..before] + "." + s[before + 1..];
      assert ShortPiece(s, s[..before], s[before + 1..]);
    }
  }

  /**
   The extension of any path whose last name is `c`. Names without a dot, "." and ".." have none.
   Otherwise it starts at the last dot, or, in front of "gz", "z" and "bz2" in any case, at the dot before,
   if there is one with one to four characters behind it.
   */
  lemma ExtensionByText(d: string, c: string, seps: string)
    requires EndsOpen(d) && IsName(c) && AreAllSeparators(seps)
    ensures c == "." || c == ".." || DotFree(c) ==> Extension(d + c + seps) == ""
    ensures c != "." && c != ".." ==>
      forall stem, y, x :: c == stem + "." + y + "." + x && DotFree(x) && DotFree(y) && 1 <= |y| <= 4 && SuffixText(x) ==>
        Extension(d + c + seps) == "." + y + "." + x
    ensures c != "." && c != ".." ==>
      forall s, x :: c == s + "." + x && DotFree(x) && !(SuffixText(x) && exists stem, y :: ShortPiece(s, stem, y)) ==>
        Extension(d + c + seps) == "." + x
  {
    ExtensionOfName(d, c, seps);
    NameWithoutExtension(c);
    hide *;
    if c != "." && c != ".." {
      forall stem, y, x |
        c == stem + "." + y + "." + x && DotFree(x) && DotFree(y) && 1 <= |y| <= 4 && SuffixText(x)
        ensures Extension(d + c + seps) == "." + y + "." + x
      {
        DoubleOfName(c, stem, y, x);
      }
      forall s, x | c == s + "." + x && DotFree(x) && !(SuffixText(x) && exists stem, y :: ShortPiece(s, stem, y))
        ensures Extension(d + c + seps) == "." + x
      {
        SingleOfName(c, s, x);
      }
    }
  }

  lemma NameWithoutExtension(c: string)
    ensures c == "." || c == ".." || DotFree(c) ==> ExtensionPosition(c) == -1
  {
    if DotFree(c) {
      NoDot(c);
    }
  }

  lemma DoubleOfName(c: string, stem: string, y: string, x: string)
    requires IsName(c) && c != "." && c != ".."
    requires c == stem + "." + y + "." + x && DotFree(x) && DotFree(y) && 1 <= |y| <= 4 && SuffixText(x)
    ensures ExtensionPosition(c) != -1 && c[ExtensionPosition(c)..] == "." + y + "." + x
  {
    assert CURRENT == "." && PARENT == "..";
    hide DotFree, SuffixText, IsName, ExtensionPosition;
    assert ShortPiece(stem + "." + y, stem, y);
    PositionByText(stem + "." + y, x);
    DoubleTail(stem, y, x);
  }

  lemma SingleOfName(c: string, s: string, x: string)
    requires IsName(c) && c != "." && c != ".."
    requires c == s + "." + x && DotFree(x) && !(SuffixText(x) && exists stem, y :: ShortPiece(s, stem, y))
    ensures ExtensionPosition(c) != -1 && c[ExtensionPosition(c)..] == "." + x
  {
    assert CURRENT == "." && PARENT == "..";
    hide DotFree, SuffixText, IsName, ExtensionPosition, ShortPiece;
    PositionByText(s, x);
    AtDot(s, x);
  }

  lemma DoubleTail(stem: string, y: string, x: string)
    ensures (stem + "." + y + "." + x)[|stem|..] == "." + y + "." + x
  {
  }
}
