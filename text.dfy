/**
 * String handling the page script relies on: `String.prototype.trim`, the
 * `\s` class of its regular expressions, and `split('/').pop()`.
 */
module Text {

  /**
   * The ECMAScript WhiteSpace and LineTerminator code points, which both
   * `trim` and the regular-expression class `\s` use: TAB, LF, VT, FF, CR,
   * SPACE, NO-BREAK SPACE, the Unicode space separators (category Zs),
   * LINE SEPARATOR, PARAGRAPH SEPARATOR and the byte order mark.
   */
  predicate IsSpace(c: char) {
    ('\t' <= c <= '\r') || c == ' ' || c == '\U{00A0}' || c == '\U{1680}' ||
    ('\U{2000}' <= c <= '\U{200A}') || c == '\U{2028}' || c == '\U{2029}' ||
    c == '\U{202F}' || c == '\U{205F}' || c == '\U{3000}' || c == '\U{FEFF}'
  }

  predicate AllSpace(s: string) {
    forall i :: 0 <= i < |s| ==> IsSpace(s[i])
  }

  /** `s` with its leading whitespace removed. */
  function TrimStart(s: string): string
  {
    if s != [] && IsSpace(s[0]) then TrimStart(s[1..]) else s
  }

  /** TrimStart drops a whitespace-only prefix and stops at the first other character. */
  lemma {:induction false} TrimStartSpec(s: string)
    ensures var r := TrimStart(s);
      |r| <= |s| && r == s[|s| - |r|..] && AllSpace(s[..|s| - |r|]) && (r != [] ==> !IsSpace(r[0]))
  {
    if s != [] && IsSpace(s[0]) {
      TrimStartSpec(s[1..]);
      var r := TrimStart(s);
      assert s[..|s| - |r|] == [s[0]] + s[1..][..|s| - 1 - |r|];
    }
  }

  /** `s` with its trailing whitespace removed. */
  function TrimEnd(s: string): string
  {
    if s != [] && IsSpace(s[|s| - 1]) then TrimEnd(s[..|s| - 1]) else s
  }

  /** TrimEnd drops a whitespace-only suffix and stops at the last other character. */
  lemma {:induction false} TrimEndSpec(s: string)
    ensures var r := TrimEnd(s);
      |r| <= |s| && r == s[..|r|] && AllSpace(s[|r|..]) && (r != [] ==> !IsSpace(r[|r| - 1]))
  {
    if s != [] && IsSpace(s[|s| - 1]) {
      var init := s[..|s| - 1];
      TrimEndSpec(init);
      var r := TrimEnd(s);
      assert s[|r|..] == init[|r|..] + [s[|s| - 1]];
    }
  }

  /**
   * `String.prototype.trim`. The result is never longer than `s`, and it is
   * empty exactly when `s` is nothing but whitespace.
   */
  function Trim(s: string): (r: string)
    ensures |r| <= |s|
    ensures r == [] <==> AllSpace(s)
  {
    TrimEmptyIff(s);
    TrimEnd(TrimStart(s))
  }

  /** Both trims leave nothing exactly when every character is whitespace. */
  lemma TrimEmptyIff(s: string)
    ensures |TrimEnd(TrimStart(s))| <= |s|
    ensures TrimEnd(TrimStart(s)) == [] <==> AllSpace(s)
  {
    var t := TrimStart(s);
    TrimStartSpec(s);
    TrimEndSpec(t);
    var a := |s| - |t|;
    if TrimEnd(t) == [] {
      assert t == [];
      assert s[..a] == s;
    }
  }

  /**
   * What trim leaves: the result sits inside `s` between a whitespace-only
   * prefix and a whitespace-only suffix, and neither starts nor ends with
   * whitespace.
   */
  lemma TrimFrames(s: string)
    ensures var r := Trim(s);
      exists a :: 0 <= a <= |s| - |r| && s[a..a + |r|] == r && AllSpace(s[..a]) && AllSpace(s[a + |r|..])
    ensures var r := Trim(s); r != [] ==> !IsSpace(r[0]) && !IsSpace(r[|r| - 1])
  {
    var t := TrimStart(s);
    var r := TrimEnd(t);
    TrimStartSpec(s);
    TrimEndSpec(t);
    var a := |s| - |t|;
    assert r == Trim(s);
    assert s[a..a + |r|] == r by {
      assert s[a..] == t;
      assert s[a..a + |r|] == t[..|r|];
    }
    assert AllSpace(s[..a]);
    assert AllSpace(s[a + |r|..]) by {
      assert s[a + |r|..] == t[|r|..];
    }
    if r != [] {
      assert r[0] == t[0];
    }
  }

  /** Trimming an already trimmed string changes nothing. */
  lemma TrimIdempotent(s: string)
    ensures Trim(Trim(s)) == Trim(s)
  {
    var r := Trim(s);
    TrimFrames(s);
    if r != [] {
      assert TrimStart(r) == r;
      TrimEndSpec(r);
      assert TrimEnd(r) == r;
    }
  }

  /**
   * `s.split(sep)`: the pieces between occurrences of `sep`; there is always
   * at least one. Defined from the end, the way `pop` reads it.
   */
  function Split(s: string, sep: char): (parts: seq<string>)
    ensures |parts| >= 1
  {
    if s == [] then [[]]
    else
      var init := Split(s[..|s| - 1], sep);
      if s[|s| - 1] == sep then init + [[]]
      else init[..|init| - 1] + [init[|init| - 1] + [s[|s| - 1]]]
  }

  /**
   * No piece of the split holds the separator, and there is one piece more
   * than there are separators in `s`.
   */
  lemma {:induction false} SplitPieces(s: string, sep: char)
    ensures forall k :: 0 <= k < |Split(s, sep)| ==> sep !in Split(s, sep)[k]
    ensures |Split(s, sep)| == Count(s, sep) + 1
  {
    if s != [] {
      var init := s[..|s| - 1];
      SplitPieces(init, sep);
      CountSnoc(init, s[|s| - 1], sep);
      assert s == init + [s[|s| - 1]];
    }
  }

  /** The number of occurrences of `c` in `s`. */
  function Count(s: string, c: char): nat
  {
    if s == [] then 0 else Count(s[..|s| - 1], c) + (if s[|s| - 1] == c then 1 else 0)
  }

  lemma CountSnoc(s: string, x: char, c: char)
    ensures Count(s + [x], c) == Count(s, c) + (if x == c then 1 else 0)
  {
    assert (s + [x])[..|s|] == s;
  }

  /**
   * `s.split('/').pop()`: the text after the last `/`, or the whole string
   * when it has none.
   */
  function LastSegment(s: string): string
  {
    if s == [] || s[|s| - 1] == '/' then []
    else LastSegment(s[..|s| - 1]) + [s[|s| - 1]]
  }

  /**
   * LastSegment is the longest suffix of `s` without `/`: it holds no `/`,
   * and it is either all of `s` or preceded by a `/`.
   */
  lemma {:induction false} LastSegmentSpec(s: string)
    ensures var r := LastSegment(s);
      '/' !in r && |r| <= |s| && r == s[|s| - |r|..] && (|r| < |s| ==> s[|s| - |r| - 1] == '/')
  {
    if s != [] && s[|s| - 1] != '/' {
      var init := s[..|s| - 1];
      LastSegmentSpec(init);
      var r := LastSegment(s);
      assert r == LastSegment(init) + [s[|s| - 1]];
      assert s[|s| - |r|..] == init[|init| - |LastSegment(init)|..] + [s[|s| - 1]];
    }
  }

  /** LastSegment is the piece that `pop` takes from the end of the split. */
  lemma {:induction false} LastSegmentIsLastPiece(s: string)
    ensures var parts := Split(s, '/'); parts[|parts| - 1] == LastSegment(s)
  {
    if s != [] && s[|s| - 1] != '/' {
      LastSegmentIsLastPiece(s[..|s| - 1]);
    }
  }
}
