/**
 * The e-mail check of the contact form: the language of the regular
 * expression `^[^\s@]+@[^\s@]+\.[^\s@]+$`, written as predicates over strings.
 */
module Email {
  import opened Text

  /** A character of the class `[^\s@]`. */
  predicate Plain(c: char) {
    !IsSpace(c) && c != '@'
  }

  /** A string matched by `[^\s@]+`. */
  predicate Atom(t: string) {
    |t| > 0 && forall k :: 0 <= k < |t| ==> Plain(t[k])
  }

  /**
   * The strings the whole pattern accepts: an atom, `@`, an atom, a literal
   * `.`, an atom, with nothing before or after (the anchors `^` and `$`).
   */
  predicate MatchesEmailPattern(s: string) {
    exists at, dot :: 0 <= at < dot < |s| &&
      Atom(s[..at]) && s[at] == '@' && Atom(s[at + 1..dot]) && s[dot] == '.' && Atom(s[dot + 1..])
  }

  /** The position of the first `c` in `s`, or `|s|` when there is none. */
  function FirstIndex(s: string, c: char): (k: nat)
    ensures k <= |s|
    ensures forall i :: 0 <= i < k ==> s[i] != c
    ensures k < |s| ==> s[k] == c
  {
    if s == [] then 0
    else if s[0] == c then 0
    else 1 + FirstIndex(s[1..], c)
  }

  /** A `.` that is neither the first nor the last character of `d`. */
  predicate HasInnerDot(d: string) {
    exists j :: 0 < j < |d| - 1 && d[j] == '.'
  }

  /**
   * The same language in plain words: no whitespace, exactly one `@`, a
   * non-empty part before it, and a part after it holding an inner `.`.
   */
  predicate EmailAccepted(s: string) {
    var at := FirstIndex(s, '@');
    (forall k :: 0 <= k < |s| ==> !IsSpace(s[k])) &&
    0 < at < |s| && '@' !in s[at + 1..] && HasInnerDot(s[at + 1..])
  }

  /** The plain-words description and the regular expression accept the same strings. */
  lemma EmailAcceptedIffPattern(s: string)
    ensures EmailAccepted(s) <==> MatchesEmailPattern(s)
  {
    if MatchesEmailPattern(s) {
      PatternIsAccepted(s);
    }
    if EmailAccepted(s) {
      AcceptedMatchesPattern(s);
    }
  }

  /** Every string the pattern matches passes the plain-words rule. */
  lemma PatternIsAccepted(s: string)
    requires MatchesEmailPattern(s)
    ensures EmailAccepted(s)
  {
    var at, dot :| 0 <= at < dot < |s| &&
      Atom(s[..at]) && s[at] == '@' && Atom(s[at + 1..dot]) && s[dot] == '.' && Atom(s[dot + 1..]);
    PlainOutsideAt(s, at, dot);
    assert FirstIndex(s, '@') == at;
    var d := s[at + 1..];
    assert d[dot - at - 1] == '.';
    assert '@' !in d by {
      forall k | 0 <= k < |d| ensures d[k] != '@' { assert d[k] == s[at + 1 + k]; }
    }
  }

  /** Every string that passes the plain-words rule is matched by the pattern. */
  lemma AcceptedMatchesPattern(s: string)
    requires EmailAccepted(s)
    ensures MatchesEmailPattern(s)
  {
    var at := FirstIndex(s, '@');
    var d := s[at + 1..];
    var j :| 0 < j < |d| - 1 && d[j] == '.';
    var dot := at + 1 + j;
    assert forall k :: 0 <= k < |s| && k != at ==> Plain(s[k]) by {
      forall k | 0 <= k < |s| && k != at ensures Plain(s[k]) {
        if k > at { assert s[k] == d[k - at - 1]; }
      }
    }
    assert Atom(s[..at]);
    assert Atom(s[at + 1..dot]);
    assert Atom(s[dot + 1..]);
  }

  /** In a matched string, every character except the `@` is of the class `[^\s@]`. */
  lemma PlainOutsideAt(s: string, at: int, dot: int)
    requires 0 <= at < dot < |s|
    requires Atom(s[..at]) && s[at] == '@' && Atom(s[at + 1..dot]) && s[dot] == '.' && Atom(s[dot + 1..])
    ensures forall k :: 0 <= k < |s| && k != at ==> Plain(s[k])
  {
    forall k | 0 <= k < |s| && k != at ensures Plain(s[k]) {
      if k < at {
        assert s[k] == s[..at][k];
      } else if k < dot {
        assert s[k] == s[at + 1..dot][k - at - 1];
      } else if k > dot {
        assert s[k] == s[dot + 1..][k - dot - 1];
      }
    }
  }

  /** An address without `@` is rejected. */
  lemma NoAtRejected(e: string)
    requires '@' !in e
    ensures !EmailAccepted(e) && !MatchesEmailPattern(e)
  {
    EmailAcceptedIffPattern(e);
  }

  /** The shortest kind of address the pattern accepts: one character in each part. */
  lemma ShortAddressAccepted()
    ensures EmailAccepted("a@b.com") && MatchesEmailPattern("a@b.com")
  {
    var e := "a@b.com";
    assert FirstIndex(e, '@') == 1;
    assert e[2..] == "b.com";
    assert "b.com"[1] == '.';
    EmailAcceptedIffPattern(e);
  }
}
