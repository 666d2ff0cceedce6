/** The string handling the handlers rely on: Python's `str.strip()` and
    `str.lower()` (used to compare rider names) and the `^\d{4}-\d{2}-\d{2}$`
    pattern that `calendar` applies with `re.match`. */
module Text {

  predicate IsDigit(c: char) {
    '0' <= c <= '9'
  }

  predicate AllDigits(s: string) {
    forall i :: 0 <= i < |s| ==> IsDigit(s[i])
  }

  /** The characters for which Python's `str.isspace()` holds, the set
      `str.strip()` removes when called without arguments. */
  predicate IsSpace(c: char) {
    var k := c as int;
    || 0x09 <= k <= 0x0D
    || 0x1C <= k <= 0x20
    || k == 0x85 || k == 0xA0 || k == 0x1680
    || 0x2000 <= k <= 0x200A
    || k == 0x2028 || k == 0x2029 || k == 0x202F || k == 0x205F || k == 0x3000
  }

  predicate AllSpace(s: string) {
    forall i :: 0 <= i < |s| ==> IsSpace(s[i])
  }

  /** Removes leading whitespace: the result is the longest suffix of `s`
      that does not start with whitespace. */
  function TrimStart(s: string): string {
    if s != [] && IsSpace(s[0]) then TrimStart(s[1..]) else s
  }

  /** Removes trailing whitespace: the result is the longest prefix of `s`
      that does not end with whitespace. */
  function TrimEnd(s: string): string {
    if s != [] && IsSpace(s[|s| - 1]) then TrimEnd(s[..|s| - 1]) else s
  }

  /** `s.strip()`. */
  function Strip(s: string): string {
    TrimEnd(TrimStart(s))
  }

  function LowerChar(c: char): char {
    if 'A' <= c <= 'Z' then (c as int + 32) as char else c
  }

  /** `s.lower()`, on the ASCII letters. */
  function Lower(s: string): (r: string)
    ensures |r| == |s|
    ensures forall i :: 0 <= i < |s| ==> r[i] == LowerChar(s[i])
  {
    seq(|s|, i requires 0 <= i < |s| => LowerChar(s[i]))
  }

  /** `s.strip().lower()`, the form in which `delete_link` compares names. */
  function NormalizeName(s: string): string {
    Lower(Strip(s))
  }

  predicate NamesMatch(a: string, b: string) {
    NormalizeName(a) == NormalizeName(b)
  }

  // ---- properties of the name comparison ----

  lemma {:induction false} TrimStartOfSpacePrefix(w: string, s: string)
    requires AllSpace(w)
    ensures TrimStart(w + s) == TrimStart(s)
  {
    if w != [] {
      assert (w + s)[1..] == w[1..] + s;
      TrimStartOfSpacePrefix(w[1..], s);
    } else {
      assert w + s == s;
    }
  }

  lemma {:induction false} TrimEndOfSpaceSuffix(s: string, w: string)
    requires AllSpace(w)
    ensures TrimEnd(s + w) == TrimEnd(s)
  {
    if w != [] {
      assert (s + w)[..|s + w| - 1] == s + w[..|w| - 1];
      TrimEndOfSpaceSuffix(s, w[..|w| - 1]);
    } else {
      assert s + w == s;
    }
  }

  /** Appending to a string that has a non-space character does not change
      where its leading whitespace ends. */
  lemma {:induction false} TrimStartOfAppend(s: string, t: string)
    requires TrimStart(s) != []
    ensures TrimStart(s + t) == TrimStart(s) + t
  {
    if s != [] && IsSpace(s[0]) {
      assert (s + t)[1..] == s[1..] + t;
      TrimStartOfAppend(s[1..], t);
    }
  }

  /** Whitespace around a name does not matter to the comparison. */
  lemma StripIgnoresPadding(w1: string, s: string, w2: string)
    requires AllSpace(w1) && AllSpace(w2)
    ensures Strip(w1 + s + w2) == Strip(s)
  {
    assert w1 + s + w2 == w1 + (s + w2);
    TrimStartOfSpacePrefix(w1, s + w2);
    if TrimStart(s) == [] {
      TrimStartSpec(s);
      assert AllSpace(s);
      assert AllSpace(s + w2);
      TrimStartOfSpacePrefix(s + w2, []);
      assert s + w2 + [] == s + w2;
    } else {
      TrimStartOfAppend(s, w2);
      TrimEndOfSpaceSuffix(TrimStart(s), w2);
    }
  }

  lemma NormalizeIgnoresPadding(w1: string, s: string, w2: string)
    requires AllSpace(w1) && AllSpace(w2)
    ensures NormalizeName(w1 + s + w2) == NormalizeName(s)
  {
    StripIgnoresPadding(w1, s, w2);
  }

  /** What `TrimStart` removes is whitespace, and what it keeps starts with
      a non-space character. */
  lemma {:induction false} TrimStartSpec(s: string)
    ensures |TrimStart(s)| <= |s|
    ensures TrimStart(s) == s[|s| - |TrimStart(s)|..]
    ensures AllSpace(s[..|s| - |TrimStart(s)|])
    ensures TrimStart(s) == [] || !IsSpace(TrimStart(s)[0])
  {
    if s != [] && IsSpace(s[0]) {
      TrimStartSpec(s[1..]);
      var k := |s[1..]| - |TrimStart(s[1..])|;
      assert s[1..][k..] == s[k + 1..];
      assert s[..k + 1] == [s[0]] + s[1..][..k];
    }
  }

  /** What `TrimEnd` removes is whitespace, and what it keeps ends with a
      non-space character. */
  lemma {:induction false} TrimEndSpec(s: string)
    ensures |TrimEnd(s)| <= |s|
    ensures TrimEnd(s) == s[..|TrimEnd(s)|]
    ensures AllSpace(s[|TrimEnd(s)|..])
    ensures TrimEnd(s) == [] || !IsSpace(TrimEnd(s)[|TrimEnd(s)| - 1])
  {
    if s != [] && IsSpace(s[|s| - 1]) {
      var p := s[..|s| - 1];
      TrimEndSpec(p);
      var k := |TrimEnd(p)|;
      assert p[..k] == s[..k];
      assert s[k..] == p[k..] + [s[|s| - 1]];
    }
  }

  lemma LowerCharFacts(c: char)
    ensures IsSpace(LowerChar(c)) == IsSpace(c)
    ensures LowerChar(LowerChar(c)) == LowerChar(c)
  {
  }

  /** A string neither starting nor ending with whitespace is its own strip. */
  lemma StripOfStripped(s: string)
    requires s == [] || (!IsSpace(s[0]) && !IsSpace(s[|s| - 1]))
    ensures Strip(s) == s
  {
  }

  /** Normalising twice is normalising once. */
  lemma NormalizeIdempotent(s: string)
    ensures NormalizeName(NormalizeName(s)) == NormalizeName(s)
  {
    var a := TrimStart(s);
    TrimStartSpec(s);
    var b := TrimEnd(a);
    TrimEndSpec(a);
    var n := Lower(b);
    if b != [] {
      assert b[0] == a[0];
      LowerCharFacts(b[0]);
      LowerCharFacts(b[|b| - 1]);
    }
    StripOfStripped(n);
    forall i | 0 <= i < |n| ensures Lower(n)[i] == n[i] {
      LowerCharFacts(b[i]);
    }
    assert Lower(n) == n;
  }

  lemma {:induction false} LowerTrimStart(s: string)
    ensures TrimStart(Lower(s)) == Lower(TrimStart(s))
  {
    if s != [] {
      LowerCharFacts(s[0]);
      assert Lower(s)[1..] == Lower(s[1..]);
      LowerTrimStart(s[1..]);
    }
  }

  lemma {:induction false} LowerTrimEnd(s: string)
    ensures TrimEnd(Lower(s)) == Lower(TrimEnd(s))
  {
    if s != [] {
      LowerCharFacts(s[|s| - 1]);
      assert Lower(s)[..|s| - 1] == Lower(s[..|s| - 1]);
      LowerTrimEnd(s[..|s| - 1]);
    }
  }

  lemma LowerIdempotent(s: string)
    ensures Lower(Lower(s)) == Lower(s)
  {
    forall i | 0 <= i < |s| ensures Lower(Lower(s))[i] == Lower(s)[i] {
      LowerCharFacts(s[i]);
    }
  }

  /** The comparison does not see the case of ASCII letters. */
  lemma NormalizeIgnoresCase(s: string)
    ensures NormalizeName(Lower(s)) == NormalizeName(s)
  {
    LowerTrimStart(s);
    LowerTrimEnd(TrimStart(s));
    LowerIdempotent(Strip(s));
  }

  /** `TrimStart` is determined by where the first non-space character is. */
  lemma {:induction false} TrimStartAt(s: string, k: nat)
    requires k <= |s| && AllSpace(s[..k]) && (k == |s| || !IsSpace(s[k]))
    ensures TrimStart(s) == s[k..]
  {
    if k > 0 {
      assert s[1..][..k - 1] == s[1..k];
      TrimStartAt(s[1..], k - 1);
      assert s[1..][k - 1..] == s[k..];
    }
  }

  /** `TrimEnd` is determined by where the last non-space character is. */
  lemma {:induction false} TrimEndAt(s: string, k: nat)
    requires k <= |s| && AllSpace(s[k..]) && (k == 0 || !IsSpace(s[k - 1]))
    ensures TrimEnd(s) == s[..k]
  {
    if k < |s| {
      var p := s[..|s| - 1];
      assert p[k..] == s[k..|s| - 1];
      TrimEndAt(p, k);
      assert p[..k] == s[..k];
    }
  }

  // ---- the date pattern of `calendar` ----

  /** Four digits, a dash, two digits, a dash, two digits, and nothing else. */
  predicate IsoDateShape(s: string) {
    && |s| == 10
    && IsDigit(s[0]) && IsDigit(s[1]) && IsDigit(s[2]) && IsDigit(s[3])
    && s[4] == '-'
    && IsDigit(s[5]) && IsDigit(s[6])
    && s[7] == '-'
    && IsDigit(s[8]) && IsDigit(s[9])
  }

  /** `re.match(r'^\d{4}-\d{2}-\d{2}$', s)`: Python's `$` also matches just
      before a single newline that ends the string. */
  predicate MatchesIsoDate(s: string) {
    || IsoDateShape(s)
    || (|s| == 11 && s[10] == '\n' && IsoDateShape(s[..10]))
  }

  /** The strings the pattern accepts are exactly those made of a four-digit
      year, a two-digit month and a two-digit day joined by dashes, with at
      most one newline after them. */
  lemma MatchesIsoDateExactly(s: string)
    ensures MatchesIsoDate(s) <==>
      exists y, m, d, tail :: |y| == 4 && |m| == 2 && |d| == 2 && AllDigits(y + m + d)
        && (tail == "" || tail == "\n") && s == y + "-" + m + "-" + d + tail
  {
    if MatchesIsoDate(s) {
      var y, m, d, tail := s[..4], s[5..7], s[8..10], s[10..];
      assert AllDigits(y + m + d) by {
        assert y + m + d == [s[0], s[1], s[2], s[3], s[5], s[6], s[8], s[9]];
      }
      assert s == y + "-" + m + "-" + d + tail;
    }
    if exists y, m, d, tail :: |y| == 4 && |m| == 2 && |d| == 2 && AllDigits(y + m + d)
        && (tail == "" || tail == "\n") && s == y + "-" + m + "-" + d + tail {
      var y, m, d, tail :| |y| == 4 && |m| == 2 && |d| == 2 && AllDigits(y + m + d)
        && (tail == "" || tail == "\n") && s == y + "-" + m + "-" + d + tail;
      var digits := y + m + d;
      assert s[..10] == y + "-" + m + "-" + d;
      assert s[0] == digits[0] && s[1] == digits[1] && s[2] == digits[2] && s[3] == digits[3];
      assert s[5] == digits[4] && s[6] == digits[5] && s[8] == digits[6] && s[9] == digits[7];
    }
  }
}
