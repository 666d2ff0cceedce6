/** Slot labels as `next_slot` writes them: `"SL"` followed by the decimal
    form of a number, zero-padded on the left to at least four digits
    (`f"SL{str(n).zfill(4)}"`), and a decoder that reads the number back. */
module Slot {
  import opened Records
  import opened Text

  const Prefix := "SL"
  const Width := 4

  function DigitChar(d: nat): (c: char)
    requires d < 10
    ensures IsDigit(c)
  {
    ('0' as int + d) as char
  }

  function DigitValue(c: char): (d: nat)
    requires IsDigit(c)
    ensures d < 10
  {
    c as int - '0' as int
  }

  /** `str(n)`: the decimal digits of `n`, with no leading zero. */
  function Decimal(n: nat): (s: string)
    ensures |s| >= 1 && AllDigits(s)
    ensures s[0] == '0' ==> n == 0
    decreases n
  {
    if n < 10 then [DigitChar(n)] else Decimal(n / 10) + [DigitChar(n % 10)]
  }

  /** The number a string of decimal digits stands for (most significant first). */
  function DigitsValue(s: string): nat
    requires AllDigits(s)
  {
    if s == [] then 0 else DigitsValue(s[..|s| - 1]) * 10 + DigitValue(s[|s| - 1])
  }

  /** `s.zfill(width)` for a string without a sign. */
  function ZFill(s: string, width: nat): string {
    if |s| >= width then s else seq(width - |s|, _ => '0') + s
  }

  /** The slot label `next_slot` reports when the table holds `n - 1` routes. */
  function Encode(n: nat): (slot: string)
    ensures |slot| >= |Prefix| + Width && slot[..|Prefix|] == Prefix
    ensures AllDigits(slot[|Prefix|..])
  {
    var digits := Decimal(n);
    var slot := Prefix + ZFill(digits, Width);
    assert slot[|Prefix|..] == ZFill(digits, Width);
    slot
  }

  /** Reads a slot label back to its number; `None` for anything that is not
      `"SL"` followed by one or more digits. */
  function Decode(slot: string): Option<nat> {
    if |slot| > |Prefix| && slot[..|Prefix|] == Prefix && AllDigits(slot[|Prefix|..])
    then Some(DigitsValue(slot[|Prefix|..]))
    else None
  }

  lemma {:induction false} DecimalValue(n: nat)
    ensures DigitsValue(Decimal(n)) == n
    decreases n
  {
    if n >= 10 {
      var s := Decimal(n);
      assert s[..|s| - 1] == Decimal(n / 10);
      DecimalValue(n / 10);
    }
  }

  lemma {:induction false} ZerosValue(k: nat)
    ensures AllDigits(seq(k, _ => '0')) && DigitsValue(seq(k, _ => '0')) == 0
  {
    if k > 0 {
      assert seq(k, _ => '0')[..k - 1] == seq(k - 1, _ => '0');
      ZerosValue(k - 1);
    }
  }

  /** Leading zeros do not change the number. */
  lemma {:induction false} LeadingZerosValue(k: nat, s: string)
    requires AllDigits(s)
    ensures AllDigits(seq(k, _ => '0') + s)
    ensures DigitsValue(seq(k, _ => '0') + s) == DigitsValue(s)
  {
    var z := seq(k, _ => '0');
    if s == [] {
      assert z + s == z;
      ZerosValue(k);
    } else {
      var t := z + s;
      assert t[..|t| - 1] == z + s[..|s| - 1];
      LeadingZerosValue(k, s[..|s| - 1]);
    }
  }

  /** Decoding a slot label gives back the number it was made from. */
  lemma DecodeEncode(n: nat)
    ensures Decode(Encode(n)) == Some(n)
  {
    var digits := Decimal(n);
    var slot := Encode(n);
    assert slot[|Prefix|..] == ZFill(digits, Width);
    DecimalValue(n);
    if |digits| < Width {
      LeadingZerosValue(Width - |digits|, digits);
    }
  }

  /** Different numbers never share a slot label. */
  lemma EncodeInjective(a: nat, b: nat)
    ensures Encode(a) == Encode(b) ==> a == b
  {
    DecodeEncode(a);
    DecodeEncode(b);
  }

  /** Numbers below 10000 give six-character labels, larger ones grow by
      one character per extra digit: the label's width is that of `str(n)`
      padded to four. */
  lemma {:induction false} EncodeLength(n: nat)
    ensures |Encode(n)| == |Prefix| + (if |Decimal(n)| < Width then Width else |Decimal(n)|)
    ensures n < 10000 ==> |Encode(n)| == 6
  {
    if n < 10000 {
      DecimalShort(n);
    }
  }

  lemma {:induction false} DecimalShort(n: nat)
    requires n < 10000
    ensures |Decimal(n)| <= Width
  {
    if n >= 10 {
      DecimalShortBelow(n / 10, 3);
    }
  }

  lemma {:induction false} DecimalShortBelow(n: nat, k: nat)
    requires k >= 1
    requires n < Pow10(k)
    ensures |Decimal(n)| <= k
    decreases n
  {
    if n >= 10 {
      assert n / 10 < Pow10(k - 1);
      DecimalShortBelow(n / 10, k - 1);
    }
  }

  function Pow10(k: nat): (p: nat)
    ensures p >= 1
  {
    if k == 0 then 1 else 10 * Pow10(k - 1)
  }
}
