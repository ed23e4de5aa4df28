/** Fixed-width hexadecimal text. */
module Hex {
  import opened Bytes

  const DIGITS: string := "0123456789abcdef"

  function Digit(v: nat): char
    requires v < 16
  {
    DIGITS[v]
  }

  function DigitValue(c: char): Option<nat> {
    if '0' <= c <= '9' then Some((c - '0') as nat)
    else if 'a' <= c <= 'f' then Some((c - 'a') as nat + 10)
    else if 'A' <= c <= 'F' then Some((c - 'A') as nat + 10)
    else None
  }

  /** A digit is worth its place among the sixteen, small or capital. */
  lemma DigitExact(c: char, v: nat)
    requires v < 16
    ensures DigitValue(c) == Some(v) <==> c == "0123456789abcdef"[v] || c == "0123456789ABCDEF"[v]
  {
  }

  lemma DigitRoundTrip(v: nat)
    requires v < 16
    ensures DigitValue(Digit(v)) == Some(v)
  {
  }

  lemma DigitValueBound(c: char)
    ensures DigitValue(c).Some? ==> DigitValue(c).value < 16
  {
  }

  predicate AllHex(s: string) {
    forall i | 0 <= i < |s| :: DigitValue(s[i]).Some?
  }

  function Value(s: string): nat
    requires AllHex(s)
  {
    if s == "" then 0
    else
      var n := |s| - 1;
      Value(s[..n]) * 16 + DigitValue(s[n]).value
  }

  /** Lower-case digits of `v`, padded or cut to `width` from the left. */
  function ToHex(v: nat, width: nat): (s: string)
    ensures |s| == width
  {
    if width == 0 then "" else ToHex(v / 16, width - 1) + [Digit(v % 16)]
  }

  function Pow16(n: nat): (r: nat)
    ensures r >= 1
  {
    if n == 0 then 1 else 16 * Pow16(n - 1)
  }

  lemma {:induction false} ToHexValue(v: nat, width: nat)
    requires v < Pow16(width)
    ensures AllHex(ToHex(v, width)) && Value(ToHex(v, width)) == v
  {
    if width > 0 {
      var s := ToHex(v, width);
      assert s[..width - 1] == ToHex(v / 16, width - 1);
      ToHexValue(v / 16, width - 1);
      DigitRoundTrip(v % 16);
      forall i | 0 <= i < width ensures DigitValue(s[i]).Some? {
        if i < width - 1 { assert s[i] == ToHex(v / 16, width - 1)[i]; }
      }
    }
  }

  lemma {:induction false} ValueBound(s: string)
    requires AllHex(s)
    ensures Value(s) < Pow16(|s|)
  {
    if s != "" {
      var n := |s| - 1;
      ValueBound(s[..n]);
      DigitValueBound(s[n]);
    }
  }

  lemma ValueSnoc(s: string, c: char)
    requires AllHex(s) && DigitValue(c).Some?
    ensures AllHex(s + [c]) && Value(s + [c]) == Value(s) * 16 + DigitValue(c).value
  {
    assert (s + [c])[..|s|] == s;
  }

  lemma Regroup(a: nat, p: nat, b: nat)
    ensures (a * p + b) * 16 == a * (16 * p) + b * 16
  {
    assert a * (16 * p) == a * p * 16;
  }

  /** Text values compose like positional numbers. */
  lemma {:induction false} ValueConcat(a: string, b: string)
    requires AllHex(a) && AllHex(b)
    ensures AllHex(a + b) && Value(a + b) == Value(a) * Pow16(|b|) + Value(b)
  {
    if b == "" {
      assert a + b == a;
    } else {
      var n := |b| - 1;
      ValueConcat(a, b[..n]);
      ValueSnoc(a + b[..n], b[n]);
      assert a + b == a + b[..n] + [b[n]];
      Regroup(Value(a), Pow16(n), Value(b[..n]));
    }
  }

  function Zeros(n: nat): (s: string)
    ensures |s| == n
  {
    seq(n, i => '0')
  }

  lemma {:induction false} ZerosValue(n: nat)
    ensures AllHex(Zeros(n)) && Value(Zeros(n)) == 0
  {
    if n > 0 {
      assert Zeros(n)[..n - 1] == Zeros(n - 1);
      ZerosValue(n - 1);
    }
  }

  predicate IsLower(c: char) {
    '0' <= c <= '9' || 'a' <= c <= 'f'
  }

  predicate LowerHex(s: string) {
    forall i | 0 <= i < |s| :: IsLower(s[i])
  }

  lemma LowerIsHex(s: string)
    requires LowerHex(s)
    ensures AllHex(s)
  {
    forall i | 0 <= i < |s| ensures DigitValue(s[i]).Some? { assert IsLower(s[i]); }
  }

  lemma ValueSplit(s: string)
    requires AllHex(s) && s != ""
    ensures Value(s) == Value(s[..|s| - 1]) * 16 + DigitValue(s[|s| - 1]).value && DigitValue(s[|s| - 1]).value < 16
  {
    DigitValueBound(s[|s| - 1]);
  }

  lemma QuotientUnique(x: nat, d: nat, y: nat, e: nat)
    requires d < 16 && e < 16 && x * 16 + d == y * 16 + e
    ensures x == y && d == e
  {
  }

  lemma LastDigit(a: string, b: string)
    requires AllHex(a) && AllHex(b) && a != "" && b != "" && Value(a) == Value(b)
    ensures Value(a[..|a| - 1]) == Value(b[..|b| - 1]) && DigitValue(a[|a| - 1]) == DigitValue(b[|b| - 1])
  {
    ValueSplit(a);
    ValueSplit(b);
    QuotientUnique(Value(a[..|a| - 1]), DigitValue(a[|a| - 1]).value, Value(b[..|b| - 1]), DigitValue(b[|b| - 1]).value);
  }

  /** Texts of one length and one value have the same digits, up to case. */
  lemma {:induction false} SameDigits(a: string, b: string, i: nat)
    requires |a| == |b| && AllHex(a) && AllHex(b) && Value(a) == Value(b) && i < |a|
    ensures DigitValue(a[i]) == DigitValue(b[i])
  {
    var n := |a| - 1;
    LastDigit(a, b);
    if i < n { SameDigits(a[..n], b[..n], i); }
  }

  /** The two texts have small and capital letters in the same places. */
  predicate SameCase(a: string, b: string)
    requires |a| == |b|
  {
    forall i | 0 <= i < |a| :: IsLower(a[i]) == IsLower(b[i])
  }

  lemma DigitDetermined(c: char, d: char)
    requires DigitValue(c).Some? && DigitValue(c) == DigitValue(d) && IsLower(c) == IsLower(d)
    ensures c == d
  {
  }

  /** Two texts are equal if and only if they agree in length, value and case. */
  lemma TextExact(a: string, b: string)
    requires AllHex(a) && AllHex(b)
    ensures a == b <==> |a| == |b| && Value(a) == Value(b) && SameCase(a, b)
  {
    if |a| == |b| && Value(a) == Value(b) && SameCase(a, b) {
      forall i | 0 <= i < |a| ensures a[i] == b[i] {
        SameDigits(a, b, i);
        DigitDetermined(a[i], b[i]);
      }
    }
  }

  lemma {:induction false} ToHexLower(v: nat, width: nat)
    ensures LowerHex(ToHex(v, width))
  {
    if width > 0 {
      ToHexLower(v / 16, width - 1);
      assert IsLower(Digit(v % 16));
    }
  }
}
