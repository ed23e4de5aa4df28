/** Decoding bytes as UTF-8, with a replacement character for every part that is none. */
module Utf8 {
  import opened Bytes

  /** U+FFFD. */
  const REPLACEMENT: Bytes := [0xEF, 0xBF, 0xBD]

  predicate IsContinuation(b: Byte) {
    0x80 <= b <= 0xBF
  }

  /** How many bytes a character has that starts with `b`, or 0. */
  function Width(b: Byte): nat {
    if b < 0x80 then 1
    else if 0xC2 <= b <= 0xDF then 2
    else if 0xE0 <= b <= 0xEF then 3
    else if 0xF0 <= b <= 0xF4 then 4
    else 0
  }

  /** Neither overlong, nor a surrogate, nor beyond U+10FFFF. */
  predicate SecondFits(lead: Byte, b: Byte) {
    if lead == 0xE0 then 0xA0 <= b <= 0xBF
    else if lead == 0xED then 0x80 <= b <= 0x9F
    else if lead == 0xF0 then 0x90 <= b <= 0xBF
    else if lead == 0xF4 then 0x80 <= b <= 0x8F
    else IsContinuation(b)
  }

  /** How many bytes in front are, or start, one character. */
  function Fitting(s: Bytes): (n: nat)
    requires s != []
    ensures n <= |s| && n <= Width(s[0]) <= 4
  {
    var w := Width(s[0]);
    if w <= 1 then w
    else if |s| < 2 || !SecondFits(s[0], s[1]) then 1
    else if w == 2 || |s| < 3 || !IsContinuation(s[2]) then 2
    else if w == 3 || |s| < 4 || !IsContinuation(s[3]) then 3
    else 4
  }

  /** A whole character is in front. */
  predicate Whole(s: Bytes) {
    s != [] && Width(s[0]) > 0 && Fitting(s) == Width(s[0])
  }

  predicate Valid(s: Bytes) {
    s == [] || (Whole(s) && Valid(s[Width(s[0])..]))
  }

  /** How many bytes one replacement character stands for. */
  function BadPart(s: Bytes): (n: nat)
    requires s != [] && !Whole(s)
    ensures 1 <= n <= 3 && n <= |s|
  {
    if Fitting(s) == 0 then 1 else Fitting(s)
  }

  function Lossy(s: Bytes): Bytes {
    if s == [] then []
    else if Whole(s) then s[..Width(s[0])] + Lossy(s[Width(s[0])..])
    else REPLACEMENT + Lossy(s[BadPart(s)..])
  }

  lemma {:induction false} LossyValid(s: Bytes)
    requires Valid(s)
    ensures Lossy(s) == s
  {
    if s != [] {
      var w := Width(s[0]);
      LossyValid(s[w..]);
      assert s == s[..w] + s[w..];
    }
  }

  /** Decoding never loses length and at most triples it; a text that starts inside a
      character grows. */
  lemma {:induction false} LossyLength(s: Bytes)
    ensures |s| <= |Lossy(s)| <= 3 * |s|
    ensures s != [] && IsContinuation(s[0]) ==> |s| < |Lossy(s)|
  {
    if s != [] {
      if Whole(s) { LossyLength(s[Width(s[0])..]); } else { LossyLength(s[BadPart(s)..]); }
    }
  }

  lemma WholeConcat(a: Bytes, b: Bytes)
    requires Whole(a)
    ensures Whole(a + b) && (a + b)[Width(a[0])..] == a[Width(a[0])..] + b
  {
  }

  lemma {:induction false} ValidConcat(a: Bytes, b: Bytes)
    requires Valid(a)
    ensures Valid(a + b) <==> Valid(b)
  {
    if a == [] {
      assert a + b == b;
    } else {
      WholeConcat(a, b);
      ValidConcat(a[Width(a[0])..], b);
    }
  }

  /** A character that goes on behind `a` goes on with a continuation byte. */
  lemma CutCharacter(a: Bytes, b: Bytes)
    requires a != [] && Whole(a + b) && |a| < Width(a[0])
    ensures b != [] && IsContinuation(b[0])
  {
    assert (a + b)[0] == a[0];
    assert (a + b)[|a|] == b[0];
  }

  lemma WholeInside(a: Bytes, b: Bytes)
    requires a != [] && Whole(a + b) && Width(a[0]) <= |a|
    ensures Whole(a)
  {
    var w := Width(a[0]);
    assert (a + b)[0] == a[0];
    assert forall i | 0 <= i < w :: (a + b)[i] == a[i];
  }

  /** If a valid text is cut so that its first part is not valid, the cut is inside a character. */
  lemma {:induction false} CutInside(a: Bytes, b: Bytes)
    requires Valid(a + b) && !Valid(a)
    ensures b != [] && IsContinuation(b[0])
  {
    assert (a + b)[0] == a[0];
    if |a| < Width(a[0]) {
      CutCharacter(a, b);
    } else {
      WholeInside(a, b);
      WholeConcat(a, b);
      CutInside(a[Width(a[0])..], b);
    }
  }

  // ---- The characters themselves ----

  /** A code point that is not a surrogate. */
  predicate IsScalar(c: nat) {
    c < 0xD800 || 0xE000 <= c <= 0x10FFFF
  }

  /** The UTF-8 encoding of a code point: its bits, six to a continuation byte. */
  function Encode(c: nat): (r: Bytes)
    requires IsScalar(c)
    ensures 1 <= |r| <= 4
  {
    if c < 0x80 then [c]
    else if c < 0x800 then [0xC0 + c / 64, 0x80 + c % 64]
    else if c < 0x1_0000 then [0xE0 + c / 4096, 0x80 + c / 64 % 64, 0x80 + c % 64]
    else [0xF0 + c / 262144, 0x80 + c / 4096 % 64, 0x80 + c / 64 % 64, 0x80 + c % 64]
  }

  lemma SecondOfThree(c: nat)
    requires 0x800 <= c < 0x1_0000 && IsScalar(c)
    ensures SecondFits(0xE0 + c / 4096, 0x80 + c / 64 % 64)
  {
    assert c / 64 % 64 == c / 64 - 64 * (c / 4096);
  }

  lemma SecondOfFour(c: nat)
    requires 0x1_0000 <= c && IsScalar(c)
    ensures SecondFits(0xF0 + c / 262144, 0x80 + c / 4096 % 64)
  {
    assert c / 4096 % 64 == c / 4096 - 64 * (c / 262144);
  }

  /** An encoded code point is a whole character, whatever follows. */
  lemma EncodeWhole(c: nat, rest: Bytes)
    requires IsScalar(c)
    ensures Whole(Encode(c) + rest) && Width(Encode(c)[0]) == |Encode(c)|
  {
    if 0x800 <= c < 0x1_0000 { SecondOfThree(c); }
    if 0x1_0000 <= c { SecondOfFour(c); }
  }

  /** And every whole character encodes a code point. */
  lemma WholeEncodes(s: Bytes) returns (c: nat)
    requires Whole(s)
    ensures IsScalar(c) && Width(s[0]) <= |s| && Encode(c) == s[..Width(s[0])]
  {
    var w := Width(s[0]);
    if w == 1 {
      c := s[0];
    } else if w == 2 {
      var hi: int, lo: int := s[0] - 0xC0, s[1] - 0x80;
      c := 64 * hi + lo;
    } else if w == 3 {
      c := Three(s[0], s[1], s[2]);
    } else {
      c := Four(s[0], s[1], s[2], s[3]);
    }
  }

  lemma Three(a: Byte, b: Byte, d: Byte) returns (c: nat)
    requires Width(a) == 3 && SecondFits(a, b) && IsContinuation(d)
    ensures IsScalar(c) && Encode(c) == [a, b, d]
  {
    var hi := 64 * (a - 0xE0) + (b - 0x80);
    c := 64 * hi + (d - 0x80);
    assert c / 64 == hi && hi / 64 == a - 0xE0 && c / 4096 == a - 0xE0;
  }

  lemma Four(a: Byte, b: Byte, d: Byte, e: Byte) returns (c: nat)
    requires Width(a) == 4 && SecondFits(a, b) && IsContinuation(d) && IsContinuation(e)
    ensures IsScalar(c) && Encode(c) == [a, b, d, e]
  {
    var hi := 64 * (a - 0xF0) + (b - 0x80);
    var mid := 64 * hi + (d - 0x80);
    c := 64 * mid + (e - 0x80);
    assert c / 64 == mid && mid / 64 == hi && hi / 64 == a - 0xF0;
    assert c / 4096 == hi && c / 262144 == a - 0xF0;
  }

  /** The first `m` bytes are the start of some character. */
  ghost predicate Starts(s: Bytes, m: nat) {
    m <= |s| && exists c: nat :: IsScalar(c) && s[..m] <= Encode(c)
  }

  lemma FittingAtLeast(s: Bytes, e: Bytes, m: nat)
    requires Whole(e) && |e| == Width(e[0]) && 1 <= m <= |s| && s[..m] <= e
    ensures Fitting(s) >= m
  {
    assert s[0] == s[..m][0] == e[0];
    if m >= 2 { assert s[1] == s[..m][1] == e[1]; }
    if m >= 3 { assert s[2] == s[..m][2] == e[2]; }
    if m >= 4 { assert s[3] == s[..m][3] == e[3]; }
  }

  /** What is needed to complete a character that is cut after its start. */
  function Completed(s: Bytes): Bytes
    requires s != []
  {
    var n, w := Fitting(s), Width(s[0]);
    var second := if s[0] == 0xE0 then 0xA0 else if s[0] == 0xF0 then 0x90 else 0x80;
    if w <= 1 || n == w then s[..n]
    else if n == 1 then [s[0], second] + [0x80, 0x80][..w - 2]
    else s[..n] + [0x80, 0x80][..w - n]
  }

  lemma CompletedWhole(s: Bytes)
    requires s != [] && Fitting(s) >= 1
    ensures Whole(Completed(s)) && |Completed(s)| == Width(s[0]) && Completed(s)[0] == s[0]
    ensures s[..Fitting(s)] <= Completed(s)
  {
  }

  /** `Fitting` is the longest stretch that starts a character. */
  lemma FittingExact(s: Bytes, m: nat)
    requires s != [] && 1 <= m <= |s|
    ensures Starts(s, m) <==> m <= Fitting(s)
  {
    if Starts(s, m) {
      var c: nat :| IsScalar(c) && s[..m] <= Encode(c);
      EncodeWhole(c, []);
      assert Encode(c) + [] == Encode(c);
      FittingAtLeast(s, Encode(c), m);
    }
    if m <= Fitting(s) {
      CompletedWhole(s);
      var e := Completed(s);
      var c := WholeEncodes(e);
      assert e[..|e|] == e;
      assert s[..m] <= s[..Fitting(s)];
    }
  }

  function EncodeAll(cs: seq<nat>): Bytes
    requires forall i | 0 <= i < |cs| :: IsScalar(cs[i])
  {
    if cs == [] then [] else Encode(cs[0]) + EncodeAll(cs[1..])
  }

  ghost predicate IsText(s: Bytes) {
    exists cs: seq<nat> :: (forall i | 0 <= i < |cs| :: IsScalar(cs[i])) && EncodeAll(cs) == s
  }

  lemma {:induction false} EncodedValid(cs: seq<nat>)
    requires forall i | 0 <= i < |cs| :: IsScalar(cs[i])
    ensures Valid(EncodeAll(cs))
  {
    if cs != [] {
      var rest := EncodeAll(cs[1..]);
      EncodedValid(cs[1..]);
      EncodeWhole(cs[0], rest);
      assert (Encode(cs[0]) + rest)[|Encode(cs[0])|..] == rest;
    }
  }

  lemma {:induction false} ValidEncoded(s: Bytes) returns (cs: seq<nat>)
    requires Valid(s)
    ensures (forall i | 0 <= i < |cs| :: IsScalar(cs[i])) && EncodeAll(cs) == s
  {
    cs := [];
    if s != [] {
      var c := WholeEncodes(s);
      var w := Width(s[0]);
      var rest := ValidEncoded(s[w..]);
      cs := [c] + rest;
      assert cs[1..] == rest && s == s[..w] + s[w..];
    }
  }

  /** Valid texts are exactly the encoded sequences of code points. */
  lemma ValidExact(s: Bytes)
    ensures Valid(s) <==> IsText(s)
  {
    if Valid(s) { var cs := ValidEncoded(s); }
    if IsText(s) {
      var cs: seq<nat> :| (forall i | 0 <= i < |cs| :: IsScalar(cs[i])) && EncodeAll(cs) == s;
      EncodedValid(cs);
    }
  }

  /** Decoding keeps a character. */
  lemma LossyCharacter(c: nat, rest: Bytes)
    requires IsScalar(c)
    ensures Lossy(Encode(c) + rest) == Encode(c) + Lossy(rest)
  {
    var s, w := Encode(c) + rest, |Encode(c)|;
    EncodeWhole(c, rest);
    assert s[..w] == Encode(c) && s[w..] == rest && s[0] == Encode(c)[0];
  }

  lemma NotWhole(s: Bytes)
    requires s != [] && forall c: nat | IsScalar(c) :: !(Encode(c) <= s)
    ensures !Whole(s)
  {
    if Whole(s) { var c := WholeEncodes(s); }
  }

  /** Where there is none, it puts U+FFFD for the longest stretch that starts a character, and
      for one byte if there is no such stretch. */
  lemma LossyOther(s: Bytes) returns (n: nat)
    requires s != [] && forall c: nat | IsScalar(c) :: !(Encode(c) <= s)
    ensures 1 <= n <= |s| && Lossy(s) == Encode(0xFFFD) + Lossy(s[n..])
    ensures (n == 1 || Starts(s, n)) && forall m | n < m <= |s| :: !Starts(s, m)
  {
    NotWhole(s);
    n := BadPart(s);
    forall m | n < m <= |s| ensures !Starts(s, m) { FittingExact(s, m); }
    if n > 1 { FittingExact(s, n); }
  }

  // ---- Texts in parts ----

  function Concat(parts: seq<Bytes>): Bytes {
    if parts == [] then [] else Concat(parts[..|parts| - 1]) + parts[|parts| - 1]
  }

  /** Each part decoded by itself. */
  function Decoded(parts: seq<Bytes>): Bytes {
    if parts == [] then [] else Decoded(parts[..|parts| - 1]) + Lossy(parts[|parts| - 1])
  }

  predicate AllValid(parts: seq<Bytes>) {
    parts == [] || (AllValid(parts[..|parts| - 1]) && Valid(parts[|parts| - 1]))
  }

  lemma {:induction false} AllValidDecoded(parts: seq<Bytes>)
    requires AllValid(parts)
    ensures Valid(Concat(parts)) && Decoded(parts) == Concat(parts)
  {
    if parts != [] {
      var n := |parts| - 1;
      AllValidDecoded(parts[..n]);
      ValidConcat(Concat(parts[..n]), parts[n]);
      LossyValid(parts[n]);
    }
  }

  lemma {:induction false} DecodedLength(parts: seq<Bytes>)
    ensures |Concat(parts)| <= |Decoded(parts)|
  {
    if parts != [] {
      DecodedLength(parts[..|parts| - 1]);
      LossyLength(parts[|parts| - 1]);
    }
  }

  /** Parts of a text that is valid with `rest` behind them are all valid, or end inside a
      character, or have grown by replacements. */
  lemma {:induction false} PartsOf(parts: seq<Bytes>, rest: Bytes)
    requires Valid(Concat(parts) + rest)
    ensures AllValid(parts) || !Valid(Concat(parts)) || |Decoded(parts)| > |Concat(parts)|
  {
    if parts != [] {
      var n := |parts| - 1;
      var before, last := Concat(parts[..n]), parts[n];
      assert before + last + rest == before + (last + rest);
      PartsOf(parts[..n], last + rest);
      DecodedLength(parts[..n]);
      LossyLength(last);
      PartStep(before, last, rest);
    }
  }

  lemma PartStep(before: Bytes, last: Bytes, rest: Bytes)
    requires Valid(before + (last + rest))
    ensures Valid(before) ==> (Valid(before + last) <==> Valid(last))
    ensures !Valid(before) ==> !Valid(before + last) || (last != [] && IsContinuation(last[0]))
  {
    if Valid(before) {
      ValidConcat(before, last);
    } else if last == [] {
      assert before + last == before;
    } else {
      CutInside(before, last + rest);
      assert (last + rest)[0] == last[0];
    }
  }

  /** Decoding a valid text part by part gives the text if and only if no part ends inside a
      character. */
  lemma DecodedExact(parts: seq<Bytes>)
    requires Valid(Concat(parts))
    ensures Decoded(parts) == Concat(parts) <==> AllValid(parts)
  {
    if AllValid(parts) {
      AllValidDecoded(parts);
    } else {
      assert Concat(parts) + [] == Concat(parts);
      PartsOf(parts, []);
    }
  }
}
