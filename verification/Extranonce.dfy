/** Splitting the 64-bit nonce space between clients by a two-byte prefix. */
module Extranonce {
  import opened Arithmetic
  import opened Bytes
  import opened Hex

  const MAX_EXTRANONCE: nat := 65535

  /** How many nonces a client has to itself: 12 digits. */
  const SLICE: nat := 0x1_0000_0000_0000

  // ---- Assignment ----

  function NextValue(v: nat): nat {
    if v < 65535 then v + 1 else 0
  }

  /** The value handed out by the `n`-th assignment when the first hands out `v`. */
  function Assigned(v: nat, n: nat): nat {
    if n == 0 then v else NextValue(Assigned(v, n - 1))
  }

  lemma {:induction false} AssignedWraps(v: nat, n: nat)
    requires v <= 65535 && n <= 65536
    ensures Assigned(v, n) == if v + n <= 65535 then v + n else v + n - 65536
  {
    if n > 0 { AssignedWraps(v, n - 1); }
  }

  lemma {:induction false} AssignedSplit(v: nat, i: nat, d: nat)
    ensures Assigned(v, i + d) == Assigned(Assigned(v, i), d)
  {
    if d > 0 { AssignedSplit(v, i, d - 1); }
  }

  lemma {:induction false} AssignedBound(v: nat, n: nat)
    requires v <= 65535
    ensures Assigned(v, n) <= 65535
  {
    if n > 0 { AssignedBound(v, n - 1); }
  }

  /** Any 65536 consecutive assignments hand out distinct values. */
  lemma AssignedDistinct(v: nat, i: nat, j: nat)
    requires v <= 65535 && i < j < i + 65536
    ensures Assigned(v, i) != Assigned(v, j)
  {
    AssignedBound(v, i);
    AssignedSplit(v, i, j - i);
    AssignedWraps(Assigned(v, i), j - i);
  }

  class ExtranonceAllocator {
    var next: nat
    ghost var count: nat

    ghost predicate Valid()
      reads this
    {
      next == Assigned(0, count)
    }

    constructor ()
      ensures Valid() && next == 0 && count == 0
    {
      next := 0;
      count := 0;
    }

    /** Bitmain miners get none; every other client gets the next value as four digits. */
    method Assign(isBitmain: bool) returns (extranonce: string)
      requires Valid()
      modifies this
      ensures Valid()
      ensures isBitmain ==> extranonce == "" && count == old(count)
      ensures !isBitmain ==> extranonce == ToHex(Assigned(0, old(count)), 4) && count == old(count) + 1
    {
      if isBitmain { return ""; }
      var value := next;
      next := if value < MAX_EXTRANONCE then value + 1 else 0;
      count := count + 1;
      extranonce := ToHex(value, 4);
    }
  }

  // ---- The submitted nonce ----

  /** The submitted text with every "0x" removed, left to right. */
  function Strip0x(s: string): (r: string)
    ensures |r| <= |s|
  {
    if |s| >= 2 && s[0] == '0' && s[1] == 'x' then Strip0x(s[2..])
    else if s == "" then ""
    else [s[0]] + Strip0x(s[1..])
  }

  /** The extranonce is put in front, with zeros between, if the nonce leaves room for it. */
  function FinalNonce(extranonce: string, nonce: string): string
    requires |extranonce| <= 16
  {
    var width := 16 - |extranonce|;
    if extranonce != "" && |nonce| <= width then extranonce + Zeros(width - |nonce|) + nonce
    else nonce
  }

  /** The text behind an optional sign. */
  function Digits(s: string): string {
    if |s| > 1 && s[0] == '+' then s[1..] else s
  }

  /** Unsigned 64-bit parsing in base 16: an optional sign, then digits, no overflow. */
  function ParseU64(s: string): Option<nat> {
    var digits := Digits(s);
    if digits == "" || !AllHex(digits) || Value(digits) >= 0x1_0000_0000_0000_0000 then None
    else Some(Value(digits))
  }

  /** A text is read as `v` if and only if it is the hexadecimal number `v` of 64 bits, with or
      without a plus sign. */
  lemma ParseExact(s: string, v: nat)
    ensures ParseU64(s) == Some(v) <==>
            && v < 0x1_0000_0000_0000_0000
            && exists d: string :: AllHex(d) && d != "" && Value(d) == v && (s == d || s == "+" + d)
  {
    if ParseU64(s) == Some(v) {
      var d := Digits(s);
      assert AllHex(d) && (s == d || s == "+" + d);
    }
    if d: string :| AllHex(d) && d != "" && Value(d) == v && (s == d || s == "+" + d) {
      assert DigitValue('+').None?;
      assert s == d ==> Digits(s) == d;
      assert s == "+" + d ==> s[1..] == d;
    }
  }

  /** Without an extranonce, as for Bitmain miners, the nonce is the number that the text writes. */
  lemma OwnNonce(nonce: string)
    requires AllHex(nonce) && nonce != ""
    ensures FinalNonce("", nonce) == nonce
    ensures SubmittedNonce("", nonce) == SubmittedNonce("", "0x" + nonce) ==
            if Value(nonce) < 0x1_0000_0000_0000_0000 then Some(Value(nonce)) else None
  {
    assert 'x' !in nonce by { assert DigitValue('x').None?; }
    StripPlain(nonce);
    StripPrefixed(nonce);
    assert DigitValue('+').None?;
  }

  lemma Pow16Twelve()
    ensures Pow16(12) == 0x1_0000_0000_0000 && Pow16(4) == 0x1_0000
  {
    assert Pow16(4) == 0x1_0000;
    assert Pow16(8) == 0x1_0000_0000;
  }

  lemma TailHex(a: string, b: string)
    requires AllHex(a + b)
    ensures AllHex(b)
  {
    forall i | 0 <= i < |b| ensures DigitValue(b[i]).Some? { assert b[i] == (a + b)[|a| + i]; }
  }

  lemma {:induction false} Pow16Add(a: nat, b: nat)
    ensures Pow16(a + b) == Pow16(a) * Pow16(b)
  {
    if b > 0 {
      Pow16Add(a, b - 1);
      assert Pow16(a) * (16 * Pow16(b - 1)) == 16 * (Pow16(a) * Pow16(b - 1));
    }
  }

  lemma FactorBound(p: nat, q: nat)
    requires p >= 1
    ensures q <= p * q
  {
  }

  lemma PowersOfTwelve(a: nat, b: nat)
    requires a + b == 12
    ensures Pow16(a) * Pow16(b) == 0x1_0000_0000_0000 && Pow16(b) <= 0x1_0000_0000_0000
  {
    Pow16Twelve();
    Pow16Add(a, b);
    FactorBound(Pow16(a), Pow16(b));
  }

  lemma SliceArithmetic(front: nat, e: nat, a: nat, b: nat)
    requires a + b == 12 && front == e * Pow16(a)
    ensures front * Pow16(b) == e * 0x1_0000_0000_0000
  {
    PowersOfTwelve(a, b);
    Associate(e, Pow16(a), Pow16(b));
  }

  /** `x` is a text of the extranonce `e` in four digits. */
  predicate IsExtranonce(x: string, e: nat) {
    |x| == 4 && AllHex(x) && Value(x) == e
  }

  /** What a client is assigned is the text of the assigned value. */
  lemma AssignedText(e: nat)
    requires e <= 65535
    ensures IsExtranonce(ToHex(e, 4), e) && LowerHex(ToHex(e, 4))
  {
    Pow16Twelve();
    ToHexValue(e, 4);
    ToHexLower(e, 4);
  }

  lemma ExtranonceBound(x: string, e: nat)
    requires IsExtranonce(x, e)
    ensures e <= 65535
  {
    Pow16Twelve();
    ValueBound(x);
  }

  lemma PaddedValue(x: string, e: nat, n: nat)
    requires IsExtranonce(x, e)
    ensures AllHex(x + Zeros(n)) && Value(x + Zeros(n)) == e * Pow16(n)
  {
    ZerosValue(n);
    ValueConcat(x, Zeros(n));
  }

  lemma JoinedValue(front: string, e: nat, nonce: string)
    requires AllHex(front) && AllHex(nonce) && |nonce| <= 12 && Value(front) == e * Pow16(12 - |nonce|)
    ensures AllHex(front + nonce) && Value(front + nonce) == e * 0x1_0000_0000_0000 + Value(nonce)
  {
    ValueConcat(front, nonce);
    SliceArithmetic(Value(front), e, 12 - |nonce|, |nonce|);
  }

  lemma FinalForm(x: string, nonce: string)
    requires |x| == 4 && |nonce| <= 12
    ensures FinalNonce(x, nonce) == x + Zeros(12 - |nonce|) + nonce
  {
  }

  lemma PaddedJoinedValue(x: string, e: nat, n: nat, nonce: string)
    requires IsExtranonce(x, e) && AllHex(nonce) && n + |nonce| == 12
    ensures AllHex(x + Zeros(n) + nonce) && Value(x + Zeros(n) + nonce) == e * 0x1_0000_0000_0000 + Value(nonce)
  {
    PaddedValue(x, e, n);
    JoinedValue(x + Zeros(n), e, nonce);
  }

  /** `x` and zeros in front of digits are worth `x` slices plus the digits. */
  lemma PrefixedValue(x: string, e: nat, nonce: string)
    requires IsExtranonce(x, e) && |nonce| <= 12 && AllHex(nonce)
    ensures var s := FinalNonce(x, nonce);
            AllHex(s) && Value(s) == e * 0x1_0000_0000_0000 + Value(nonce)
  {
    FinalForm(x, nonce);
    PaddedJoinedValue(x, e, 12 - |nonce|, nonce);
  }

  lemma ShortValue(nonce: string)
    requires |nonce| <= 12 && AllHex(nonce)
    ensures Value(nonce) < 0x1_0000_0000_0000
  {
    ValueBound(nonce);
    PowersOfTwelve(12 - |nonce|, |nonce|);
  }

  lemma ParseDigits(s: string)
    requires s != "" && s[0] != '+' && AllHex(s) && Value(s) < 0x1_0000_0000_0000_0000
    ensures ParseU64(s) == Some(Value(s))
  {
  }

  lemma ParseRefuses(s: string)
    requires s != "" && s[0] != '+' && !AllHex(s)
    ensures ParseU64(s) == None
  {
  }

  lemma NoSign(x: string, nonce: string)
    requires |x| == 4 && AllHex(x) && |nonce| <= 12
    ensures var s := FinalNonce(x, nonce); s != "" && s[0] != '+'
  {
    assert FinalNonce(x, nonce)[0] == x[0];
  }

  lemma NonDigitStays(x: string, nonce: string)
    requires |x| == 4 && |nonce| <= 12 && !AllHex(nonce)
    ensures !AllHex(FinalNonce(x, nonce))
  {
    var front := x + Zeros(12 - |nonce|);
    if AllHex(front + nonce) { TailHex(front, nonce); }
  }

  lemma DigitsAccepted(x: string, e: nat, nonce: string)
    requires IsExtranonce(x, e) && |nonce| <= 12 && AllHex(nonce)
    ensures ParseU64(FinalNonce(x, nonce)) == Some(e * 0x1_0000_0000_0000 + Value(nonce))
  {
    NoSign(x, nonce);
    PrefixedValue(x, e, nonce);
    ShortValue(nonce);
    ExtranonceBound(x, e);
    ParseDigits(FinalNonce(x, nonce));
  }

  /** A nonce of at most 12 digits lands in the client's own slice of the nonce space;
      anything but digits is refused. */
  lemma NonceInSlice(x: string, e: nat, nonce: string)
    requires IsExtranonce(x, e) && |nonce| <= 12
    ensures ParseU64(FinalNonce(x, nonce)) ==
            if AllHex(nonce) then Some(e * 0x1_0000_0000_0000 + Value(nonce)) else None
  {
    if AllHex(nonce) {
      DigitsAccepted(x, e, nonce);
    } else {
      NoSign(x, nonce);
      NonDigitStays(x, nonce);
      ParseRefuses(FinalNonce(x, nonce));
    }
  }

  /** Two clients among 65536 consecutive assignments never produce the same nonce. */
  lemma SlicesDisjoint(i: nat, x: string, m: string, j: nat, y: string, n: string)
    requires i < j < i + 65536 && |m| <= 12 && |n| <= 12 && AllHex(m) && AllHex(n)
    requires IsExtranonce(x, Assigned(0, i)) && IsExtranonce(y, Assigned(0, j))
    ensures ParseU64(FinalNonce(x, m)).Some? && ParseU64(FinalNonce(x, m)) != ParseU64(FinalNonce(y, n))
  {
    AssignedDistinct(0, i, j);
    NonceInSlice(x, Assigned(0, i), m);
    NonceInSlice(y, Assigned(0, j), n);
    ShortValue(m);
    ShortValue(n);
  }

  /** The slice that a text names by itself: what stands before its last 12 digits. */
  function NamedSlice(nonce: string): nat
    requires AllHex(Digits(nonce))
  {
    var d := Digits(nonce);
    if |d| <= 12 then 0 else Value(d[..|d| - 12])
  }

  lemma NamedSliceOf(d: string)
    requires AllHex(d)
    ensures Value(d) / SLICE == if |d| <= 12 then 0 else Value(d[..|d| - 12])
  {
    var n := |d| - 12;
    if n <= 0 {
      ShortValue(d);
    } else {
      assert d == d[..n] + d[n..];
      ValueConcat(d[..n], d[n..]);
      Pow16Twelve();
      ShortValue(d[n..]);
      SliceOf(Value(d[..n]), Value(d[n..]));
    }
  }

  /** A nonce lands in the client's own slice if and only if its text has at most 12 characters
      or itself starts with the number of that slice. */
  lemma SliceExact(x: string, e: nat, nonce: string, v: nat)
    requires IsExtranonce(x, e) && ParseU64(FinalNonce(x, nonce)) == Some(v)
    ensures v / SLICE == e <==> |nonce| <= 12 || (AllHex(Digits(nonce)) && NamedSlice(nonce) == e)
  {
    if |nonce| <= 12 {
      NonceInSlice(x, e, nonce);
      ShortValue(nonce);
      SliceOf(e, Value(nonce));
    } else {
      NamedSliceOf(Digits(nonce));
    }
  }

  lemma SliceOf(e: nat, v: nat)
    requires v < SLICE
    ensures (e * SLICE + v) / SLICE == e
  {
  }

  /** Any client can name any other client's nonce: written out in 16 digits it is the same
      nonce for both. */
  lemma OtherSliceReachable(x: string, e: nat, y: string, f: nat, nonce: string)
    requires IsExtranonce(x, e) && IsExtranonce(y, f) && |nonce| <= 12 && AllHex(nonce)
    ensures var text := FinalNonce(y, nonce);
            ParseU64(FinalNonce(x, text)) == ParseU64(text) == Some(f * SLICE + Value(nonce))
  {
    FinalForm(y, nonce);
    NonceInSlice(y, f, nonce);
  }

  /** The nonce a submission carries, or the refusal of its text. */
  function SubmittedNonce(extranonce: string, text: string): Option<nat>
    requires |extranonce| <= 16
  {
    ParseU64(FinalNonce(extranonce, Strip0x(text)))
  }

  /** "0x" starts at `p`. */
  predicate PrefixAt(s: string, p: nat) {
    p + 2 <= |s| && s[p] == '0' && s[p + 1] == 'x'
  }

  lemma StripSkips(s: string)
    requires s != "" && !PrefixAt(s, 0)
    ensures Strip0x(s) == [s[0]] + Strip0x(s[1..])
  {
  }

  lemma LaterPrefix(s: string, q: nat)
    requires s != ""
    ensures PrefixAt(s[1..], q) <==> PrefixAt(s, q + 1)
  {
  }

  lemma Rejoin(s: string, p: nat, rest: string)
    requires 1 <= p <= |s|
    ensures [s[0]] + (s[1..][..p - 1] + rest) == s[..p] + rest && [s[0]] + s[1..] == s
  {
  }

  /** Text without "0x" stays as it is; otherwise the first one goes, and so on behind it. */
  lemma {:induction false} StripExact(s: string, p: nat)
    requires p <= |s| && (p < |s| ==> PrefixAt(s, p)) && forall q | 0 <= q < p :: !PrefixAt(s, q)
    ensures Strip0x(s) == if p == |s| then s else s[..p] + Strip0x(s[p + 2..])
  {
    if p == 0 {
      assert s[..0] == "";
    } else {
      assert !PrefixAt(s, 0);
      StripSkips(s);
      forall q | 0 <= q < p - 1 ensures !PrefixAt(s[1..], q) { LaterPrefix(s, q); }
      LaterPrefix(s, p - 1);
      StripExact(s[1..], p - 1);
      Rejoin(s, p, if p < |s| then Strip0x(s[p + 2..]) else "");
      if p < |s| { assert s[1..][p + 1..] == s[p + 2..]; }
    }
  }

  lemma {:induction false} StripPlain(s: string)
    requires 'x' !in s
    ensures Strip0x(s) == s
  {
    if s != "" {
      assert s == [s[0]] + s[1..];
      StripPlain(s[1..]);
    }
  }

  lemma StripPrefixed(s: string)
    requires 'x' !in s
    ensures Strip0x("0x" + s) == s
  {
    assert ("0x" + s)[2..] == s;
    StripPlain(s);
  }

  /** With or without "0x" in front, digits are read as the number they write. */
  lemma SubmittedInSlice(x: string, e: nat, nonce: string)
    requires IsExtranonce(x, e) && |nonce| <= 12 && AllHex(nonce)
    ensures SubmittedNonce(x, nonce) == Some(e * 0x1_0000_0000_0000 + Value(nonce))
    ensures SubmittedNonce(x, "0x" + nonce) == Some(e * 0x1_0000_0000_0000 + Value(nonce))
  {
    assert 'x' !in nonce by { assert DigitValue('x').None?; }
    StripPlain(nonce);
    StripPrefixed(nonce);
    NonceInSlice(x, e, nonce);
  }

  // ---- The duplicate key ----

  lemma FinalHex(x: string, e: nat, nonce: string)
    requires IsExtranonce(x, e) && AllHex(nonce) && nonce != ""
    ensures AllHex(FinalNonce(x, nonce)) && FinalNonce(x, nonce) != ""
    ensures |FinalNonce(x, nonce)| == if |nonce| <= 12 then 16 else |nonce|
  {
    if |nonce| <= 12 {
      FinalForm(x, nonce);
      PrefixedValue(x, e, nonce);
    }
  }

  lemma ParsedValue(s: string)
    requires AllHex(s) && s != "" && ParseU64(s).Some?
    ensures ParseU64(s) == Some(Value(s))
  {
    assert DigitValue('+').None?;
  }

  /** For one client, the text in the duplicate key is the same for two hexadecimal nonces if and
      only if the texts are equally long after padding, carry the same nonce, and have
      small and capital letters in the same places. */
  lemma KeyExact(x: string, e: nat, m: string, n: string)
    requires IsExtranonce(x, e) && AllHex(m) && AllHex(n) && m != "" && n != ""
    requires ParseU64(FinalNonce(x, m)).Some? && ParseU64(FinalNonce(x, n)).Some?
    ensures var a, b := FinalNonce(x, m), FinalNonce(x, n);
            a == b <==> |a| == |b| && ParseU64(a) == ParseU64(b) && SameCase(a, b)
    ensures |m| <= 12 && |n| <= 12 ==> |FinalNonce(x, m)| == |FinalNonce(x, n)|
  {
    FinalHex(x, e, m);
    FinalHex(x, e, n);
    ParsedValue(FinalNonce(x, m));
    ParsedValue(FinalNonce(x, n));
    TextExact(FinalNonce(x, m), FinalNonce(x, n));
  }

  lemma FinalLower(x: string, nonce: string)
    requires |x| == 4 && LowerHex(x) && |nonce| <= 12 && LowerHex(nonce)
    ensures LowerHex(FinalNonce(x, nonce)) && |FinalNonce(x, nonce)| == 16
  {
    FinalForm(x, nonce);
    assert LowerHex(Zeros(12 - |nonce|));
  }

  /** So for lower-case nonces of at most 12 digits the key names the nonce: two submissions
      share it if and only if they carry the same nonce. */
  lemma KeyNamesNonce(x: string, e: nat, m: string, n: string)
    requires IsExtranonce(x, e) && LowerHex(x) && |m| <= 12 && |n| <= 12 && LowerHex(m) && LowerHex(n)
    ensures FinalNonce(x, m) == FinalNonce(x, n) <==> ParseU64(FinalNonce(x, m)) == ParseU64(FinalNonce(x, n))
  {
    LowerIsHex(m);
    LowerIsHex(n);
    NonceInSlice(x, e, m);
    NonceInSlice(x, e, n);
    PrefixedValue(x, e, m);
    PrefixedValue(x, e, n);
    FinalLower(x, m);
    FinalLower(x, n);
    TextExact(FinalNonce(x, m), FinalNonce(x, n));
  }

  lemma DigitAlone(s: string)
    requires |s| == 1 && DigitValue(s[0]).Some?
    ensures AllHex(s) && Value(s) == DigitValue(s[0]).value
  {
    assert s[..0] == "";
  }

  lemma OneDigitNonce(x: string, e: nat, c: char)
    requires IsExtranonce(x, e) && DigitValue(c).Some?
    ensures var s := FinalNonce(x, [c]);
            |s| == 16 && s[15] == c && ParseU64(s) == Some(e * 0x1_0000_0000_0000 + DigitValue(c).value)
  {
    DigitAlone([c]);
    NonceInSlice(x, e, [c]);
  }

  /** The case of a digit is part of the key but not of the nonce. */
  lemma CaseSplitsKey(x: string, e: nat)
    requires IsExtranonce(x, e)
    ensures FinalNonce(x, ['a']) != FinalNonce(x, ['A'])
    ensures ParseU64(FinalNonce(x, ['a'])) == ParseU64(FinalNonce(x, ['A']))
  {
    OneDigitNonce(x, e, 'a');
    OneDigitNonce(x, e, 'A');
  }
}
