/** The job texts sent to miners: a 32-byte pre-proof-of-work hash and a timestamp in hexadecimal. */
module JobParams {
  import opened Arithmetic
  import opened Bytes
  import opened Hex

  // ---- Byte order ----

  function FromBe(b: Bytes): nat {
    if b == [] then 0 else FromBe(b[..|b| - 1]) * 256 + b[|b| - 1]
  }

  function FromLe(b: Bytes): nat {
    if b == [] then 0 else FromLe(b[1..]) * 256 + b[0]
  }

  function ToBe(v: nat, n: nat): (b: Bytes)
    ensures |b| == n
  {
    if n == 0 then [] else ToBe(v / 256, n - 1) + [v % 256]
  }

  function ToLe(v: nat, n: nat): (b: Bytes)
    ensures |b| == n
  {
    if n == 0 then [] else [v % 256] + ToLe(v / 256, n - 1)
  }

  function Rev(b: Bytes): (r: Bytes)
    ensures |r| == |b|
  {
    if b == [] then [] else Rev(b[1..]) + [b[0]]
  }

  function Pow256(n: nat): (r: nat)
    ensures r >= 1
  {
    if n == 0 then 1 else 256 * Pow256(n - 1)
  }

  lemma {:induction false} RevSnoc(b: Bytes, x: Byte)
    ensures Rev(b + [x]) == [x] + Rev(b)
  {
    if b != [] {
      assert (b + [x])[1..] == b[1..] + [x];
      RevSnoc(b[1..], x);
    }
  }

  lemma {:induction false} RevToBe(v: nat, n: nat)
    ensures Rev(ToBe(v, n)) == ToLe(v, n)
  {
    if n > 0 {
      RevSnoc(ToBe(v / 256, n - 1), v % 256);
      RevToBe(v / 256, n - 1);
    }
  }

  lemma {:induction false} FromLeRev(b: Bytes)
    ensures FromLe(b) == FromBe(Rev(b))
  {
    if b != [] {
      FromLeRev(b[1..]);
      assert Rev(b)[..|b| - 1] == Rev(b[1..]);
    }
  }

  lemma {:induction false} LeRoundTrip(v: nat, n: nat)
    requires v < Pow256(n)
    ensures FromLe(ToLe(v, n)) == v
  {
    if n > 0 {
      LeRoundTrip(v / 256, n - 1);
      assert ToLe(v, n)[1..] == ToLe(v / 256, n - 1);
    }
  }

  lemma {:induction false} LeWord(b: Bytes)
    ensures ToLe(FromLe(b), |b|) == b
  {
    if b != [] {
      LeWord(b[1..]);
      assert FromLe(b) / 256 == FromLe(b[1..]) && FromLe(b) % 256 == b[0];
      assert b == [b[0]] + b[1..];
    }
  }

  // ---- Hexadecimal bytes ----

  function HexOf(b: Bytes): (s: string)
    ensures |s| == 2 * |b|
  {
    if b == [] then "" else HexOf(b[..|b| - 1]) + ToHex(b[|b| - 1], 2)
  }

  lemma {:induction false} HexOfConcat(a: Bytes, b: Bytes)
    ensures HexOf(a + b) == HexOf(a) + HexOf(b)
  {
    if b == [] {
      assert a + b == a;
    } else {
      var n := |b| - 1;
      assert (a + b)[..|a| + n] == a + b[..n];
      HexOfConcat(a, b[..n]);
    }
  }

  lemma ToHexByte(v: nat, x: Byte, width: nat)
    ensures ToHex(v * 256 + x, width + 2) == ToHex(v, width) + ToHex(x, 2)
  {
    var w := v * 256 + x;
    assert w / 16 == v * 16 + x / 16 && w % 16 == x % 16;
    assert w / 16 / 16 == v && w / 16 % 16 == x / 16;
    assert ToHex(x, 2) == [Digit(x / 16), Digit(x % 16)];
  }

  /** A big-endian word prints as its bytes do. */
  lemma {:induction false} HexOfWord(b: Bytes)
    ensures ToHex(FromBe(b), 2 * |b|) == HexOf(b)
  {
    if b != [] {
      var n := |b| - 1;
      HexOfWord(b[..n]);
      ToHexByte(FromBe(b[..n]), b[n], 2 * n);
    }
  }

  function Unhex(s: string): Bytes
    requires AllHex(s) && |s| % 2 == 0
  {
    if s == "" then []
    else
      var n := |s| - 2;
      ValueBound(s[n..]);
      assert Pow16(2) == 256;
      Unhex(s[..n]) + [Value(s[n..])]
  }

  lemma {:induction false} UnhexRoundTrip(b: Bytes)
    ensures AllHex(HexOf(b)) && Unhex(HexOf(b)) == b
  {
    if b != [] {
      var n := |b| - 1;
      var s := HexOf(b);
      UnhexRoundTrip(b[..n]);
      assert Pow16(2) == 256;
      ToHexValue(b[n], 2);
      assert s[..2 * n] == HexOf(b[..n]) && s[2 * n..] == ToHex(b[n], 2);
    }
  }

  /** Byte `i` of a little-endian number has weight 256^i. */
  lemma {:induction false} LeByte(v: nat, n: nat, i: nat)
    requires i < n
    ensures ToLe(v, n)[i] == v / Pow256(i) % 256
  {
    if i > 0 {
      LeByte(v / 256, n - 1, i - 1);
      DivTwice(v, Pow256(i - 1));
    }
  }

  /** Two digits for every byte, the upper half first. */
  lemma {:induction false} HexOfAt(b: Bytes, i: nat)
    requires i < |b|
    ensures HexOf(b)[2 * i] == Digit(b[i] / 16) && HexOf(b)[2 * i + 1] == Digit(b[i] % 16)
  {
    var n := |b| - 1;
    if i < n {
      HexOfAt(b[..n], i);
    } else {
      assert ToHex(b[n], 2) == [Digit(b[n] / 16), Digit(b[n] % 16)];
    }
  }

  // ---- The job texts ----

  const HASH_BYTES: nat := 32

  /** The hash in 64 digits, then the little-endian timestamp in 16. */
  function IceRiverParams(hash: Bytes, timestamp: nat): string {
    HexOf(hash) + HexOf(ToLe(timestamp, 8))
  }

  /** A miner gets the hash and the timestamp back from the text. */
  lemma ParamsRoundTrip(hash: Bytes, timestamp: nat)
    requires |hash| == HASH_BYTES && timestamp < Pow256(8)
    ensures var s := IceRiverParams(hash, timestamp);
            && |s| == 80 && AllHex(s[..64]) && AllHex(s[64..])
            && Unhex(s[..64]) == hash
            && FromLe(Unhex(s[64..])) == timestamp
  {
    var s := IceRiverParams(hash, timestamp);
    UnhexRoundTrip(hash);
    UnhexRoundTrip(ToLe(timestamp, 8));
    LeRoundTrip(timestamp, 8);
    assert s[..64] == HexOf(hash) && s[64..] == HexOf(ToLe(timestamp, 8));
  }

  /** Digit by digit: the hash byte by byte, then the timestamp's bytes from the lowest up. */
  lemma ParamsDigits(hash: Bytes, timestamp: nat, i: nat, b: Byte)
    requires |hash| == 32 && i < 40 && b == if i < 32 then hash[i] else timestamp / Pow256(i - 32) % 256
    ensures var s := IceRiverParams(hash, timestamp);
            |s| == 80 && s[2 * i] == "0123456789abcdef"[b / 16] && s[2 * i + 1] == "0123456789abcdef"[b % 16]
  {
    if i < 32 {
      HexOfAt(hash, i);
    } else {
      LeByte(timestamp, 8, i - 32);
      HexOfAt(ToLe(timestamp, 8), i - 32);
    }
  }

  /** Reading the big-endian timestamp bytes as a little-endian word swaps them. */
  lemma SwappedTimestamp(timestamp: nat)
    ensures ToHex(FromLe(ToBe(timestamp, 8)), 16) == HexOf(ToLe(timestamp, 8))
  {
    var b := ToBe(timestamp, 8);
    FromLeRev(b);
    RevToBe(timestamp, 8);
    HexOfWord(Rev(b));
  }

  lemma WordDigits(hash: Bytes)
    requires |hash| >= HASH_BYTES
    ensures HexOf(hash[..32]) ==
            ToHex(FromBe(hash[0..8]), 16) + ToHex(FromBe(hash[8..16]), 16) +
            ToHex(FromBe(hash[16..24]), 16) + ToHex(FromBe(hash[24..32]), 16)
  {
    HexOfWord(hash[0..8]);
    HexOfWord(hash[8..16]);
    HexOfWord(hash[16..24]);
    HexOfWord(hash[24..32]);
    HexOfConcat(hash[0..8], hash[8..16]);
    HexOfConcat(hash[0..16], hash[16..24]);
    HexOfConcat(hash[0..24], hash[24..32]);
    assert hash[0..8] + hash[8..16] == hash[0..16];
    assert hash[0..16] + hash[16..24] == hash[0..24];
    assert hash[0..24] + hash[24..32] == hash[..32];
  }

  /** Five words in hexadecimal; `None` is the out-of-range index of a short header. */
  method GenerateLargeJobParams(header: Bytes, timestamp: nat) returns (r: Option<string>)
    ensures r == if |header| < HASH_BYTES then None else Some(IceRiverParams(header[..32], timestamp))
  {
    var ids := [];
    for i := 0 to 4
      invariant |ids| <= i && 8 * |ids| <= |header|
      invariant |ids| < i ==> |header| < 8 * |ids| + 8
      invariant forall k | 0 <= k < |ids| :: ids[k] == FromBe(header[8 * k..8 * k + 8])
    {
      var offset := i * 8;
      if offset + 8 <= |header| { ids := ids + [FromBe(header[offset..offset + 8])]; }
    }
    ids := ids + [FromLe(ToBe(timestamp, 8))];
    if |ids| < 5 { return None; }
    SwappedTimestamp(timestamp);
    WordDigits(header);
    r := Some(ToHex(ids[0], 16) + ToHex(ids[1], 16) + ToHex(ids[2], 16) + ToHex(ids[3], 16) + ToHex(ids[4], 16));
  }

  function LeBytes(ids: seq<nat>): Bytes {
    if ids == [] then [] else LeBytes(ids[..|ids| - 1]) + ToLe(ids[|ids| - 1], 8)
  }

  lemma LeBytesSnoc(ids: seq<nat>, word: Bytes)
    requires |word| == 8
    ensures LeBytes(ids + [FromLe(word)]) == LeBytes(ids) + word
  {
    LeWord(word);
    assert (ids + [FromLe(word)])[..|ids|] == ids;
  }

  /** The whole 8-byte words among the first four, little-endian: their bytes are the header's. */
  method GenerateJobHeader(header: Bytes) returns (ids: seq<nat>)
    ensures |ids| == if |header| >= HASH_BYTES then 4 else |header| / 8
    ensures LeBytes(ids) == header[..8 * |ids|]
  {
    ids := [];
    for i := 0 to 4
      invariant |ids| <= i && 8 * |ids| <= |header|
      invariant |ids| < i ==> |header| < 8 * |ids| + 8
      invariant LeBytes(ids) == header[..8 * |ids|]
    {
      var offset := i * 8;
      if offset + 8 <= |header| {
        var word := header[offset..offset + 8];
        LeBytesSnoc(ids, word);
        ids := ids + [FromLe(word)];
        assert header[..offset] + word == header[..offset + 8];
      }
    }
  }
}
