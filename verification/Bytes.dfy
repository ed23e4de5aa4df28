/** Byte strings in the order the database keeps them, and the half-open
    interval that a prefix scan or a range delete covers. */
module Bytes {
  type Byte = x: int | 0 <= x < 256

  type Bytes = seq<Byte>

  datatype Option<+T> = None | Some(value: T)

  /** Bytewise lexicographic order, a proper prefix first. */
  predicate Less(a: Bytes, b: Bytes) {
    if b == [] then false
    else if a == [] then true
    else a[0] < b[0] || (a[0] == b[0] && Less(a[1..], b[1..]))
  }

  predicate InRange(k: Bytes, from: Bytes, to: Bytes) {
    !Less(k, from) && Less(k, to)
  }

  /** The upper bound of a prefix range: strip trailing 0xFF bytes, increment
      the last byte left.  There is none for the empty string and for 0xFF..FF. */
  function NextPrefix(p: Bytes): (r: Option<Bytes>) {
    if p == [] then None
    else
      var n := |p| - 1;
      if p[n] == 255 then NextPrefix(p[..n]) else Some(p[..n] + [p[n] + 1])
  }

  lemma {:induction false} LessTotal(a: Bytes, b: Bytes)
    ensures Less(a, b) || a == b || Less(b, a)
  {
    if a != [] && b != [] {
      LessTotal(a[1..], b[1..]);
      assert a == [a[0]] + a[1..] && b == [b[0]] + b[1..];
    }
  }

  lemma {:induction false} LessIrreflexive(a: Bytes)
    ensures !Less(a, a)
  {
    if a != [] { LessIrreflexive(a[1..]); }
  }

  lemma {:induction false} LessTransitive(a: Bytes, b: Bytes, c: Bytes)
    requires Less(a, b) && Less(b, c)
    ensures Less(a, c)
  {
    if a != [] && a[0] == b[0] == c[0] { LessTransitive(a[1..], b[1..], c[1..]); }
  }

  /** The order looks past a common prefix. */
  lemma {:induction false} LessUnderPrefix(p: Bytes, a: Bytes, b: Bytes)
    ensures Less(p + a, p + b) == Less(a, b)
  {
    if p == [] {
      assert p + a == a && p + b == b;
    } else {
      assert (p + a)[1..] == p[1..] + a && (p + b)[1..] == p[1..] + b;
      LessUnderPrefix(p[1..], a, b);
    }
  }

  lemma ExtensionNotLess(p: Bytes, s: Bytes)
    requires p <= s
    ensures !Less(s, p)
  {
    assert s == p + s[|p|..] && p == p + [];
    LessUnderPrefix(p, s[|p|..], []);
  }

  /** The strings between `p + [b]` and `p + [b + 1]` are the extensions of `p + [b]`. */
  lemma {:induction false} LastByteInterval(p: Bytes, b: Byte, s: Bytes)
    requires b < 255
    ensures p + [b] <= s <==> InRange(s, p + [b], p + [b + 1])
  {
    if p == [] {
      assert p + [b] == [b] && p + [b + 1] == [b + 1];
      if s != [] {
        assert Less(s[1..], []) == false;
      }
    } else if s != [] {
      var t := p[1..];
      assert (p + [b])[1..] == t + [b] && (p + [b + 1])[1..] == t + [b + 1];
      LastByteInterval(t, b, s[1..]);
      if s[0] == p[0] {
        assert p + [b] == [p[0]] + (t + [b]) && s == [s[0]] + s[1..];
        assert p + [b] <= s <==> t + [b] <= s[1..];
      }
    }
  }

  /** A 0xFF tail adds nothing to the upper bound. */
  lemma {:induction false} FullByteInterval(p: Bytes, s: Bytes)
    requires p <= s
    ensures p + [255] <= s <==> !Less(s, p + [255])
  {
    var t := s[|p|..];
    assert s == p + t;
    LessUnderPrefix(p, t, [255]);
    if t != [] {
      assert !Less(t[1..], []);
      assert p + [255] <= s <==> t[0] == 255;
    }
  }

  /** `[p, NextPrefix(p))` holds exactly the extensions of `p`; when there is no
      bound, the extensions of a non-empty `p` are everything not below it. */
  lemma {:induction false} PrefixInterval(p: Bytes, s: Bytes)
    requires p != []
    ensures p <= s <==>
            !Less(s, p) && (NextPrefix(p).Some? ==> Less(s, NextPrefix(p).value))
  {
    var n := |p| - 1;
    var q := p[..n];
    assert p == q + [p[n]];
    if p[n] < 255 {
      LastByteInterval(q, p[n], s);
    } else if q == [] {
      if s != [] { FullByteInterval([], s); }
    } else {
      PrefixInterval(q, s);
      if q <= s {
        FullByteInterval(q, s);
      } else if !Less(s, p) {
        if Less(s, q) {
          ExtensionNotLess(q, p);
          LessTotal(q, p);
          if q != p { LessTransitive(s, q, p); }
        }
      }
    }
  }

  /** Two strings of one length that share an extension are equal. */
  lemma SameLengthPrefixes(a: Bytes, b: Bytes, s: Bytes)
    requires |a| == |b| && a <= s && b <= s
    ensures a == b
  {
    assert a == s[..|a|] && b == s[..|b|];
  }

  /** A bound of a store prefix gives a bound to every longer prefix. */
  lemma {:induction false} NextPrefixExtends(p: Bytes, q: Bytes)
    requires NextPrefix(p).Some?
    ensures NextPrefix(p + q).Some?
  {
    if q == [] {
      assert p + q == p;
    } else {
      var n := |q| - 1;
      assert (p + q)[..|p + q| - 1] == p + q[..n];
      NextPrefixExtends(p, q[..n]);
    }
  }
}
