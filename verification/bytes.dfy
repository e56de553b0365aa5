/**
 Bytes as the JVM and LMDB see them: unsigned octets in storage, Java's signed `byte`
 and `long` on reads, big-endian `ByteBuffer.putLong`/`getLong`, and the memcmp order
 LMDB uses to sort keys.
 */
module Bytes {

  /** One octet, as stored in a buffer. */
  type uint8 = x: int | 0 <= x < 256

  /** A Java `long`. */
  type Long = x: int | -0x8000_0000_0000_0000 <= x < 0x8000_0000_0000_0000

  const TwoTo64: nat := 0x1_0000_0000_0000_0000

  /** Java's signed reading of an octet (`ByteBuffer.get()` returns a signed `byte`). */
  function SignedByte(b: uint8): (r: int)
    ensures -128 <= r < 128
    ensures r % 256 == b
  {
    if b < 128 then b else b - 256
  }

  /** The octet Java stores for `(byte) n`: the low eight bits of `n`. */
  function LowByte(n: int): (r: uint8)
    ensures (r - n) % 256 == 0
  {
    n % 256
  }

  lemma LowByteOfOctet(b: uint8)
    ensures LowByte(b) == b
  {
  }

  /** The two's-complement bit pattern of a `long`, read as an unsigned number. */
  function Unsigned64(x: Long): (u: nat)
    ensures u < TwoTo64
    ensures (u - x) % TwoTo64 == 0
  {
    if x < 0 then x + TwoTo64 else x
  }

  /** The `long` whose bit pattern is `u`. */
  function Signed64(u: nat): (x: Long)
    requires u < TwoTo64
    ensures Unsigned64(x) == u
  {
    if u < TwoTo64 / 2 then u else u - TwoTo64
  }

  lemma SignedUnsigned64(x: Long)
    ensures Signed64(Unsigned64(x)) == x
  {
  }

  /** Quotient and remainder are the only pair with `a == q * n + r` and `0 <= r < n`. */
  lemma DivModUnique(a: int, n: int, q: int, r: int)
    requires n >= 1 && 0 <= r < n && a == q * n + r
    ensures a / n == q && a % n == r
  {
    var q', r' := a / n, a % n;
    assert a == q' * n + r';
    var d := q - q';
    assert d * n == q * n - q' * n;
    assert d * n == r' - r;
    assert d == 0;
  }

  function Pow256(n: nat): nat
  {
    if n == 0 then 1 else 256 * Pow256(n - 1)
  }

  /** `width` octets holding `u`, most significant first. */
  function ToBigEndian(u: nat, width: nat): (bs: seq<uint8>)
    requires u < Pow256(width)
    ensures |bs| == width
    decreases width
  {
    if width == 0 then []
    else
      assert u / 256 < Pow256(width - 1);
      ToBigEndian(u / 256, width - 1) + [u % 256]
  }

  /** The unsigned number spelled by `bs`, most significant octet first. */
  function FromBigEndian(bs: seq<uint8>): (u: nat)
    ensures u < Pow256(|bs|)
  {
    if |bs| == 0 then 0
    else
      var hi := FromBigEndian(bs[..|bs| - 1]);
      assert hi * 256 + bs[|bs| - 1] < Pow256(|bs|) by {
        assert hi + 1 <= Pow256(|bs| - 1);
        assert (hi + 1) * 256 <= Pow256(|bs| - 1) * 256;
      }
      hi * 256 + bs[|bs| - 1]
  }

  lemma {:induction false} FromToBigEndian(u: nat, width: nat)
    requires u < Pow256(width)
    ensures FromBigEndian(ToBigEndian(u, width)) == u
    decreases width
  {
    if width > 0 {
      var bs := ToBigEndian(u, width);
      assert bs[..|bs| - 1] == ToBigEndian(u / 256, width - 1);
      FromToBigEndian(u / 256, width - 1);
    }
  }

  lemma {:induction false} ToFromBigEndian(bs: seq<uint8>)
    ensures ToBigEndian(FromBigEndian(bs), |bs|) == bs
  {
    if |bs| > 0 {
      var init := bs[..|bs| - 1];
      var u := FromBigEndian(bs);
      assert u / 256 == FromBigEndian(init) && u % 256 == bs[|bs| - 1];
      ToFromBigEndian(init);
      assert init + [bs[|bs| - 1]] == bs;
    }
  }

  /** `ByteBuffer.putLong`: the eight big-endian octets of the two's-complement pattern. */
  function LongToBytes(x: Long): (bs: seq<uint8>)
    ensures |bs| == 8
    ensures FromBigEndian(bs) == Unsigned64(x)
  {
    assert Pow256(8) == TwoTo64;
    FromToBigEndian(Unsigned64(x), 8);
    ToBigEndian(Unsigned64(x), 8)
  }

  /** `ByteBuffer.getLong` on eight octets: the `long` whose `putLong` octets they are. */
  function BytesToLong(bs: seq<uint8>): (x: Long)
    requires |bs| == 8
    ensures LongToBytes(x) == bs
  {
    assert Pow256(8) == TwoTo64;
    ToFromBigEndian(bs);
    Signed64(FromBigEndian(bs))
  }

  /** Reading back what `putLong` wrote gives the same `long`, and every eight octets are a `long`. */
  lemma LongRoundTrip(x: Long, bs: seq<uint8>)
    requires |bs| == 8
    ensures BytesToLong(LongToBytes(x)) == x
    ensures LongToBytes(BytesToLong(bs)) == bs
  {
    assert Pow256(8) == TwoTo64;
    FromToBigEndian(Unsigned64(x), 8);
    ToFromBigEndian(bs);
  }

  // ---------------------------------------------------------------------------------------
  // memcmp order, LMDB's default key comparator: the first differing octet decides, and a
  // proper prefix sorts first.

  predicate LexLess(a: seq<uint8>, b: seq<uint8>)
  {
    if |a| == 0 then |b| > 0
    else if |b| == 0 then false
    else a[0] < b[0] || (a[0] == b[0] && LexLess(a[1..], b[1..]))
  }

  lemma {:induction false} LexLessIrreflexive(a: seq<uint8>)
    ensures !LexLess(a, a)
  {
    if |a| > 0 {
      LexLessIrreflexive(a[1..]);
    }
  }

  lemma {:induction false} LexLessAsymmetric(a: seq<uint8>, b: seq<uint8>)
    requires LexLess(a, b)
    ensures !LexLess(b, a)
  {
    if |a| > 0 && |b| > 0 && a[0] == b[0] {
      LexLessAsymmetric(a[1..], b[1..]);
    }
  }

  lemma {:induction false} LexLessTransitive(a: seq<uint8>, b: seq<uint8>, c: seq<uint8>)
    requires LexLess(a, b) && LexLess(b, c)
    ensures LexLess(a, c)
  {
    if |a| > 0 && a[0] == b[0] && b[0] == c[0] {
      LexLessTransitive(a[1..], b[1..], c[1..]);
    }
  }

  lemma {:induction false} LexLessTotal(a: seq<uint8>, b: seq<uint8>)
    requires a != b
    ensures LexLess(a, b) || LexLess(b, a)
  {
    if |a| > 0 && |b| > 0 && a[0] == b[0] {
      assert a == [a[0]] + a[1..] && b == [b[0]] + b[1..];
      LexLessTotal(a[1..], b[1..]);
    }
  }

  /** Comparing two concatenations whose first parts have the same length: the first parts
      decide unless they are equal, and then the second parts do. */
  lemma {:induction false} LexLessAppend(a: seq<uint8>, b: seq<uint8>, c: seq<uint8>, d: seq<uint8>)
    requires |a| == |c|
    ensures LexLess(a + b, c + d) <==> LexLess(a, c) || (a == c && LexLess(b, d))
  {
    if |a| == 0 {
      assert a + b == b && c + d == d;
    } else {
      assert (a + b)[1..] == a[1..] + b && (c + d)[1..] == c[1..] + d;
      LexLessAppend(a[1..], b, c[1..], d);
      if a[0] == c[0] && a[1..] == c[1..] {
        assert a == c by {
          assert a == [a[0]] + a[1..] && c == [c[0]] + c[1..];
        }
      }
    }
  }

  /** On fixed-width big-endian octets, memcmp order is numeric order. */
  lemma {:induction false} LexLessBigEndian(u: nat, v: nat, width: nat)
    requires u < Pow256(width) && v < Pow256(width)
    ensures LexLess(ToBigEndian(u, width), ToBigEndian(v, width)) <==> u < v
    decreases width
  {
    if width == 0 {
    } else {
      var hu, hv := u / 256, v / 256;
      assert hu < Pow256(width - 1) && hv < Pow256(width - 1);
      LexLessAppend(ToBigEndian(hu, width - 1), [u % 256], ToBigEndian(hv, width - 1), [v % 256]);
      LexLessBigEndian(hu, hv, width - 1);
      if ToBigEndian(hu, width - 1) == ToBigEndian(hv, width - 1) {
        FromToBigEndian(hu, width - 1);
        FromToBigEndian(hv, width - 1);
      }
      assert u == hu * 256 + u % 256 && v == hv * 256 + v % 256;
    }
  }
}
