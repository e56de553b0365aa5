/**
 UTF-8, as `String.getBytes(UTF_8)` and `new String(bytes, UTF_8)` apply it to position
 strings. A Dafny `char` is a Unicode scalar value, so every string here is well formed.
 */
module Utf8 {
  import opened Wrappers
  import opened Bytes

  /** The octets of one scalar value: one to four, shortest form. */
  function EncodeChar(c: char): (bs: seq<uint8>)
    ensures 1 <= |bs| <= 4
    ensures |bs| == 1 <==> c as int < 0x80
  {
    var n := c as int;
    if n < 0x80 then [n]
    else if n < 0x800 then [0xC0 + n / 64, 0x80 + n % 64]
    else if n < 0x10000 then [0xE0 + n / 4096, 0x80 + (n / 64) % 64, 0x80 + n % 64]
    else [0xF0 + n / 262144, 0x80 + (n / 4096) % 64, 0x80 + (n / 64) % 64, 0x80 + n % 64]
  }

  function Encode(s: string): (bs: seq<uint8>)
    ensures |s| <= |bs| <= 4 * |s|
  {
    if |s| == 0 then [] else EncodeChar(s[0]) + Encode(s[1..])
  }

  predicate IsContinuation(b: uint8)
  {
    0x80 <= b < 0xC0
  }

  /** The scalar value at the front of `bs` and how many octets it took, or None when the
      front is not the shortest-form encoding of a scalar value. */
  function DecodeChar(bs: seq<uint8>): (r: Option<(char, nat)>)
    ensures r.Some? ==> 1 <= r.value.1 <= |bs| && r.value.1 <= 4
  {
    if |bs| == 0 then None
    else
      var b0: int := bs[0];
      if b0 < 0x80 then Some((b0 as char, 1))
      else if 0xC2 <= b0 < 0xE0 then
        if |bs| < 2 || !IsContinuation(bs[1]) then None
        else Some((((b0 - 0xC0) * 64 + (bs[1] as int - 0x80)) as char, 2))
      else if 0xE0 <= b0 < 0xF0 then
        if |bs| < 3 || !IsContinuation(bs[1]) || !IsContinuation(bs[2]) then None
        else
          var n := (b0 - 0xE0) * 4096 + (bs[1] as int - 0x80) * 64 + (bs[2] as int - 0x80);
          if n < 0x800 || (0xD800 <= n < 0xE000) then None else Some((n as char, 3))
      else if 0xF0 <= b0 < 0xF5 then
        if |bs| < 4 || !IsContinuation(bs[1]) || !IsContinuation(bs[2]) || !IsContinuation(bs[3]) then None
        else
          var n := (b0 - 0xF0) * 262144 + (bs[1] as int - 0x80) * 4096 + (bs[2] as int - 0x80) * 64 + (bs[3] as int - 0x80);
          if n < 0x10000 || n >= 0x110000 then None else Some((n as char, 4))
      else None
  }

  /** The string spelled by `bs`, or None when `bs` is not well-formed UTF-8. Only octets the
      encoder could have written are accepted. */
  function Decode(bs: seq<uint8>): (r: Option<string>)
    ensures r.Some? ==> Encode(r.value) == bs
    decreases |bs|
  {
    if |bs| == 0 then Some([])
    else
      match DecodeChar(bs)
      case None => None
      case Some((c, n)) =>
        match Decode(bs[n..])
        case None => None
        case Some(rest) =>
          EncodeCons(bs, rest);
          Some([c] + rest)
  }

  /** A decoded scalar value followed by the decoding of the remaining octets re-encodes to
      all of `bs`. */
  lemma EncodeCons(bs: seq<uint8>, rest: string)
    requires DecodeChar(bs).Some?
    requires Encode(rest) == bs[DecodeChar(bs).value.1..]
    ensures Encode([DecodeChar(bs).value.0] + rest) == bs
  {
    var n := DecodeChar(bs).value.1;
    EncodeDecodeChar(bs);
    assert bs == bs[..n] + bs[n..];
    assert ([DecodeChar(bs).value.0] + rest)[1..] == rest;
  }

  /** A scalar value read from the front of `bs` re-encodes to the octets it was read from. */
  lemma EncodeDecodeChar(bs: seq<uint8>)
    requires DecodeChar(bs).Some?
    ensures EncodeChar(DecodeChar(bs).value.0) == bs[..DecodeChar(bs).value.1]
  {
    var b0: int := bs[0];
    if b0 < 0x80 {
    } else if b0 < 0xE0 {
      EncodeDecodeTwo(bs);
    } else if b0 < 0xF0 {
      EncodeDecodeThree(bs);
    } else {
      EncodeDecodeFour(bs);
    }
  }

  lemma EncodeDecodeTwo(bs: seq<uint8>)
    requires DecodeChar(bs).Some? && 0xC2 <= bs[0] < 0xE0
    ensures EncodeChar(DecodeChar(bs).value.0) == bs[..2]
  {
    var a, b := bs[0] as int - 0xC0, bs[1] as int - 0x80;
    var n := DecodeChar(bs).value.0 as int;
    assert n == a * 64 + b;
    DivModUnique(n, 64, a, b);
  }

  lemma EncodeDecodeThree(bs: seq<uint8>)
    requires DecodeChar(bs).Some? && 0xE0 <= bs[0] < 0xF0
    ensures EncodeChar(DecodeChar(bs).value.0) == bs[..3]
  {
    var a, b, d := bs[0] as int - 0xE0, bs[1] as int - 0x80, bs[2] as int - 0x80;
    var n := DecodeChar(bs).value.0 as int;
    assert n == a * 4096 + b * 64 + d;
    DivModUnique(n, 64, a * 64 + b, d);
    DivModUnique(n / 64, 64, a, b);
    DivModUnique(n, 4096, a, b * 64 + d);
  }

  lemma EncodeDecodeFour(bs: seq<uint8>)
    requires DecodeChar(bs).Some? && 0xF0 <= bs[0]
    ensures EncodeChar(DecodeChar(bs).value.0) == bs[..4]
  {
    var a, b, d, e := bs[0] as int - 0xF0, bs[1] as int - 0x80, bs[2] as int - 0x80, bs[3] as int - 0x80;
    var n := DecodeChar(bs).value.0 as int;
    assert n == a * 262144 + b * 4096 + d * 64 + e;
    DivModUnique(n, 64, a * 4096 + b * 64 + d, e);
    DivModUnique(n / 64, 64, a * 64 + b, d);
    DivModUnique(n, 4096, a * 64 + b, d * 64 + e);
    DivModUnique(n / 4096, 64, a, b);
    DivModUnique(n, 262144, a, b * 4096 + d * 64 + e);
  }

  lemma DecodeEncodeChar(c: char, rest: seq<uint8>)
    ensures DecodeChar(EncodeChar(c) + rest) == Some((c, |EncodeChar(c)|))
  {
    var n := c as int;
    if n < 0x80 {
    } else if n < 0x800 {
      DecodeEncodeTwo(c, rest);
    } else if n < 0x10000 {
      DecodeEncodeThree(c, rest);
    } else {
      DecodeEncodeFour(c, rest);
    }
  }

  lemma DecodeEncodeTwo(c: char, rest: seq<uint8>)
    requires 0x80 <= c as int < 0x800
    ensures DecodeChar(EncodeChar(c) + rest) == Some((c, 2))
  {
    var n := c as int;
    var hi, lo := n / 64, n % 64;
    assert n == hi * 64 + lo;
    assert 2 <= hi < 32;
    var bs := EncodeChar(c) + rest;
    assert bs[0] == 0xC0 + hi && bs[1] == 0x80 + lo;
  }

  lemma DecodeEncodeThree(c: char, rest: seq<uint8>)
    requires 0x800 <= c as int < 0x10000
    ensures DecodeChar(EncodeChar(c) + rest) == Some((c, 3))
  {
    var n := c as int;
    var a, b, d := n / 4096, (n / 64) % 64, n % 64;
    assert n / 64 == a * 64 + b;
    assert n == (a * 64 + b) * 64 + d;
    assert a < 16;
    var bs := EncodeChar(c) + rest;
    assert bs[0] == 0xE0 + a && bs[1] == 0x80 + b && bs[2] == 0x80 + d;
    assert (bs[0] as int - 0xE0) * 4096 + (bs[1] as int - 0x80) * 64 + (bs[2] as int - 0x80) == n;
  }

  lemma DecodeEncodeFour(c: char, rest: seq<uint8>)
    requires 0x10000 <= c as int
    ensures DecodeChar(EncodeChar(c) + rest) == Some((c, 4))
  {
    var n := c as int;
    var a, b, d, e := n / 262144, (n / 4096) % 64, (n / 64) % 64, n % 64;
    assert n / 4096 == a * 64 + b;
    assert n / 64 == (a * 64 + b) * 64 + d;
    assert n == ((a * 64 + b) * 64 + d) * 64 + e;
    assert a < 5;
    var bs := EncodeChar(c) + rest;
    assert bs[0] == 0xF0 + a && bs[1] == 0x80 + b && bs[2] == 0x80 + d && bs[3] == 0x80 + e;
    assert (bs[0] as int - 0xF0) * 262144 + (bs[1] as int - 0x80) * 4096 + (bs[2] as int - 0x80) * 64 + (bs[3] as int - 0x80) == n;
  }

  /** Decoding what the encoder wrote gives back the string. */
  lemma {:induction false} DecodeEncode(s: string)
    ensures Decode(Encode(s)) == Some(s)
  {
    if |s| > 0 {
      var head := EncodeChar(s[0]);
      DecodeEncodeChar(s[0], Encode(s[1..]));
      assert (head + Encode(s[1..]))[|head|..] == Encode(s[1..]);
      DecodeEncode(s[1..]);
      assert [s[0]] + s[1..] == s;
    }
  }

  /** Two strings with the same octets are the same string. */
  lemma EncodeInjective(s: string, t: string)
    requires Encode(s) == Encode(t)
    ensures s == t
  {
    DecodeEncode(s);
    DecodeEncode(t);
  }

  /** A string of code points below 0x80 is its own encoding, one octet per character. */
  lemma {:induction false} EncodeAscii(s: string)
    requires forall i :: 0 <= i < |s| ==> s[i] as int < 0x80
    ensures |Encode(s)| == |s|
    ensures forall i :: 0 <= i < |s| ==> Encode(s)[i] == s[i] as int
  {
    if |s| > 0 {
      EncodeAscii(s[1..]);
    }
  }
}
