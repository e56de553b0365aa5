/**
 `IntegrityCheckIndex.SequenceKey`: one indexed record, its ULID and its position, and the
 byte layout used as an LMDB key: one length octet, the UTF-8 position octets, the ULID's
 most-significant `long`, then its least-significant `long`, both big-endian.

 Two codecs live here. The `...AsWritten` pair is the code's: the length is stored as
 `(byte) length` and read back with the signed `ByteBuffer.get()`, so positions of 128 or
 more octets do not survive a round trip. `ToByteBuffer`/`FromByteBuffer` read the length
 octet unsigned and refuse positions longer than 255 octets; the index model uses these.
 */
module SequenceKeys {
  import opened Wrappers
  import opened Bytes
  import Utf8
  import opened Ulids

  datatype SequenceKey = SequenceKey(ulid: Ulid, position: string)

  datatype CodecError =
    | BufferOverflow      // the key does not fit the pooled key buffer
    | BufferUnderflow     // the stored key ends before its fields do
    | NegativeArraySize   // the signed length octet was negative
    | MalformedPosition   // the position octets are not UTF-8
    | KeyTooLarge         // the position needs more than one length octet

  /** The longest position, in UTF-8 octets, whose length fits one unsigned octet. */
  const MaxPositionLength: nat := 255

  /** Octets taken by everything except the position: the length octet and two longs. */
  const Overhead: nat := 17

  /** `SequenceKey.compareTo`: the ULID alone decides. It is zero exactly when the ULIDs
      agree, so it is consistent with `equals` (datatype equality: same ULID and same
      position) in one direction only. Swapping the arguments negates it, as `Comparable`
      requires. */
  function CompareTo(a: SequenceKey, b: SequenceKey): (r: int)
    ensures -1 <= r <= 1
    ensures r == 0 <==> a.ulid == b.ulid
    ensures a == b ==> r == 0
    ensures r == -Ulids.Compare(b.ulid, a.ulid)
  {
    Ulids.Compare(a.ulid, b.ulid)
  }

  /** Two keys that `compareTo` calls equal while `equals` tells them apart. */
  lemma CompareToZeroIsNotEquality(u: Ulid)
    ensures CompareTo(SequenceKey(u, "1"), SequenceKey(u, "2")) == 0
    ensures SequenceKey(u, "1") != SequenceKey(u, "2")
  {
  }

  /** The key octets for a position whose UTF-8 octets are `pos`. */
  function Layout(lengthOctet: uint8, pos: seq<uint8>, u: Ulid): seq<uint8>
  {
    ([lengthOctet] + pos) + (LongToBytes(u.msb) + LongToBytes(u.lsb))
  }

  /** Reads the fields after the length octet; `len` is the position length already read.
      What it accepts is the layout of the key it returns, followed by octets it ignores. */
  function ParseFields(bs: seq<uint8>, len: nat): (r: Result<SequenceKey, CodecError>)
    requires |bs| >= 1
    ensures r.Failure? ==> r.error == BufferUnderflow || r.error == MalformedPosition
    ensures r == Failure(BufferUnderflow) <==> |bs| < Overhead + len
    ensures r.Success? ==>
              && Overhead + len <= |bs|
              && |Utf8.Encode(r.value.position)| == len
              && Layout(bs[0], Utf8.Encode(r.value.position), r.value.ulid) == bs[..Overhead + len]
  {
    if |bs| < 1 + len + 16 then Failure(BufferUnderflow)
    else
      match Utf8.Decode(bs[1..1 + len])
      case None => Failure(MalformedPosition)
      case Some(p) =>
        SplitFields(bs, len);
        Success(SequenceKey(Ulid(BytesToLong(bs[1 + len..9 + len]), BytesToLong(bs[9 + len..17 + len])), p))
  }

  /** The first `17 + len` octets are the length octet and the three fields after it. */
  lemma SplitFields(bs: seq<uint8>, len: nat)
    requires Overhead + len <= |bs|
    ensures bs[..Overhead + len] == ([bs[0]] + bs[1..1 + len]) + (bs[1 + len..9 + len] + bs[9 + len..17 + len])
  {
  }

  // ---------------------------------------------------------------------------------------
  // The codec as the code writes it.

  /** `toByteBuffer` into a pooled buffer of `capacity` octets: `(byte) key.length` keeps the
      low eight bits of the length. */
  function ToByteBufferAsWritten(k: SequenceKey, capacity: nat): (r: Result<seq<uint8>, CodecError>)
    ensures r.Success? <==> Overhead + |Utf8.Encode(k.position)| <= capacity
    ensures r.Failure? ==> r.error == BufferOverflow
    ensures r.Success? ==>
              && |r.value| == Overhead + |Utf8.Encode(k.position)|
              && r.value[0] == LowByte(|Utf8.Encode(k.position)|)
  {
    var pos := Utf8.Encode(k.position);
    if Overhead + |pos| > capacity then Failure(BufferOverflow)
    else Success(Layout(LowByte(|pos|), pos, k.ulid))
  }

  /** `fromByteBuffer`: the length octet is read signed, so an octet of 128 or more is a
      negative array size. A key it accepts is what the writer would write for the result. */
  function FromByteBufferAsWritten(bs: seq<uint8>): (r: Result<SequenceKey, CodecError>)
    ensures r == Failure(NegativeArraySize) <==> |bs| > 0 && bs[0] >= 128
    ensures r.Success? ==>
              && |bs| > 0 && Overhead + bs[0] <= |bs|
              && ToByteBufferAsWritten(r.value, |bs|) == Success(bs[..Overhead + bs[0]])
  {
    if |bs| == 0 then Failure(BufferUnderflow)
    else if SignedByte(bs[0]) < 0 then Failure(NegativeArraySize)
    else
      var r := ParseFields(bs, SignedByte(bs[0]));
      if r.Success? then AcceptedAsWritten(bs, r.value); r else r
  }

  /** A key the signed reader accepts is re-encoded, by the code's writer, to the octets it
      was read from. */
  lemma AcceptedAsWritten(bs: seq<uint8>, k: SequenceKey)
    requires |bs| > 0 && bs[0] < 128 && ParseFields(bs, bs[0]) == Success(k)
    ensures ToByteBufferAsWritten(k, |bs|) == Success(bs[..Overhead + bs[0]])
  {
    LowByteOfOctet(bs[0]);
  }

  // ---------------------------------------------------------------------------------------
  // The corrected codec: the length octet is unsigned, and too long a position is refused.

  function ToByteBuffer(k: SequenceKey, capacity: nat): (r: Result<seq<uint8>, CodecError>)
    ensures r.Success? <==> Encodable(k, capacity)
    ensures r.Failure? ==> (r.error == KeyTooLarge <==> |Utf8.Encode(k.position)| > MaxPositionLength)
    ensures r.Failure? ==> r.error == KeyTooLarge || r.error == BufferOverflow
    ensures r.Success? ==>
              && |r.value| == Overhead + |Utf8.Encode(k.position)|
              && r.value[0] == |Utf8.Encode(k.position)|
  {
    var pos := Utf8.Encode(k.position);
    if |pos| > MaxPositionLength then Failure(KeyTooLarge)
    else if Overhead + |pos| > capacity then Failure(BufferOverflow)
    else Success(Layout(|pos|, pos, k.ulid))
  }

  /** The corrected reader: the length octet is unsigned. A key it accepts is what the
      corrected writer writes for the result. */
  function FromByteBuffer(bs: seq<uint8>): (r: Result<SequenceKey, CodecError>)
    ensures r.Failure? ==> r.error == BufferUnderflow || r.error == MalformedPosition
    ensures r == Failure(BufferUnderflow) <==> |bs| == 0 || |bs| < Overhead + bs[0]
    ensures r.Success? ==>
              && |bs| > 0 && Overhead + bs[0] <= |bs|
              && ToByteBuffer(r.value, |bs|) == Success(bs[..Overhead + bs[0]])
  {
    if |bs| == 0 then Failure(BufferUnderflow)
    else ParseFields(bs, bs[0])
  }

  /** A key can be encoded into a buffer of `capacity` octets. */
  predicate Encodable(k: SequenceKey, capacity: nat)
  {
    var n := |Utf8.Encode(k.position)|;
    n <= MaxPositionLength && Overhead + n <= capacity
  }

  /** The slices `ParseFields` reads out of a layout are its parts. */
  lemma LayoutSlices(lengthOctet: uint8, pos: seq<uint8>, u: Ulid)
    ensures var bs, n := Layout(lengthOctet, pos, u), |pos|;
            && |bs| == 17 + n
            && bs[1..1 + n] == pos
            && bs[1 + n..9 + n] == LongToBytes(u.msb)
            && bs[9 + n..17 + n] == LongToBytes(u.lsb)
  {
    ConcatSlices([lengthOctet], pos, LongToBytes(u.msb), LongToBytes(u.lsb));
  }

  lemma ConcatSlices(head: seq<uint8>, pos: seq<uint8>, hi: seq<uint8>, lo: seq<uint8>)
    requires |head| == 1 && |hi| == 8 && |lo| == 8
    ensures var bs, n := (head + pos) + (hi + lo), |pos|;
            && |bs| == 17 + n
            && bs[1..1 + n] == pos
            && bs[1 + n..9 + n] == hi
            && bs[9 + n..17 + n] == lo
  {
    var bs, n := (head + pos) + (hi + lo), |pos|;
    assert bs[1..1 + n] == pos;
    assert bs[1 + n..9 + n] == hi;
    assert bs[9 + n..17 + n] == lo;
  }

  /** Reading the fields back out of any layout gives the ULID and the position. */
  lemma ParseLayout(lengthOctet: uint8, k: SequenceKey)
    requires lengthOctet == |Utf8.Encode(k.position)|
    ensures ParseFields(Layout(lengthOctet, Utf8.Encode(k.position), k.ulid), lengthOctet) == Success(k)
  {
    var pos := Utf8.Encode(k.position);
    LayoutFields(lengthOctet, k);
    ParseFieldsOf(Layout(lengthOctet, pos, k.ulid), |pos|, k);
  }

  /** Whatever its first octet, a layout holds the key's fields where `ParseFields` reads them. */
  lemma LayoutFields(lengthOctet: uint8, k: SequenceKey)
    ensures var pos := Utf8.Encode(k.position);
            var bs, n := Layout(lengthOctet, pos, k.ulid), |pos|;
            && |bs| == Overhead + n
            && Utf8.Decode(bs[1..1 + n]) == Some(k.position)
            && BytesToLong(bs[1 + n..9 + n]) == k.ulid.msb
            && BytesToLong(bs[9 + n..17 + n]) == k.ulid.lsb
            && bs[9 + n..] == bs[9 + n..17 + n]
  {
    var pos := Utf8.Encode(k.position);
    LayoutSlices(lengthOctet, pos, k.ulid);
    LayoutPosition(lengthOctet, k);
    LayoutHigh(lengthOctet, k);
    LayoutLow(lengthOctet, k);
  }

  lemma LayoutPosition(lengthOctet: uint8, k: SequenceKey)
    ensures var pos := Utf8.Encode(k.position);
            Utf8.Decode(Layout(lengthOctet, pos, k.ulid)[1..1 + |pos|]) == Some(k.position)
  {
    LayoutSlices(lengthOctet, Utf8.Encode(k.position), k.ulid);
    Utf8.DecodeEncode(k.position);
  }

  lemma LayoutHigh(lengthOctet: uint8, k: SequenceKey)
    ensures var pos := Utf8.Encode(k.position);
            var n := |pos|;
            BytesToLong(Layout(lengthOctet, pos, k.ulid)[1 + n..9 + n]) == k.ulid.msb
  {
    LayoutSlices(lengthOctet, Utf8.Encode(k.position), k.ulid);
    LongRoundTrip(k.ulid.msb, LongToBytes(k.ulid.msb));
  }

  lemma LayoutLow(lengthOctet: uint8, k: SequenceKey)
    ensures var pos := Utf8.Encode(k.position);
            var n := |pos|;
            BytesToLong(Layout(lengthOctet, pos, k.ulid)[9 + n..17 + n]) == k.ulid.lsb
  {
    LayoutSlices(lengthOctet, Utf8.Encode(k.position), k.ulid);
    LongRoundTrip(k.ulid.lsb, LongToBytes(k.ulid.lsb));
  }

  /** `ParseFields` returns the key whose fields sit in the slices it reads. */
  lemma ParseFieldsOf(bs: seq<uint8>, len: nat, k: SequenceKey)
    requires |bs| == 17 + len
    requires Utf8.Decode(bs[1..1 + len]) == Some(k.position)
    requires BytesToLong(bs[1 + len..9 + len]) == k.ulid.msb
    requires BytesToLong(bs[9 + len..17 + len]) == k.ulid.lsb
    ensures ParseFields(bs, len) == Success(k)
  {
  }

  /** After the length octet, the encoded key holds the position octets, the ULID's high
      long and its low long. */
  lemma KeyLayout(k: SequenceKey, capacity: nat)
    ensures ToByteBuffer(k, capacity).Success? ==>
              var bs, pos := ToByteBuffer(k, capacity).value, Utf8.Encode(k.position);
              && Utf8.Decode(bs[1..1 + |pos|]) == Some(k.position)
              && BytesToLong(bs[1 + |pos|..9 + |pos|]) == k.ulid.msb
              && BytesToLong(bs[9 + |pos|..]) == k.ulid.lsb
  {
    var pos := Utf8.Encode(k.position);
    if Encodable(k, capacity) {
      assert ToByteBuffer(k, capacity).value == Layout(|pos|, pos, k.ulid);
      LayoutFields(|pos|, k);
    }
  }

  /** The code's encoder: whenever the key fits the buffer, the first octet is the position
      length modulo 256, followed by the position octets, the ULID's high long and its low
      long. */
  lemma KeyLayoutAsWritten(k: SequenceKey, capacity: nat)
    ensures ToByteBufferAsWritten(k, capacity).Success? ==>
              var bs, pos := ToByteBufferAsWritten(k, capacity).value, Utf8.Encode(k.position);
              && bs[0] as int == |pos| % 256
              && Utf8.Decode(bs[1..1 + |pos|]) == Some(k.position)
              && BytesToLong(bs[1 + |pos|..9 + |pos|]) == k.ulid.msb
              && BytesToLong(bs[9 + |pos|..]) == k.ulid.lsb
  {
    var pos := Utf8.Encode(k.position);
    if ToByteBufferAsWritten(k, capacity).Success? {
      assert ToByteBufferAsWritten(k, capacity).value == Layout(LowByte(|pos|), pos, k.ulid);
      LayoutFields(LowByte(|pos|), k);
    }
  }

  /** The code's round trip holds while the position takes at most 127 octets. */
  lemma RoundTripAsWritten(k: SequenceKey, capacity: nat)
    requires |Utf8.Encode(k.position)| <= 127
    requires Overhead + |Utf8.Encode(k.position)| <= capacity
    ensures ToByteBufferAsWritten(k, capacity).Success?
    ensures FromByteBufferAsWritten(ToByteBufferAsWritten(k, capacity).value) == Success(k)
  {
    var n := |Utf8.Encode(k.position)|;
    assert LowByte(n) == n && SignedByte(n) == n;
    var bs := ToByteBufferAsWritten(k, capacity).value;
    assert bs == Layout(n, Utf8.Encode(k.position), k.ulid);
    assert bs[0] == n;
    ParseLayout(n, k);
  }

  /** The round trip of the corrected codec holds for every key that fits. */
  lemma RoundTrip(k: SequenceKey, capacity: nat)
    requires Encodable(k, capacity)
    ensures ToByteBuffer(k, capacity).Success?
    ensures FromByteBuffer(ToByteBuffer(k, capacity).value) == Success(k)
  {
    ParseLayout(|Utf8.Encode(k.position)|, k);
  }

  /** Different keys never share an encoding. */
  lemma EncodingInjective(a: SequenceKey, b: SequenceKey, capacity: nat)
    requires ToByteBuffer(a, capacity).Success? && ToByteBuffer(b, capacity).Success?
    requires ToByteBuffer(a, capacity).value == ToByteBuffer(b, capacity).value
    ensures a == b
  {
    KeyLayout(a, capacity);
    KeyLayout(b, capacity);
    RoundTrip(a, capacity);
    RoundTrip(b, capacity);
  }

  /** LMDB's default maximum key size, the capacity of the pooled key buffers. */
  const LmdbDefaultMaxKeySize: nat := 511

  /** Every key whose position takes 128 to 255 octets is written, and reading it back fails:
      its length octet reads as a negative number. */
  lemma SignedReadRejectsLongPositions(k: SequenceKey, capacity: nat)
    requires 128 <= |Utf8.Encode(k.position)| <= MaxPositionLength
    requires Overhead + |Utf8.Encode(k.position)| <= capacity
    ensures ToByteBufferAsWritten(k, capacity).Success?
    ensures FromByteBufferAsWritten(ToByteBufferAsWritten(k, capacity).value) == Failure(NegativeArraySize)
  {
    var n := |Utf8.Encode(k.position)|;
    LowByteOfOctet(n);
    assert ToByteBufferAsWritten(k, capacity).value[0] == n;
  }

  /** A key whose position takes more than 255 octets never reads back as itself: its length
      octet has wrapped, so whatever the reader returns has a shorter position. */
  lemma WrappedLengthNeverRoundTrips(k: SequenceKey, capacity: nat)
    requires |Utf8.Encode(k.position)| > MaxPositionLength
    requires ToByteBufferAsWritten(k, capacity).Success?
    ensures FromByteBufferAsWritten(ToByteBufferAsWritten(k, capacity).value) != Success(k)
  {
  }

  /** A position of 128 ASCII characters: its length octet 0x80 reads back as -128. */
  lemma LongPositionBreaksRoundTrip(u: Ulid)
    ensures var k := SequenceKey(u, seq(128, _ => 'a'));
            && ToByteBufferAsWritten(k, LmdbDefaultMaxKeySize).Success?
            && FromByteBufferAsWritten(ToByteBufferAsWritten(k, LmdbDefaultMaxKeySize).value) == Failure(NegativeArraySize)
  {
    var s := seq(128, _ => 'a');
    assert forall i :: 0 <= i < |s| ==> s[i] as int < 0x80;
    Utf8.EncodeAscii(s);
    var pos := Utf8.Encode(s);
    assert LowByte(|pos|) == 128;
    var bs := Layout(128, pos, u);
    assert bs[0] == 128;
    assert SignedByte(bs[0]) < 0;
  }

  /** A position of 256 ASCII characters: its length octet is 0, and the key decodes without
      error as an empty position and a ULID made of the position's first octets. */
  lemma VeryLongPositionDecodesWrongly(u: Ulid)
    ensures var k := SequenceKey(u, seq(256, _ => 'a'));
            && ToByteBufferAsWritten(k, LmdbDefaultMaxKeySize).Success?
            && var r := FromByteBufferAsWritten(ToByteBufferAsWritten(k, LmdbDefaultMaxKeySize).value);
               r.Success? && r.value.position == "" && r.value != k
  {
    var s := seq(256, _ => 'a');
    assert forall i :: 0 <= i < |s| ==> s[i] as int < 0x80;
    Utf8.EncodeAscii(s);
    var bs := ToByteBufferAsWritten(SequenceKey(u, s), LmdbDefaultMaxKeySize).value;
    assert bs[0] == 0;
    assert bs[1..1] == [];
  }

  // ---------------------------------------------------------------------------------------
  // The order in which LMDB returns keys.

  /** The storage order of keys, field by field: position length in octets first, then the
      position's octets, then the two ULID halves as unsigned 64-bit numbers. */
  predicate StorageLess(a: SequenceKey, b: SequenceKey)
  {
    var pa, pb := Utf8.Encode(a.position), Utf8.Encode(b.position);
    || |pa| < |pb|
    || (|pa| == |pb| && LexLess(pa, pb))
    || (a.position == b.position && Unsigned64(a.ulid.msb) < Unsigned64(b.ulid.msb))
    || (a.position == b.position && a.ulid.msb == b.ulid.msb && Unsigned64(a.ulid.lsb) < Unsigned64(b.ulid.lsb))
  }

  lemma LexLessLongs(x: Long, y: Long)
    ensures LexLess(LongToBytes(x), LongToBytes(y)) <==> Unsigned64(x) < Unsigned64(y)
    ensures LongToBytes(x) == LongToBytes(y) <==> x == y
  {
    assert Pow256(8) == TwoTo64;
    LexLessBigEndian(Unsigned64(x), Unsigned64(y), 8);
    LongRoundTrip(x, LongToBytes(y));
    LongRoundTrip(y, LongToBytes(x));
  }

  /** memcmp order on encoded keys is exactly `StorageLess`. */
  lemma EncodedOrder(a: SequenceKey, b: SequenceKey, capacity: nat)
    requires Encodable(a, capacity) && Encodable(b, capacity)
    ensures LexLess(ToByteBuffer(a, capacity).value, ToByteBuffer(b, capacity).value) <==> StorageLess(a, b)
  {
    var pa, pb := Utf8.Encode(a.position), Utf8.Encode(b.position);
    var ea, eb := ToByteBuffer(a, capacity).value, ToByteBuffer(b, capacity).value;
    var ta, tb := LongToBytes(a.ulid.msb) + LongToBytes(a.ulid.lsb), LongToBytes(b.ulid.msb) + LongToBytes(b.ulid.lsb);
    assert ea == ([|pa|] + pa) + ta && eb == ([|pb|] + pb) + tb;
    if |pa| != |pb| {
      assert ea[0] == |pa| && eb[0] == |pb|;
      assert |ea| > 0 && |eb| > 0;
    } else {
      LexLessAppend([|pa|] + pa, ta, [|pb|] + pb, tb);
      LexLessAppend([|pa|], pa, [|pb|], pb);
      assert !LexLess([|pa|], [|pb|]) by {
        LexLessIrreflexive([|pa|]);
      }
      LexLessAppend(LongToBytes(a.ulid.msb), LongToBytes(a.ulid.lsb), LongToBytes(b.ulid.msb), LongToBytes(b.ulid.lsb));
      LexLessLongs(a.ulid.msb, b.ulid.msb);
      LexLessLongs(a.ulid.lsb, b.ulid.lsb);
      if pa == pb {
        Utf8.EncodeInjective(a.position, b.position);
        LexLessIrreflexive(pa);
      } else if a.position == b.position {
      } else {
      }
      assert [|pa|] + pa == [|pb|] + pb <==> pa == pb by {
        if [|pa|] + pa == [|pb|] + pb {
          assert pa == ([|pa|] + pa)[1..];
        }
      }
    }
  }

  /** For every key the corrected encoder accepts, the code's encoder writes the same octets:
      below 256 the `(byte)` narrowing keeps the length. */
  lemma AsWrittenAgrees(k: SequenceKey, capacity: nat)
    requires Encodable(k, capacity)
    ensures ToByteBufferAsWritten(k, capacity) == ToByteBuffer(k, capacity)
  {
    LowByteOfOctet(|Utf8.Encode(k.position)|);
  }

  /** The code's encoder stores keys whose positions take at most 255 octets in `StorageLess`
      order. */
  lemma EncodedOrderAsWritten(a: SequenceKey, b: SequenceKey, capacity: nat)
    requires Encodable(a, capacity) && Encodable(b, capacity)
    ensures LexLess(ToByteBufferAsWritten(a, capacity).value, ToByteBufferAsWritten(b, capacity).value)
            <==> StorageLess(a, b)
  {
    AsWrittenAgrees(a, capacity);
    AsWrittenAgrees(b, capacity);
    EncodedOrder(a, b, capacity);
  }

  /** Positions "9" and "10": string order puts "10" first, storage order puts "9" first, and
      `compareTo` can disagree with storage order too. */
  lemma StorageOrderIsNotPositionOrder()
    ensures StorageLess(SequenceKey(Ulid(1, 0), "9"), SequenceKey(Ulid(0, 0), "10"))
    ensures CompareTo(SequenceKey(Ulid(0, 0), "10"), SequenceKey(Ulid(1, 0), "9")) < 0
  {
    assert Utf8.Encode("9") == [57];
    assert Utf8.Encode("10") == [49, 48];
  }
}
