/**
 A ULID value as the index stores it: a 128-bit identifier split into a most-significant and a
 least-significant Java `long`. The ULID library is not part of this model; its `compareTo` is
 taken to order values by (most, least) significant bits, each compared as a signed `long`,
 the way `java.util.UUID` does.
 */
module Ulids {
  import opened Bytes

  datatype Ulid = Ulid(msb: Long, lsb: Long)

  /** `ULID.Value.compareTo`: negative, zero or positive. */
  function Compare(a: Ulid, b: Ulid): (r: int)
    ensures -1 <= r <= 1
    ensures r == 0 <==> a == b
  {
    if a.msb < b.msb then -1
    else if a.msb > b.msb then 1
    else if a.lsb < b.lsb then -1
    else if a.lsb > b.lsb then 1
    else 0
  }

  predicate Less(a: Ulid, b: Ulid)
  {
    Compare(a, b) < 0
  }

  /** `Compare` is a strict total order: antisymmetric in sign, transitive, total. */
  lemma CompareIsTotalOrder(a: Ulid, b: Ulid, c: Ulid)
    ensures Compare(a, b) == -Compare(b, a)
    ensures Less(a, b) && Less(b, c) ==> Less(a, c)
    ensures a == b || Less(a, b) || Less(b, a)
    ensures !Less(a, a)
  {
  }
}
