/**
 `PositionAndULIDVersion`: a holder of one (ULID, position) pair that `compareAndSet` replaces
 only when nothing is held yet or the offered ULID is strictly smaller, so it keeps the
 earliest version of a position seen so far. The class itself is not part of this model;
 its behaviour is the one `RecoveryTest.thatLeastVersionIsSelected` pins down.
 */
module PositionVersion {
  import opened Ulids

  datatype Version = Unset | Held(ulid: Ulid, position: string)

  /** The smaller of two ULIDs. */
  function MinUlid(a: Ulid, b: Ulid): Ulid
  {
    if Less(b, a) then b else a
  }

  /** `compareAndSet(ulid, position)`: afterwards the holder has the least ULID of the old
      one and the offered one; on a tie the old pair is kept. */
  function CompareAndSet(v: Version, u: Ulid, p: string): (r: Version)
    ensures r.Held?
    ensures v.Held? ==> r.ulid == MinUlid(v.ulid, u)
    ensures r == v || r == Held(u, p)
    ensures v.Held? && r != v ==> Less(u, v.ulid)
  {
    if v.Unset? || Less(u, v.ulid) then Held(u, p) else v
  }

  /** A sequence of `compareAndSet` calls, in order. */
  function Offer(v: Version, offers: seq<(Ulid, string)>): Version
  {
    if |offers| == 0 then v
    else
      var (u, p) := offers[|offers| - 1];
      CompareAndSet(Offer(v, offers[..|offers| - 1]), u, p)
  }

  /** After offers to an empty holder, it holds one of the offered pairs, and its ULID is no
      greater than any offered ULID. */
  lemma {:induction false} HeldIsLeast(offers: seq<(Ulid, string)>)
    requires |offers| > 0
    ensures Offer(Unset, offers).Held?
    ensures var h := Offer(Unset, offers);
            && (h.ulid, h.position) in offers
            && forall i :: 0 <= i < |offers| ==> !Less(offers[i].0, h.ulid)
  {
    var prev := offers[..|offers| - 1];
    var (u, p) := offers[|offers| - 1];
    if |prev| > 0 {
      HeldIsLeast(prev);
      var h0 := Offer(Unset, prev);
      forall i | 0 <= i < |offers| ensures !Less(offers[i].0, Offer(Unset, offers).ulid) {
        if i < |prev| {
          assert offers[i] == prev[i];
          CompareIsTotalOrder(offers[i].0, h0.ulid, u);
          CompareIsTotalOrder(u, offers[i].0, h0.ulid);
        } else {
          CompareIsTotalOrder(u, h0.ulid, u);
        }
      }
      assert (h0.ulid, h0.position) in offers by {
        var k :| 0 <= k < |prev| && prev[k] == (h0.ulid, h0.position);
        assert offers[k] == prev[k];
      }
    } else {
      CompareIsTotalOrder(u, u, u);
    }
  }

  /** The ULID selected does not depend on the order of the offers: two sequences offering
      the same ULIDs end with the same one. */
  lemma OrderIndependent(a: seq<(Ulid, string)>, b: seq<(Ulid, string)>)
    requires |a| > 0
    requires OfferedUlids(a) == OfferedUlids(b)
    ensures |b| > 0
    ensures Offer(Unset, a).ulid == Offer(Unset, b).ulid
  {
    assert a[0].0 in OfferedUlids(a);
    HeldIsLeast(a);
    HeldIsLeast(b);
    var ha, hb := Offer(Unset, a), Offer(Unset, b);
    var ia :| 0 <= ia < |a| && a[ia] == (ha.ulid, ha.position);
    assert ha.ulid in OfferedUlids(b);
    var j :| 0 <= j < |b| && b[j].0 == ha.ulid;
    assert !Less(ha.ulid, hb.ulid);
    var ib :| 0 <= ib < |b| && b[ib] == (hb.ulid, hb.position);
    assert hb.ulid in OfferedUlids(a);
    var i :| 0 <= i < |a| && a[i].0 == hb.ulid;
    assert !Less(hb.ulid, ha.ulid);
    CompareIsTotalOrder(ha.ulid, hb.ulid, ha.ulid);
  }

  function OfferedUlids(offers: seq<(Ulid, string)>): set<Ulid>
  {
    set i | 0 <= i < |offers| :: offers[i].0
  }

  /** `thatLeastVersionIsSelected`: with v1 < v2 < v3 offered as v2, v3, v1, v3 for position
      "1", the holder has v2, v2, v1, v1. */
  lemma LeastVersionIsSelected(v1: Ulid, v2: Ulid, v3: Ulid)
    requires Less(v1, v2) && Less(v2, v3)
    ensures var s1 := CompareAndSet(Unset, v2, "1");
            var s2 := CompareAndSet(s1, v3, "1");
            var s3 := CompareAndSet(s2, v1, "1");
            var s4 := CompareAndSet(s3, v3, "1");
            s1.ulid == v2 && s2.ulid == v2 && s3.ulid == v1 && s4.ulid == v1
  {
    CompareIsTotalOrder(v1, v2, v3);
    CompareIsTotalOrder(v3, v2, v1);
    CompareIsTotalOrder(v3, v1, v2);
  }
}
