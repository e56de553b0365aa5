/**
 The LMDB database as the index uses it: a set of byte keys with empty values, kept in
 memcmp order. `put` of a key already present replaces its (empty) value, so the store
 never holds a key twice.
 */
module KeyStore {
  import opened Bytes

  type Key = seq<uint8>

  /** Keys in strictly ascending memcmp order: sorted and duplicate-free. */
  predicate Sorted(s: seq<Key>)
  {
    forall i, j :: 0 <= i < j < |s| ==> LexLess(s[i], s[j])
  }

  /** `Dbi.put` of `k` into the sorted store `s`. */
  function Insert(s: seq<Key>, k: Key): (r: seq<Key>)
    requires Sorted(s)
    ensures Sorted(r)
    ensures forall x :: x in r <==> x in s || x == k
    ensures k in s ==> r == s
    ensures k !in s ==> |r| == |s| + 1
  {
    if |s| == 0 then [k]
    else if s[0] == k then s
    else if LexLess(k, s[0]) then
      PrependSorted(k, s);
      [k] + s
    else
      LexLessTotal(k, s[0]);
      var tail := Insert(s[1..], k);
      assert s == [s[0]] + s[1..];
      HeadBelow(s, k, tail);
      ConsSorted(s[0], tail);
      [s[0]] + tail
  }

  /** A key below the first of a sorted store goes in front of it. */
  lemma PrependSorted(k: Key, s: seq<Key>)
    requires Sorted(s) && |s| > 0 && LexLess(k, s[0])
    ensures Sorted([k] + s) && k !in s
  {
    forall j | 0 <= j < |s| ensures LexLess(k, s[j]) {
      if j > 0 { LexLessTransitive(k, s[0], s[j]); }
    }
    forall j | 0 <= j < |s| ensures s[j] != k {
      LexLessIrreflexive(k);
    }
    ConsSorted(k, s);
  }

  lemma ConsSorted(h: Key, tail: seq<Key>)
    requires Sorted(tail) && forall j :: 0 <= j < |tail| ==> LexLess(h, tail[j])
    ensures Sorted([h] + tail)
  {
    var r := [h] + tail;
    forall i, j | 0 <= i < j < |r| ensures LexLess(r[i], r[j]) {
      if i == 0 { assert r[j] == tail[j - 1]; } else { assert r[i] == tail[i - 1] && r[j] == tail[j - 1]; }
    }
  }

  lemma HeadBelow(s: seq<Key>, k: Key, tail: seq<Key>)
    requires Sorted(s) && |s| > 0 && LexLess(s[0], k)
    requires forall x :: x in tail <==> x in s[1..] || x == k
    ensures forall j :: 0 <= j < |tail| ==> LexLess(s[0], tail[j])
  {
    forall j | 0 <= j < |tail| ensures LexLess(s[0], tail[j]) {
      if tail[j] != k {
        assert tail[j] in s[1..];
        var m :| 0 <= m < |s[1..]| && s[1..][m] == tail[j];
        assert s[m + 1] == tail[j];
      }
    }
  }

  /** Inserting every key of `ks`, in order, as a committed transaction does. */
  function InsertAll(s: seq<Key>, ks: seq<Key>): (r: seq<Key>)
    requires Sorted(s)
    ensures Sorted(r)
    ensures forall x :: x in r <==> x in s || x in ks
    decreases |ks|
  {
    if |ks| == 0 then s else InsertAll(Insert(s, ks[0]), ks[1..])
  }
}
