/**
 `IntegrityCheckIndex`: `writeSequence` encodes a key with pooled buffers and puts it through
 the batched write transaction; `commit`/`close` flush; `readSequence` visits the committed
 keys in storage order with a has-more flag. The LMDB environment is the sorted store of
 `KeyStore`, each buffer pool an availability counter.

 `WriteSequenceAsWritten` and `ReadSequenceAsWritten` run the code's codec and the code's
 count-then-put order; `WriteSequence` and `ReadSequence` run the corrected codec and the
 put-then-count order, and the index invariant `Valid` is stated for those.
 */
module IntegrityCheckIndex {
  import opened Wrappers
  import opened KeyStore
  import opened SequenceKeys
  import opened WriteBatch
  import Ulids

  /** A `DirectByteBufferPool` seen only through how many of its buffers are free. */
  datatype Pool = Pool(capacity: nat, available: nat)

  /** Buffers per pool, as the constructor creates them. */
  const PoolSize: nat := 10

  datatype IndexError = PoolExhausted | Encoding(error: CodecError)

  function Acquire(p: Pool): (r: Result<Pool, IndexError>)
    ensures r.Success? <==> p.available > 0
    ensures r.Success? ==> r.value.available + 1 == p.available && r.value.capacity == p.capacity
  {
    if p.available == 0 then Failure(PoolExhausted) else Success(p.(available := p.available - 1))
  }

  /** `release`: the buffer goes back, so acquiring again hands out the same state. */
  function Release(p: Pool): (r: Pool)
    ensures Acquire(r) == Success(p)
  {
    p.(available := p.available + 1)
  }

  datatype Index = Index(maxKeySize: nat, flushBufferCount: int, keyPool: Pool, contentPool: Pool, batch: Batch)

  /** The constructor: two pools of ten free buffers, nothing stored, no write transaction
      yet, counter 0. With N >= 1 the new index satisfies the index invariant. */
  function Create(maxKeySize: nat, flushBufferCount: int): (ix: Index)
    ensures ix.maxKeySize == maxKeySize && ix.flushBufferCount == flushBufferCount
    ensures ix.keyPool.available == PoolSize && ix.contentPool.available == PoolSize
    ensures ix.batch.durable == [] && ix.batch.pending == [] && !ix.batch.open && ix.batch.counter == 0
    ensures flushBufferCount >= 1 ==> Valid(ix)
  {
    Index(maxKeySize, flushBufferCount, Pool(PoolSize, PoolSize), Pool(PoolSize, PoolSize), Fresh)
  }

  /** `writeSequence(ulid, position)` with the corrected codec and the put-then-count order.
      Each buffer is released in a `finally`, so every path, including a key too large for its
      buffer, gives back what it took and changes nothing else when it fails. */
  function WriteSequence(ix: Index, ulid: Ulids.Ulid, position: string): (r: (Index, Outcome<IndexError>))
    ensures r.0.keyPool == ix.keyPool && r.0.contentPool == ix.contentPool
    ensures r.0.maxKeySize == ix.maxKeySize && r.0.flushBufferCount == ix.flushBufferCount
    ensures r.1.Fail? ==> r.0 == ix
    ensures r.1.Pass? <==>
              ix.keyPool.available > 0 && ix.contentPool.available > 0
              && Encodable(SequenceKey(ulid, position), ix.maxKeySize)
    ensures r.1.Fail? && ix.keyPool.available > 0 && !Encodable(SequenceKey(ulid, position), ix.maxKeySize)
            ==> r.1.error.Encoding?
    ensures r.1.Pass? ==>
              r.0.batch == Write(ix.batch, ix.flushBufferCount, ToByteBuffer(SequenceKey(ulid, position), ix.maxKeySize).value)
  {
    Store(ix, ToByteBuffer(SequenceKey(ulid, position), ix.maxKeySize), false)
  }

  /** `writeSequence(ulid, position)` as the code runs it: the code's encoder, whose only limit
      is the key buffer, so positions of 256 octets or more are stored with a wrapped length
      octet; and the count-then-put order. */
  function WriteSequenceAsWritten(ix: Index, ulid: Ulids.Ulid, position: string): (r: (Index, Outcome<IndexError>))
    ensures r.0.keyPool == ix.keyPool && r.0.contentPool == ix.contentPool
    ensures r.0.maxKeySize == ix.maxKeySize && r.0.flushBufferCount == ix.flushBufferCount
    ensures r.1.Fail? ==> r.0 == ix
    ensures r.1.Pass? <==>
              ix.keyPool.available > 0 && ix.contentPool.available > 0
              && Overhead + |Utf8.Encode(position)| <= ix.maxKeySize
    ensures r.1.Fail? && ix.keyPool.available > 0 && Overhead + |Utf8.Encode(position)| > ix.maxKeySize
            ==> r.1.error == Encoding(BufferOverflow)
    ensures r.1.Pass? ==>
              r.0.batch == WriteAsWritten(ix.batch, ix.flushBufferCount, ToByteBufferAsWritten(SequenceKey(ulid, position), ix.maxKeySize).value)
  {
    Store(ix, ToByteBufferAsWritten(SequenceKey(ulid, position), ix.maxKeySize), true)
  }

  /** The body of `writeSequence` once the key is encoded: take a key buffer, take a content
      buffer, put, and release both. `countFirst` selects the code's order of counting and
      putting. */
  function Store(ix: Index, encoded: Result<Key, CodecError>, countFirst: bool): (r: (Index, Outcome<IndexError>))
  {
    match Acquire(ix.keyPool)
    case Failure(e) => (ix, Fail(e))
    case Success(keyPool) =>
      match encoded
      case Failure(e) => (ix.(keyPool := Release(keyPool)), Fail(Encoding(e)))
      case Success(key) =>
        match Acquire(ix.contentPool)
        case Failure(e) => (ix.(keyPool := Release(keyPool)), Fail(e))
        case Success(contentPool) =>
          var batch := if countFirst then WriteAsWritten(ix.batch, ix.flushBufferCount, key)
                       else Write(ix.batch, ix.flushBufferCount, key);
          (ix.(batch := batch, contentPool := Release(contentPool), keyPool := Release(keyPool)), Pass)
  }

  /** `commit()`: with a positive counter the open transaction is committed, whatever it
      holds; with a counter of 0 nothing happens. Only the batch changes, and a valid index
      stays valid with nothing left uncommitted. */
  function CommitIndex(ix: Index): (r: Index)
    ensures r == ix.(batch := r.batch)
    ensures ix.batch.counter > 0 ==>
              r.batch.pending == [] && forall x :: x in r.batch.durable <==> x in ix.batch.durable || x in ix.batch.pending
    ensures ix.batch.counter <= 0 ==> r == ix
    ensures Valid(ix) ==> Valid(r) && r.batch.pending == []
  {
    ix.(batch := Commit(ix.batch, ix.flushBufferCount))
  }

  /** `close()` calls `commit()`: afterwards a reader sees the keys that were committed, plus
      the uncommitted ones only if the counter was positive; keys put while the counter was 0
      stay uncommitted. */
  function Close(ix: Index): (r: Index)
    ensures forall x :: x in r.batch.durable <==> x in ix.batch.durable || (ix.batch.counter > 0 && x in ix.batch.pending)
    ensures r.batch.pending == (if ix.batch.counter > 0 then [] else ix.batch.pending)
  {
    CommitIndex(ix)
  }

  /** What the visitor of `readSequence` receives: the decoded key and `it.hasNext()`. */
  datatype Visit = Visit(key: SequenceKey, hasMore: bool)

  /** The loop of `readSequence` over the committed keys in storage order, with `decode` as
      the key reader: each decoded key is passed on with whether another key follows. The
      first key that does not decode ends the loop, and its error is what `readSequence`
      throws. */
  method ReadKeys(keys: seq<Key>, decode: Key -> Result<SequenceKey, CodecError>)
    returns (visits: seq<Visit>, error: Option<CodecError>)
    ensures |visits| <= |keys|
    ensures forall i :: 0 <= i < |visits| ==> decode(keys[i]) == Success(visits[i].key)
    ensures forall i :: 0 <= i < |visits| ==> (visits[i].hasMore <==> i + 1 < |keys|)
    ensures error.None? <==> |visits| == |keys|
    ensures error.Some? ==> decode(keys[|visits|]) == Failure(error.value)
  {
    var i := 0;
    visits := [];
    error := None;
    while i < |keys|
      invariant 0 <= i <= |keys|
      invariant |visits| == i
      invariant forall j :: 0 <= j < i ==> decode(keys[j]) == Success(visits[j].key)
      invariant forall j :: 0 <= j < i ==> (visits[j].hasMore <==> j + 1 < |keys|)
    {
      var next := decode(keys[i]);
      if next.Failure? {
        return visits, Some(next.error);
      }
      visits := visits + [Visit(next.value, i + 1 < |keys|)];
      i := i + 1;
    }
  }

  /** `readSequence` with the corrected reader. On a valid index every committed key is
      visited, in strictly ascending storage order. */
  method ReadSequence(ix: Index) returns (visits: seq<Visit>, error: Option<CodecError>)
    ensures |visits| <= |ix.batch.durable|
    ensures forall i :: 0 <= i < |visits| ==> FromByteBuffer(ix.batch.durable[i]) == Success(visits[i].key)
    ensures forall i :: 0 <= i < |visits| ==> (visits[i].hasMore <==> i + 1 < |ix.batch.durable|)
    ensures error.None? <==> |visits| == |ix.batch.durable|
    ensures error.Some? ==> FromByteBuffer(ix.batch.durable[|visits|]) == Failure(error.value)
    ensures Valid(ix) ==> error.None?
    ensures Valid(ix) ==> forall i, j :: 0 <= i < j < |visits| ==> StorageLess(visits[i].key, visits[j].key)
  {
    visits, error := ReadKeys(ix.batch.durable, FromByteBuffer);
    if Valid(ix) {
      ScanIsOrdered(ix);
    }
  }

  /** `readSequence` as the code runs it, with the signed reader: a committed key whose length
      octet is 128 or more throws `NegativeArraySizeException`, so neither it nor any key
      after it is visited. */
  method ReadSequenceAsWritten(ix: Index) returns (visits: seq<Visit>, error: Option<CodecError>)
    ensures |visits| <= |ix.batch.durable|
    ensures forall i :: 0 <= i < |visits| ==> FromByteBufferAsWritten(ix.batch.durable[i]) == Success(visits[i].key)
    ensures forall i :: 0 <= i < |visits| ==> (visits[i].hasMore <==> i + 1 < |ix.batch.durable|)
    ensures error.None? <==> |visits| == |ix.batch.durable|
    ensures error.Some? ==> FromByteBufferAsWritten(ix.batch.durable[|visits|]) == Failure(error.value)
    ensures forall i :: 0 <= i < |ix.batch.durable| && |ix.batch.durable[i]| > 0 && ix.batch.durable[i][0] >= 128
              ==> error.Some? && |visits| <= i
  {
    visits, error := ReadKeys(ix.batch.durable, FromByteBufferAsWritten);
  }

  // ---------------------------------------------------------------------------------------
  // The index invariant and what it gives a reader.

  /** A stored key is the encoding of a key that fits the key buffer. */
  predicate WellFormedKey(x: Key, capacity: nat)
  {
    && FromByteBuffer(x).Success?
    && Encodable(FromByteBuffer(x).value, capacity)
    && ToByteBuffer(FromByteBuffer(x).value, capacity) == Success(x)
  }

  predicate Valid(ix: Index)
  {
    && Inv(ix.batch, ix.flushBufferCount)
    && (ix.batch.counter > 0 ==> ix.batch.open)
    && ix.keyPool.available > 0 && ix.contentPool.available > 0
    && (forall x :: x in ix.batch.durable ==> WellFormedKey(x, ix.maxKeySize))
    && (forall x :: x in ix.batch.pending ==> WellFormedKey(x, ix.maxKeySize))
  }

  lemma EncodedKeyWellFormed(k: SequenceKey, capacity: nat)
    requires Encodable(k, capacity)
    ensures WellFormedKey(ToByteBuffer(k, capacity).value, capacity)
  {
    RoundTrip(k, capacity);
  }

  /** `writeSequence` keeps the index valid, and on a valid index a write succeeds exactly
      when the key fits. */
  lemma OperationsPreserveValid(ix: Index, ulid: Ulids.Ulid, position: string)
    requires Valid(ix)
    ensures Valid(WriteSequence(ix, ulid, position).0)
    ensures WriteSequence(ix, ulid, position).1.Pass? <==> Encodable(SequenceKey(ulid, position), ix.maxKeySize)
  {
    var k := SequenceKey(ulid, position);
    if Encodable(k, ix.maxKeySize) {
      EncodedKeyWellFormed(k, ix.maxKeySize);
    }
  }

  /** On a valid index every committed key decodes, and the decoded keys come out in strictly
      ascending storage order. */
  lemma ScanIsOrdered(ix: Index)
    requires Valid(ix)
    ensures forall i :: 0 <= i < |ix.batch.durable| ==> FromByteBuffer(ix.batch.durable[i]).Success?
    ensures forall i, j :: 0 <= i < j < |ix.batch.durable| ==>
              StorageLess(FromByteBuffer(ix.batch.durable[i]).value, FromByteBuffer(ix.batch.durable[j]).value)
  {
    var d := ix.batch.durable;
    forall i | 0 <= i < |d| ensures FromByteBuffer(d[i]).Success? {
      assert d[i] in d;
    }
    forall i, j | 0 <= i < j < |d|
      ensures StorageLess(FromByteBuffer(d[i]).value, FromByteBuffer(d[j]).value)
    {
      assert d[i] in d && d[j] in d;
      EncodedOrder(FromByteBuffer(d[i]).value, FromByteBuffer(d[j]).value, ix.maxKeySize);
    }
  }

  /** Writes `entries` in order, as an integrity scan does, ignoring failed writes. */
  function WriteEntries(ix: Index, entries: seq<SequenceKey>): Index
  {
    if |entries| == 0 then ix
    else
      var last := entries[|entries| - 1];
      WriteSequence(WriteEntries(ix, entries[..|entries| - 1]), last.ulid, last.position).0
  }

  /** The keys that writing `entries` stores: the encodings of those that fit. */
  function EncodedKeys(entries: seq<SequenceKey>, capacity: nat): set<Key>
  {
    set e | e in entries && Encodable(e, capacity) :: ToByteBuffer(e, capacity).value
  }

  /** A write adds the key's encoding to what is committed or pending, and nothing else. */
  lemma WriteSequenceStores(ix: Index, ulid: Ulids.Ulid, position: string)
    requires Valid(ix)
    ensures var ix' := WriteSequence(ix, ulid, position).0;
            var k := SequenceKey(ulid, position);
            forall x :: x in ix'.batch.durable || x in ix'.batch.pending <==>
              x in ix.batch.durable || x in ix.batch.pending
              || (Encodable(k, ix.maxKeySize) && x == ToByteBuffer(k, ix.maxKeySize).value)
  {
  }

  lemma {:induction false} WriteEntriesKeeps(maxKeySize: nat, n: int, entries: seq<SequenceKey>)
    requires n >= 1
    ensures var ix := WriteEntries(Create(maxKeySize, n), entries);
            && Valid(ix)
            && ix.maxKeySize == maxKeySize && ix.flushBufferCount == n
            && forall x :: x in ix.batch.durable || x in ix.batch.pending <==> x in EncodedKeys(entries, maxKeySize)
  {
    if |entries| > 0 {
      var prev := entries[..|entries| - 1];
      var last := entries[|entries| - 1];
      WriteEntriesKeeps(maxKeySize, n, prev);
      var ix0 := WriteEntries(Create(maxKeySize, n), prev);
      OperationsPreserveValid(ix0, last.ulid, last.position);
      WriteSequenceStores(ix0, last.ulid, last.position);
      EncodedKeysSnoc(entries, maxKeySize);
    }
  }

  lemma EncodedKeysSnoc(entries: seq<SequenceKey>, capacity: nat)
    requires |entries| > 0
    ensures var last := entries[|entries| - 1];
            forall x :: x in EncodedKeys(entries, capacity) <==>
              x in EncodedKeys(entries[..|entries| - 1], capacity)
              || (Encodable(last, capacity) && x == ToByteBuffer(last, capacity).value)
  {
    var prev := entries[..|entries| - 1];
    assert entries == prev + [entries[|entries| - 1]];
  }

  /** After a scan has written `entries` and closed the index, a read decodes exactly the
      entries that fit the key buffer, in storage order. */
  lemma ClosedIndexHoldsWrittenEntries(maxKeySize: nat, n: int, entries: seq<SequenceKey>)
    requires n >= 1
    ensures var ix := Close(WriteEntries(Create(maxKeySize, n), entries));
            && ix.batch.pending == []
            && (forall x :: x in ix.batch.durable ==>
                  FromByteBuffer(x).Success? && FromByteBuffer(x).value in entries)
            && (forall e :: e in entries && Encodable(e, maxKeySize) ==> ToByteBuffer(e, maxKeySize).value in ix.batch.durable)
            && (forall i, j :: 0 <= i < j < |ix.batch.durable| ==>
                  StorageLess(FromByteBuffer(ix.batch.durable[i]).value, FromByteBuffer(ix.batch.durable[j]).value))
  {
    var ix0 := WriteEntries(Create(maxKeySize, n), entries);
    WriteEntriesKeeps(maxKeySize, n, entries);
    var ix := Close(ix0);
    ScanIsOrdered(ix);
    forall x | x in ix.batch.durable
      ensures FromByteBuffer(x).Success? && FromByteBuffer(x).value in entries
    {
      assert x in EncodedKeys(entries, maxKeySize);
      var e :| e in entries && Encodable(e, maxKeySize) && x == ToByteBuffer(e, maxKeySize).value;
      RoundTrip(e, maxKeySize);
    }
    forall e | e in entries && Encodable(e, maxKeySize)
      ensures ToByteBuffer(e, maxKeySize).value in ix.batch.durable
    {
      assert ToByteBuffer(e, maxKeySize).value in EncodedKeys(entries, maxKeySize);
    }
  }

  // ---------------------------------------------------------------------------------------
  // A scan through the code's `writeSequence` and `close`.

  /** Writes `entries` in order through the code's `writeSequence`, ignoring failed writes. */
  function WriteEntriesAsWritten(ix: Index, entries: seq<SequenceKey>): Index
  {
    if |entries| == 0 then ix
    else
      var last := entries[|entries| - 1];
      WriteSequenceAsWritten(WriteEntriesAsWritten(ix, entries[..|entries| - 1]), last.ulid, last.position).0
  }

  /** The keys the code's writes of `entries` put, in order: the encoding of every entry that
      fits the key buffer, and nothing else. */
  function StoredAsWritten(entries: seq<SequenceKey>, capacity: nat): (ks: seq<Key>)
    ensures |ks| <= |entries|
  {
    if |entries| == 0 then []
    else
      var prev, last := entries[..|entries| - 1], entries[|entries| - 1];
      var enc := ToByteBufferAsWritten(last, capacity);
      if enc.Success? then StoredAsWritten(prev, capacity) + [enc.value] else StoredAsWritten(prev, capacity)
  }

  /** Every entry that fits the key buffer has its encoding among the stored keys. */
  lemma {:induction false} StoredAsWrittenHoldsFitting(entries: seq<SequenceKey>, capacity: nat)
    ensures forall e :: e in entries && Overhead + |Utf8.Encode(e.position)| <= capacity
              ==> ToByteBufferAsWritten(e, capacity).value in StoredAsWritten(entries, capacity)
  {
    if |entries| > 0 {
      var prev, last := entries[..|entries| - 1], entries[|entries| - 1];
      assert entries == prev + [last];
      StoredAsWrittenHoldsFitting(prev, capacity);
      var ks := StoredAsWritten(prev, capacity);
      assert forall x :: x in ks ==> x in StoredAsWritten(entries, capacity);
    }
  }

  /** Every stored key is the encoding of some entry. */
  lemma {:induction false} StoredAsWrittenOnlyEntries(entries: seq<SequenceKey>, capacity: nat)
    ensures forall x :: x in StoredAsWritten(entries, capacity) ==>
              exists e :: e in entries && ToByteBufferAsWritten(e, capacity) == Success(x)
  {
    if |entries| > 0 {
      var prev, last := entries[..|entries| - 1], entries[|entries| - 1];
      assert entries == prev + [last];
      StoredAsWrittenOnlyEntries(prev, capacity);
    }
  }

  /** From a new index, the code's writes of `entries` drive the batch exactly as writing
      the stored keys one by one does, and leave the pools and settings as they were. */
  lemma {:induction false} WriteEntriesAsWrittenBatch(maxKeySize: nat, n: int, entries: seq<SequenceKey>)
    ensures var ix := WriteEntriesAsWritten(Create(maxKeySize, n), entries);
            && ix.batch == WriteAllAsWritten(Fresh, n, StoredAsWritten(entries, maxKeySize))
            && ix.keyPool.available == PoolSize && ix.contentPool.available == PoolSize
            && ix.maxKeySize == maxKeySize && ix.flushBufferCount == n
  {
    if |entries| > 0 {
      var prev, last := entries[..|entries| - 1], entries[|entries| - 1];
      WriteEntriesAsWrittenBatch(maxKeySize, n, prev);
      var ix0 := WriteEntriesAsWritten(Create(maxKeySize, n), prev);
      var ks := StoredAsWritten(prev, maxKeySize);
      var enc := ToByteBufferAsWritten(last, maxKeySize);
      WriteSequenceAsWrittenStep(ix0, last);
      if enc.Success? {
        WriteAllAsWrittenSnoc(n, ks, enc.value);
      }
    }
  }

  /** With both pools free, the code's write changes only the batch, and only when the key
      fits its buffer. */
  lemma WriteSequenceAsWrittenStep(ix: Index, e: SequenceKey)
    requires ix.keyPool.available > 0 && ix.contentPool.available > 0
    ensures var enc := ToByteBufferAsWritten(e, ix.maxKeySize);
            WriteSequenceAsWritten(ix, e.ulid, e.position).0
              == if enc.Success? then ix.(batch := WriteAsWritten(ix.batch, ix.flushBufferCount, enc.value)) else ix
  {
  }

  /** What the code's `close()` leaves after a scan that stored the keys S. When |S| is not a
      multiple of N every key is committed. When |S| is a positive multiple of N the last key
      stored stays uncommitted, and a reader never sees it unless an equal key was committed
      before. */
  lemma ClosedIndexAsWritten(maxKeySize: nat, n: int, entries: seq<SequenceKey>)
    requires n >= 1
    ensures var ks := StoredAsWritten(entries, maxKeySize);
            var ix := Close(WriteEntriesAsWritten(Create(maxKeySize, n), entries));
            && (|ks| % n > 0 ==> ix.batch.pending == [] && forall x :: x in ix.batch.durable <==> x in ks)
            && (|ks| > 0 && |ks| % n == 0 ==>
                  ix.batch.pending == [ks[|ks| - 1]]
                  && forall x :: x in ix.batch.durable ==> x in ks[..|ks| - 1])
  {
    var ks := StoredAsWritten(entries, maxKeySize);
    WriteEntriesAsWrittenBatch(maxKeySize, n, entries);
    var b := WriteAllAsWritten(Fresh, n, ks);
    if |ks| % n > 0 {
      AsWrittenCloseCommitsAll(n, ks);
    } else if |ks| > 0 {
      CloseAfterFullBatchLosesWrite(n, ks);
      WritesAsWrittenAreKept(n, ks[..|ks| - 1]);
      WriteAllAsWrittenDurable(n, ks);
    }
  }
}
