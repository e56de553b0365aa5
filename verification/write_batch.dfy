/**
 The batched-commit protocol of `IntegrityCheckIndex`: one LMDB write transaction is reused
 for `flushBufferCount` writes, counted by `flushCounter`, then committed and replaced.

 In the code `writeSequence` asks `getWriteTransaction` for the transaction BEFORE it puts
 the key. The N-th call therefore commits the previous N-1 keys, resets the counter to 0 and
 puts the N-th key into the new transaction. With the counter at 0, `commit()` (and so
 `close()`) does nothing, and that key stays uncommitted. `WriteAsWritten` is that order;
 `Write` puts first and counts afterwards, so the counter always equals the number of
 uncommitted keys. Both share `Advance` and `Commit`.
 */
module WriteBatch {
  import opened Bytes
  import opened KeyStore

  type Store = s: seq<Key> | Sorted(s) witness []

  /** The flush state: `flushCounter`, whether `writeTransaction` is non-null, the keys put
      into the open transaction, how many commits happened, and the committed store. */
  datatype Batch = Batch(counter: int, open: bool, pending: seq<Key>, commits: nat, durable: Store)

  /** A freshly constructed index: counter 0 and no write transaction yet. */
  const Fresh: Batch := Batch(0, false, [], 0, [])

  /** Commit the open transaction, close it and open a new one; the counter restarts at 0. */
  function Rotate(b: Batch): (r: Batch)
    ensures forall x :: x in r.durable <==> x in b.durable || x in b.pending
  {
    Batch(0, true, [], b.commits + 1, InsertAll(b.durable, b.pending))
  }

  /** `flushCounter.incrementAndGet() == flushBufferCount`, and the rotation it triggers. */
  function Advance(b: Batch, n: int): (r: Batch)
    requires b.open
    ensures r.open
    ensures n >= 1 && 0 <= b.counter < n ==> 0 <= r.counter < n && r.counter == (b.counter + 1) % n
    ensures n >= 1 && 0 <= b.counter < n ==> r.commits == b.commits + (b.counter + 1) / n
    ensures r.commits > b.commits ==> r.pending == [] && r.counter == 0
    ensures forall x :: x in r.durable || x in r.pending <==> x in b.durable || x in b.pending
  {
    if b.counter + 1 == n then Rotate(b) else b.(counter := b.counter + 1)
  }

  /** `getWriteTransaction`: open a transaction if there is none, then count. */
  function GetWriteTransaction(b: Batch, n: int): (r: Batch)
    ensures r.open
    ensures n >= 1 && 0 <= b.counter < n ==> 0 <= r.counter < n
    ensures n >= 1 && 0 <= b.counter < n ==> r.commits == b.commits + (b.counter + 1) / n
  {
    Advance(b.(open := true), n)
  }

  /** `sequenceDb.put(txn, key, value)` into the open transaction: the key joins the
      transaction's keys after the others, and nothing else changes. */
  function Put(b: Batch, k: Key): (r: Batch)
    requires b.open
    ensures r.open && r.counter == b.counter && r.commits == b.commits && r.durable == b.durable
    ensures |r.pending| == |b.pending| + 1 && r.pending[..|b.pending|] == b.pending && r.pending[|b.pending|] == k
  {
    b.(pending := b.pending + [k])
  }

  /** `commit()` and `close()`: with a positive counter, set it to N-1 and let
      `getWriteTransaction` reach N and rotate. Whatever N and whatever is pending, a positive
      counter means exactly one commit that empties the open transaction into the store; a
      counter of 0 means nothing happens, even with keys pending. */
  function Commit(b: Batch, n: int): (r: Batch)
    ensures b.counter > 0 ==> r.open && r.counter == 0 && r.pending == [] && r.commits == b.commits + 1
    ensures b.counter > 0 ==> forall x :: x in r.durable <==> x in b.durable || x in b.pending
    ensures b.counter <= 0 ==> r == b
  {
    if b.counter > 0 then GetWriteTransaction(b.(counter := n - 1), n) else b
  }

  /** One write in the code's order: count (and maybe rotate), then put. On a counter in
      [0, N), the write that completes a batch commits the keys before it and opens the new
      transaction with itself, while the counter restarts at 0. */
  function WriteAsWritten(b: Batch, n: int, k: Key): (r: Batch)
    ensures r.open
    ensures forall x :: x in r.durable || x in r.pending <==> x in b.durable || x in b.pending || x == k
    ensures forall x :: x in r.durable ==> x in b.durable || x in b.pending
    ensures n >= 1 && 0 <= b.counter < n ==>
              var full := b.counter + 1 == n;
              && r.counter == (if full then 0 else b.counter + 1)
              && r.commits == b.commits + (if full then 1 else 0)
              && r.pending == (if full then [] else b.pending) + [k]
  {
    Put(GetWriteTransaction(b, n), k)
  }

  /** One write, put first and counted afterwards. It keeps the counter equal to the number
      of uncommitted keys: the key joins the open transaction, or the batch it completes is
      committed with it. */
  function Write(b: Batch, n: int, k: Key): (r: Batch)
    ensures r.open
    ensures forall x :: x in r.durable || x in r.pending <==> x in b.durable || x in b.pending || x == k
    ensures Inv(b, n) ==>
              var full := b.counter + 1 == n;
              && Inv(r, n)
              && r.commits == b.commits + (if full then 1 else 0)
              && r.pending == (if full then [] else b.pending + [k])
  {
    Advance(Put(b.(open := true), k), n)
  }

  /** The writes of `ks`, in order, in the code's order of operations. */
  function WriteAllAsWritten(b: Batch, n: int, ks: seq<Key>): Batch
  {
    if |ks| == 0 then b else WriteAsWritten(WriteAllAsWritten(b, n, ks[..|ks| - 1]), n, ks[|ks| - 1])
  }

  /** The writes of `ks`, in order, put first. */
  function WriteAll(b: Batch, n: int, ks: seq<Key>): Batch
  {
    if |ks| == 0 then b else Write(WriteAll(b, n, ks[..|ks| - 1]), n, ks[|ks| - 1])
  }

  /** The number of writes in `batches` full batches of `n`. */
  function Filled(batches: nat, n: int): int
  {
    if batches == 0 then 0 else Filled(batches - 1, n) + n
  }

  lemma {:induction false} FilledIsProduct(batches: nat, n: int)
    ensures Filled(batches, n) == batches * n
  {
    if batches > 0 {
      FilledIsProduct(batches - 1, n);
      assert batches * n == (batches - 1) * n + n;
    }
  }

  /** Every write the code performs lands in the committed store or the open transaction,
      and nothing else does. */
  lemma {:induction false} WritesAsWrittenAreKept(n: int, ks: seq<Key>)
    ensures var b := WriteAllAsWritten(Fresh, n, ks);
            forall x :: x in b.durable || x in b.pending <==> x in ks
  {
    if |ks| > 0 {
      WritesAsWrittenAreKept(n, ks[..|ks| - 1]);
      assert ks == ks[..|ks| - 1] + [ks[|ks| - 1]];
    }
  }

  /** The code's counting, without division: `k` writes fill `commits` batches of N and
      `counter` more; before the first commit all `k` keys are pending, after it `counter + 1`,
      the last of them being the last key written. */
  predicate TalliedAsWritten(b: Batch, n: int, ks: seq<Key>)
  {
    && 0 <= b.counter < n
    && |ks| == Filled(b.commits, n) + b.counter
    && (b.commits == 0 <==> |ks| < n)
    && |b.pending| == (if b.commits == 0 then |ks| else b.counter + 1)
    && (|ks| > 0 ==> b.open && |b.pending| > 0 && b.pending[|b.pending| - 1] == ks[|ks| - 1])
  }

  lemma TallyAsWrittenStep(b: Batch, n: int, ks: seq<Key>)
    requires n >= 1 && |ks| > 0 && TalliedAsWritten(b, n, ks[..|ks| - 1])
    ensures TalliedAsWritten(WriteAsWritten(b, n, ks[|ks| - 1]), n, ks)
  {
  }

  lemma {:induction false} WritesAsWrittenTally(n: int, ks: seq<Key>)
    requires n >= 1
    ensures TalliedAsWritten(WriteAllAsWritten(Fresh, n, ks), n, ks)
  {
    if |ks| > 0 {
      var k := |ks| - 1;
      WritesAsWrittenTally(n, ks[..k]);
      var b0 := WriteAllAsWritten(Fresh, n, ks[..k]);
      TallyAsWrittenStep(b0, n, ks);
      assert WriteAllAsWritten(Fresh, n, ks) == WriteAsWritten(b0, n, ks[k]);
    }
  }

  /** From a fresh index, `k` writes in the code's order perform `k div N` commits and leave
      the counter at `k mod N`; the open transaction holds `k` keys before the first commit
      and `k mod N + 1` after it, so up to N keys, not N-1, can be uncommitted. */
  lemma WritesAsWrittenCount(n: int, ks: seq<Key>)
    requires n >= 1
    ensures var b := WriteAllAsWritten(Fresh, n, ks);
            && b.commits == |ks| / n
            && b.counter == |ks| % n
            && |b.pending| == (if |ks| < n then |ks| else |ks| % n + 1)
            && (|ks| > 0 ==> b.open)
  {
    WritesAsWrittenTally(n, ks);
    var b := WriteAllAsWritten(Fresh, n, ks);
    FilledIsProduct(b.commits, n);
    DivModUnique(|ks|, n, b.commits, b.counter);
  }

  /** Finding: when the number of writes is a positive multiple of N, `close()` commits
      nothing and the last key written stays in the open transaction. */
  lemma CloseAfterFullBatchLosesWrite(n: int, ks: seq<Key>)
    requires n >= 1 && |ks| > 0 && |ks| % n == 0
    ensures var b := WriteAllAsWritten(Fresh, n, ks);
            && Commit(b, n) == b
            && b.pending == [ks[|ks| - 1]]
  {
    WritesAsWrittenCount(n, ks);
    WritesAsWrittenTally(n, ks);
  }

  lemma WriteAllAsWrittenSnoc(n: int, ks: seq<Key>, k: Key)
    ensures WriteAllAsWritten(Fresh, n, ks + [k]) == WriteAsWritten(WriteAllAsWritten(Fresh, n, ks), n, k)
  {
    assert (ks + [k])[..|ks|] == ks;
  }

  /** The last write in the code's order commits, at most, the keys written before it. */
  lemma WriteAllAsWrittenDurable(n: int, ks: seq<Key>)
    requires |ks| > 0
    ensures forall x :: x in WriteAllAsWritten(Fresh, n, ks).durable ==> x in ks[..|ks| - 1]
  {
    WritesAsWrittenAreKept(n, ks[..|ks| - 1]);
  }

  /** When the number of writes is not a multiple of N, the code's `close()` does commit
      everything: the counter is positive, so the rotation takes the whole open transaction. */
  lemma AsWrittenCloseCommitsAll(n: int, ks: seq<Key>)
    requires n >= 1 && |ks| % n > 0
    ensures var b := Commit(WriteAllAsWritten(Fresh, n, ks), n);
            && b.pending == []
            && forall x :: x in b.durable <==> x in ks
  {
    WritesAsWrittenCount(n, ks);
    WritesAsWrittenAreKept(n, ks);
  }

  /** The smallest instance: with N = 1 one write and a `close()` leave the key uncommitted. */
  lemma SingleWriteNeverCommitted(k: Key)
    ensures var b := Commit(WriteAllAsWritten(Fresh, 1, [k]), 1);
            k !in b.durable && b.pending == [k]
  {
    CloseAfterFullBatchLosesWrite(1, [k]);
    assert [k][..0] == [];
  }

  // ---------------------------------------------------------------------------------------
  // The corrected order.

  /** The counter is in [0, N) and equals the number of uncommitted keys. */
  predicate Inv(b: Batch, n: int)
  {
    n >= 1 && 0 <= b.counter < n && |b.pending| == b.counter
  }

  /** Every written key lands in the committed store or the open transaction, and nothing
      else does. */
  lemma {:induction false} WritesAreKept(n: int, ks: seq<Key>)
    ensures var b := WriteAll(Fresh, n, ks);
            forall x :: x in b.durable || x in b.pending <==> x in ks
  {
    if |ks| > 0 {
      WritesAreKept(n, ks[..|ks| - 1]);
      assert ks == ks[..|ks| - 1] + [ks[|ks| - 1]];
    }
  }

  /** The counting without division: `k` writes fill `commits` batches of N and `counter` more,
      and the pending keys are the last `counter` written. */
  predicate Tallied(b: Batch, n: int, ks: seq<Key>)
  {
    && Inv(b, n)
    && b.counter <= |ks|
    && |ks| == Filled(b.commits, n) + b.counter
    && b.pending == ks[|ks| - b.counter..]
  }

  lemma TallyStep(b: Batch, n: int, ks: seq<Key>)
    requires |ks| > 0 && Tallied(b, n, ks[..|ks| - 1])
    ensures Tallied(Write(b, n, ks[|ks| - 1]), n, ks)
  {
    var k := |ks| - 1;
    if b.counter + 1 < n {
      assert ks[..k][k - b.counter..] + [ks[k]] == ks[k - b.counter..];
    }
  }

  lemma {:induction false} WritesTally(n: int, ks: seq<Key>)
    requires n >= 1
    ensures Tallied(WriteAll(Fresh, n, ks), n, ks)
  {
    if |ks| > 0 {
      var k := |ks| - 1;
      WritesTally(n, ks[..k]);
      var b0 := WriteAll(Fresh, n, ks[..k]);
      TallyStep(b0, n, ks);
      assert WriteAll(Fresh, n, ks) == Write(b0, n, ks[k]);
    }
  }

  /** From a fresh index, `k` writes perform `k div N` commits and leave exactly the last
      `k mod N` keys uncommitted. */
  lemma WritesCount(n: int, ks: seq<Key>)
    requires n >= 1
    ensures var b := WriteAll(Fresh, n, ks);
            && Inv(b, n)
            && b.commits == |ks| / n
            && b.pending == ks[|ks| - |ks| % n..]
  {
    WritesTally(n, ks);
    var b := WriteAll(Fresh, n, ks);
    FilledIsProduct(b.commits, n);
    DivModUnique(|ks|, n, b.commits, b.counter);
  }

  /** A second `commit()` right after the first never does anything. */
  lemma CommitTwice(b: Batch, n: int)
    ensures Commit(Commit(b, n), n) == Commit(b, n)
  {
  }

  /** With the counter equal to the number of uncommitted keys, `commit()` leaves nothing
      uncommitted: a counter of 0 means nothing is pending. */
  lemma CommitDrains(b: Batch, n: int)
    requires Inv(b, n)
    ensures Commit(b, n).pending == []
    ensures forall x :: x in Commit(b, n).durable <==> x in b.durable || x in b.pending
    ensures Commit(b, n).commits == b.commits + (if b.counter > 0 then 1 else 0)
  {
  }

  /** Writing `ks` and closing commits every key: `k div N` full batches plus one partial
      batch when `k mod N > 0`. */
  lemma {:induction false} WriteAllThenClose(n: int, ks: seq<Key>)
    requires n >= 1
    ensures var b := Commit(WriteAll(Fresh, n, ks), n);
            && b.pending == []
            && (forall x :: x in b.durable <==> x in ks)
            && b.commits == |ks| / n + (if |ks| % n > 0 then 1 else 0)
  {
    WritesCount(n, ks);
    WritesAreKept(n, ks);
    var b := WriteAll(Fresh, n, ks);
    if |ks| > 0 {
      assert b.open by { WriteAllOpens(n, ks); }
    }
    CommitDrains(b, n);
  }

  lemma WriteAllOpens(n: int, ks: seq<Key>)
    requires |ks| > 0
    ensures WriteAll(Fresh, n, ks).open
  {
  }
}
