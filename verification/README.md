# Integrity-check index and job registry of the data collector, in Dafny

This project models three sequential pieces of the data-collection server's integrity-check
and job-coordination code, and proves properties of the model.

- **The sequence index** (`IntegrityCheckIndex`). A `SequenceKey` pairs a record's ULID with
  its position string. Each key is encoded as an LMDB key with this layout:
  - one length octet;
  - the UTF-8 octets of the position;
  - the ULID's most-significant `long`, big-endian;
  - the ULID's least-significant `long`, big-endian.

  Writes go through a write transaction that is committed after every `flushBufferCount`
  writes. `commit`/`close` flush what is left. `readSequence` visits the committed keys in
  LMDB's memcmp order and passes a has-more flag with each one.
- **The job registry** (`WorkManager`). It holds the set of running `JobId(workerId,
  specificationId)` entries and a lazily grown map of per-specification locks.
- **The recovery test's pieces** (`RecoveryTest`). These are the least-ULID accumulator
  `PositionAndULIDVersion.compareAndSet` and the duplicate-publishing generator
  `produceMessages`.

Modules and files:

| file | module | models |
|---|---|---|
| `wrappers.dfy` | `Wrappers` | `Option`, `Result`, `Outcome` for nulls and exceptions |
| `bytes.dfy` | `Bytes` | octets, Java `byte`/`long`, `putLong`/`getLong`, memcmp order |
| `utf8.dfy` | `Utf8` | `getBytes(UTF_8)` and `new String(bytes, UTF_8)` |
| `ulids.dfy` | `Ulids` | `ULID.Value` as two longs, with `compareTo` |
| `sequence_key.dfy` | `SequenceKeys` | `SequenceKey`: codec, `equals`, `compareTo`, storage order |
| `key_store.dfy` | `KeyStore` | the LMDB database as a strictly sorted key sequence |
| `write_batch.dfy` | `WriteBatch` | `getWriteTransaction`, `commit`, the flush counter |
| `integrity_check_index.dfy` | `IntegrityCheckIndex` | `writeSequence`, `readSequence`, `close`, buffer pools |
| `work_manager.dfy` | `WorkManager` | the job registry and its locks |
| `position_version.dfy` | `PositionVersion` | `PositionAndULIDVersion.compareAndSet` |
| `produce_messages.dfy` | `ProduceMessages` | `RecoveryTest.produceMessages` |

Three behaviours of the code are easy to misread. The model follows the code:
- **Round trip.** The length octet is written as `(byte) key.length` and read back with the
  signed `get()`. Keys therefore read back only for positions of up to 127 octets (first
  Finding); longer positions either throw or read back as a different key.
- **Key order.** For positions of at most 255 octets, encoded keys sort by the position's
  length in octets first, because the length octet leads the key. So "9" comes before "10"
  (`SequenceKeys.StorageOrderIsNotPositionOrder`). Positions of equal length compare octet by
  octet, unsigned. For equal positions, keys sort by the ULID halves read as unsigned numbers
  (`SequenceKeys.EncodedOrderAsWritten` proves the whole order). Longer positions
  sort by their length modulo 256 first (`SequenceKeys.KeyLayoutAsWritten`). `compareTo`
  looks at the ULID alone.
- **Close and lost writes.** `close()` commits only when the flush counter is positive.
  Because `writeSequence` counts before it puts, up to `N` writes can be uncommitted at once,
  and when the number of writes is a positive multiple of `N` the last one stays uncommitted
  after `close()` (second Finding).

## Model

| member | source | states |
|---|---|---|
| `Bytes.SignedByte` | src/main/java/no/ssb/dc/server/service/IntegrityCheckIndex.java:114 | the signed `get()` of an octet lies in [-128, 128) and agrees with the octet modulo 256 |
| `Bytes.LowByte` | src/main/java/no/ssb/dc/server/service/IntegrityCheckIndex.java:126 | `(byte) n` stores an octet congruent to `n` modulo 256, so lengths of 256 or more wrap |
| `Bytes.LongRoundTrip` | src/main/java/no/ssb/dc/server/service/IntegrityCheckIndex.java:117-129 | `getLong` after `putLong` returns the same long, and every eight octets are the `putLong` image of their `getLong` |
| `Bytes.LongToBytes` | src/main/java/no/ssb/dc/server/service/IntegrityCheckIndex.java:128-129 | `putLong` writes eight octets whose unsigned big-endian value is the two's-complement pattern of the long |
| `Bytes.BytesToLong` | src/main/java/no/ssb/dc/server/service/IntegrityCheckIndex.java:117-118 | `getLong` of eight octets returns the long whose `putLong` octets they are, so every eight octets are some long's image |
| `Bytes.LexLessBigEndian` | src/main/java/no/ssb/dc/server/service/IntegrityCheckIndex.java:128-129 | on equal-width big-endian octets, memcmp order is numeric order of the unsigned values |
| `Utf8.DecodeEncode` | src/main/java/no/ssb/dc/server/service/IntegrityCheckIndex.java:119-125 | decoding the UTF-8 octets of a position gives back the position |
| `Utf8.EncodeInjective` | src/main/java/no/ssb/dc/server/service/IntegrityCheckIndex.java:125 | different positions have different UTF-8 octets |
| `Utf8.EncodeAscii` | src/main/java/no/ssb/dc/server/service/IntegrityCheckIndex.java:125 | an ASCII position is encoded one octet per character, as the characters themselves |
| `Utf8.Encode` | src/main/java/no/ssb/dc/server/service/IntegrityCheckIndex.java:125 | `getBytes(UTF_8)` takes between one and four octets per character |
| `Utf8.Decode` | src/main/java/no/ssb/dc/server/service/IntegrityCheckIndex.java:119 | `new String(bytes, UTF_8)` accepts only octets that are the UTF-8 encoding of the string it returns |
| `Ulids.Compare` | src/main/java/no/ssb/dc/server/service/IntegrityCheckIndex.java:149 | ULID comparison is -1, 0 or 1, and 0 exactly for equal ULIDs |
| `Ulids.CompareIsTotalOrder` | src/main/java/no/ssb/dc/server/service/IntegrityCheckIndex.java:149 | ULID comparison is antisymmetric in sign, transitive, total and irreflexive |
| `SequenceKeys.CompareTo` | src/main/java/no/ssb/dc/server/service/IntegrityCheckIndex.java:147-150 | `compareTo` is -1, 0 or 1; it is 0 exactly when the ULIDs agree and 0 for `equals` keys; swapping the arguments negates it |
| `SequenceKeys.CompareToZeroIsNotEquality` | src/main/java/no/ssb/dc/server/service/IntegrityCheckIndex.java:133-150 | two keys with the same ULID and different positions compare as 0 but are not equal |
| `SequenceKeys.KeyLayout` | src/main/java/no/ssb/dc/server/service/IntegrityCheckIndex.java:124-131 | (corrected codec, unsigned length octet) a successful key holds, after its length octet, the position octets that decode to the position, then the ULID high long, then the ULID low long |
| `SequenceKeys.KeyLayoutAsWritten` | src/main/java/no/ssb/dc/server/service/IntegrityCheckIndex.java:124-131 | whenever the code's encoder succeeds, the first octet is the position length modulo 256, followed by the position octets, the ULID high long and the ULID low long |
| `SequenceKeys.ToByteBufferAsWritten` | src/main/java/no/ssb/dc/server/service/IntegrityCheckIndex.java:124-131 | the code's encoder succeeds exactly when `17 + |utf8(position)|` octets fit the buffer, otherwise overflows; the key has that length and its first octet is `(byte)` of the position length |
| `SequenceKeys.FromByteBufferAsWritten` | src/main/java/no/ssb/dc/server/service/IntegrityCheckIndex.java:113-122 | the code's reader throws `NegativeArraySizeException` exactly when the first octet is 128 or more; what it accepts is the code's encoding of the returned key, followed by ignored octets |
| `SequenceKeys.SignedReadRejectsLongPositions` | src/main/java/no/ssb/dc/server/service/IntegrityCheckIndex.java:114-126 | every key whose position takes 128 to 255 octets and fits is written, and reading it back throws `NegativeArraySizeException` |
| `SequenceKeys.WrappedLengthNeverRoundTrips` | src/main/java/no/ssb/dc/server/service/IntegrityCheckIndex.java:114-126 | a written key whose position takes more than 255 octets never reads back as itself |
| `SequenceKeys.ToByteBuffer` | src/main/java/no/ssb/dc/server/service/IntegrityCheckIndex.java:124-131 | (corrected codec) encoding succeeds exactly for keys whose position takes at most 255 octets and that fit; too long a position fails with `KeyTooLarge`, otherwise overflow; a key is `17 + |utf8(position)|` octets and starts with the unsigned length |
| `SequenceKeys.FromByteBuffer` | src/main/java/no/ssb/dc/server/service/IntegrityCheckIndex.java:113-122 | (corrected codec) reading fails only with underflow, exactly when the key is shorter than its length octet says, or with a malformed position; what it accepts is the corrected encoding of the returned key |
| `SequenceKeys.RoundTripAsWritten` | src/main/java/no/ssb/dc/server/service/IntegrityCheckIndex.java:113-131 | with the code's signed length octet, decoding an encoded key returns it whenever the position takes at most 127 octets and fits the buffer |
| `SequenceKeys.LongPositionBreaksRoundTrip` | src/main/java/no/ssb/dc/server/service/IntegrityCheckIndex.java:114-126 | a 128-character position encodes, but reading it back fails with `NegativeArraySizeException` |
| `SequenceKeys.VeryLongPositionDecodesWrongly` | src/main/java/no/ssb/dc/server/service/IntegrityCheckIndex.java:114-126 | a 256-character position reads back, without error, as a different key with an empty position |
| `SequenceKeys.RoundTrip` | src/main/java/no/ssb/dc/server/service/IntegrityCheckIndex.java:113-131 | with an unsigned length octet, decoding an encoded key returns it for every position of up to 255 octets that fits the buffer |
| `SequenceKeys.EncodingInjective` | src/main/java/no/ssb/dc/server/service/IntegrityCheckIndex.java:124-131 | (corrected codec) different keys have different encodings, so LMDB never merges two keys |
| `SequenceKeys.EncodedOrder` | src/main/java/no/ssb/dc/server/service/IntegrityCheckIndex.java:124-130 | (corrected codec) memcmp order on encoded keys is exactly: position octet length, then position octets, then unsigned ULID high long, then unsigned low long |
| `SequenceKeys.AsWrittenAgrees` | src/main/java/no/ssb/dc/server/service/IntegrityCheckIndex.java:124-131 | for every position of at most 255 octets that fits, the code's encoder writes exactly the corrected encoder's octets |
| `SequenceKeys.EncodedOrderAsWritten` | src/main/java/no/ssb/dc/server/service/IntegrityCheckIndex.java:124-131 | for positions of at most 255 octets, memcmp order on the code's encoded keys is exactly: position octet length, then position octets, then unsigned ULID high long, then unsigned low long |
| `SequenceKeys.StorageOrderIsNotPositionOrder` | src/main/java/no/ssb/dc/server/service/IntegrityCheckIndex.java:124-150 | "9" is stored before "10", and `compareTo` can order two keys opposite to storage order |
| `KeyStore.Insert` | src/main/java/no/ssb/dc/server/service/IntegrityCheckIndex.java:78 | `put` keeps the store strictly sorted and adds exactly the key, growing by one unless the key is already there |
| `KeyStore.InsertAll` | src/main/java/no/ssb/dc/server/service/IntegrityCheckIndex.java:51 | committing a transaction leaves a sorted store of the old keys plus the transaction's keys |
| `WriteBatch.Put` | src/main/java/no/ssb/dc/server/service/IntegrityCheckIndex.java:78 | `put` appends the key to the open transaction's keys, keeping them in order, and changes nothing else |
| `WriteBatch.Rotate` | src/main/java/no/ssb/dc/server/service/IntegrityCheckIndex.java:50-57 | commit-and-reopen makes every pending key durable |
| `WriteBatch.Advance` | src/main/java/no/ssb/dc/server/service/IntegrityCheckIndex.java:49-58 | for N ≥ 1 and a counter in [0, N), the counter becomes `(c+1) mod N`; exactly `(c+1) div N` commits happen, after which nothing is pending; no key is lost or added |
| `WriteBatch.GetWriteTransaction` | src/main/java/no/ssb/dc/server/service/IntegrityCheckIndex.java:45-60 | returns with a transaction open and the counter in [0, N), committing exactly when the incremented counter reaches N |
| `WriteBatch.Commit` | src/main/java/no/ssb/dc/server/service/IntegrityCheckIndex.java:62-67 | `commit()` with a positive counter, whatever N and whatever is pending, makes exactly one commit that empties the open transaction into the store and resets the counter; with a counter of 0 or less nothing changes, even with keys pending |
| `WriteBatch.CommitTwice` | src/main/java/no/ssb/dc/server/service/IntegrityCheckIndex.java:62-67 | a second `commit()` right after the first changes nothing |
| `WriteBatch.WriteAsWritten` | src/main/java/no/ssb/dc/server/service/IntegrityCheckIndex.java:77-78 | one write in the code's order keeps every key, commits only keys written before it, and on a counter in [0, N) either counts up and appends the key or, completing a batch, commits the previous keys and leaves only the new key pending with the counter at 0 |
| `WriteBatch.WritesAsWrittenAreKept` | src/main/java/no/ssb/dc/server/service/IntegrityCheckIndex.java:69-85 | in the code's order, every written key is durable or pending, and nothing else is |
| `WriteBatch.WritesAsWrittenCount` | src/main/java/no/ssb/dc/server/service/IntegrityCheckIndex.java:45-85 | in the code's order, k writes make `k div N` commits and leave the counter at `k mod N`, with k pending before the first commit and `k mod N + 1` after it |
| `WriteBatch.CloseAfterFullBatchLosesWrite` | src/main/java/no/ssb/dc/server/service/IntegrityCheckIndex.java:62-67 | after a positive multiple of N writes in the code's order, `commit`/`close` changes nothing and the last key stays pending |
| `WriteBatch.AsWrittenCloseCommitsAll` | src/main/java/no/ssb/dc/server/service/IntegrityCheckIndex.java:62-67 | in the code's order, when the number of writes is not a multiple of N, `close()` leaves nothing pending and exactly the written keys durable |
| `WriteBatch.WriteAllAsWrittenDurable` | src/main/java/no/ssb/dc/server/service/IntegrityCheckIndex.java:45-85 | in the code's order the last write commits at most the keys written before it |
| `WriteBatch.SingleWriteNeverCommitted` | src/main/java/no/ssb/dc/server/service/IntegrityCheckIndex.java:62-67 | with N = 1, one write and a close leave the key uncommitted |
| `WriteBatch.WritesAreKept` | src/main/java/no/ssb/dc/server/service/IntegrityCheckIndex.java:69-85 | with the write counted after the put, every written key is durable or pending, and nothing else is |
| `WriteBatch.WritesCount` | src/main/java/no/ssb/dc/server/service/IntegrityCheckIndex.java:49-58 | with the write counted after the put, k writes make `k div N` commits, keep the counter in [0, N), and leave exactly the last `k mod N` keys pending |
| `WriteBatch.Write` | src/main/java/no/ssb/dc/server/service/IntegrityCheckIndex.java:77-78 | (corrected, put-then-count) one write keeps every key and keeps the counter equal to the number of uncommitted keys, committing the batch the key completes |
| `WriteBatch.CommitDrains` | src/main/java/no/ssb/dc/server/service/IntegrityCheckIndex.java:62-67 | (corrected, put-then-count) when the counter equals the number of uncommitted keys, `commit()` leaves nothing pending, makes every key durable, and commits once iff the counter is positive |
| `WriteBatch.WriteAllThenClose` | src/main/java/no/ssb/dc/server/service/IntegrityCheckIndex.java:100-102 | (corrected, put-then-count) writing k keys and closing leaves nothing pending and every key durable, after `k div N` commits plus one if `k mod N > 0` |
| `IntegrityCheckIndex.Acquire` | src/main/java/no/ssb/dc/server/service/IntegrityCheckIndex.java:70 | acquiring succeeds iff a buffer is free, and then takes exactly one |
| `IntegrityCheckIndex.Release` | src/main/java/no/ssb/dc/server/service/IntegrityCheckIndex.java:80-83 | `release` gives the buffer back: acquiring right after hands out the pool as it was before the release |
| `IntegrityCheckIndex.Create` | src/main/java/no/ssb/dc/server/service/IntegrityCheckIndex.java:33-39 | a new index has ten free buffers in each pool, nothing stored, no write transaction and counter 0, and satisfies the index invariant for N ≥ 1 |
| `IntegrityCheckIndex.WriteSequence` | src/main/java/no/ssb/dc/server/service/IntegrityCheckIndex.java:69-85 | (corrected codec, put-then-count) both pools are as available after the call as before, on every path; a failed write changes nothing; a write succeeds iff buffers are free and the key fits; a key that does not fit fails with an encoding error |
| `IntegrityCheckIndex.WriteSequenceAsWritten` | src/main/java/no/ssb/dc/server/service/IntegrityCheckIndex.java:69-85 | the code's write returns both buffers on every path and changes nothing when it fails; it succeeds iff buffers are free and `17 + |utf8(position)|` octets fit the key buffer, overflowing otherwise; on success the batch takes the code's encoding in the count-then-put order |
| `IntegrityCheckIndex.CommitIndex` | src/main/java/no/ssb/dc/server/service/IntegrityCheckIndex.java:62-67 | `commit()` changes only the batch: a positive counter empties the open transaction into the store, a counter of 0 changes nothing, and a valid index stays valid with nothing pending |
| `IntegrityCheckIndex.Close` | src/main/java/no/ssb/dc/server/service/IntegrityCheckIndex.java:99-102 | after `close()` a reader sees the committed keys plus the uncommitted ones only if the counter was positive; otherwise the uncommitted keys stay pending |
| `IntegrityCheckIndex.ReadKeys` | src/main/java/no/ssb/dc/server/service/IntegrityCheckIndex.java:89-95 | the read loop passes each key's decoding with whether another key follows, and stops at the first key that does not decode, reporting its error |
| `IntegrityCheckIndex.ReadSequence` | src/main/java/no/ssb/dc/server/service/IntegrityCheckIndex.java:87-97 | (corrected codec) each visit carries the decoding of the committed key at its index and the flag is true on every visit but the last; reading stops at the first undecodable key with its error; on a valid index every key is visited, in strictly ascending storage order |
| `IntegrityCheckIndex.ReadSequenceAsWritten` | src/main/java/no/ssb/dc/server/service/IntegrityCheckIndex.java:87-97 | the code's read visits keys in storage order with the has-more flag, throws at the first key it cannot read, and never visits a key whose length octet is 128 or more or any key after it |
| `IntegrityCheckIndex.OperationsPreserveValid` | src/main/java/no/ssb/dc/server/service/IntegrityCheckIndex.java:69-85 | (corrected codec, put-then-count) a write preserves the invariant: counter in [0, N) equal to the pending count, free buffers, only well-formed keys stored; on a valid index a write succeeds iff the key fits |
| `IntegrityCheckIndex.ScanIsOrdered` | src/main/java/no/ssb/dc/server/service/IntegrityCheckIndex.java:87-97 | (corrected codec, put-then-count) on a valid index every committed key decodes, and the decoded keys are strictly ascending in storage order |
| `IntegrityCheckIndex.WriteSequenceStores` | src/main/java/no/ssb/dc/server/service/IntegrityCheckIndex.java:69-85 | (corrected codec, put-then-count) a write adds the key's encoding to the durable or pending keys, and nothing else |
| `IntegrityCheckIndex.WriteEntriesKeeps` | src/main/java/no/ssb/dc/server/service/IntegrityCheckIndex.java:69-85 | (corrected codec, put-then-count) after a sequence of writes the index is valid and holds exactly the encodings of the entries that fit |
| `IntegrityCheckIndex.ClosedIndexHoldsWrittenEntries` | src/main/java/no/ssb/dc/server/service/IntegrityCheckIndex.java:69-102 | (corrected codec, put-then-count) after writes and close, nothing is pending, every stored key decodes to a written entry, every entry that fits is stored, and reading yields them in storage order |
| `IntegrityCheckIndex.StoredAsWrittenHoldsFitting` | src/main/java/no/ssb/dc/server/service/IntegrityCheckIndex.java:69-85 | the code's writes store the encoding of every entry whose key fits the buffer |
| `IntegrityCheckIndex.StoredAsWrittenOnlyEntries` | src/main/java/no/ssb/dc/server/service/IntegrityCheckIndex.java:69-85 | every key the code's writes store is the code's encoding of some entry |
| `IntegrityCheckIndex.WriteEntriesAsWrittenBatch` | src/main/java/no/ssb/dc/server/service/IntegrityCheckIndex.java:69-85 | from a new index, the code's writes drive the batch exactly as writing the stored keys one by one in the count-then-put order, and leave the pools and settings as they were |
| `IntegrityCheckIndex.ClosedIndexAsWritten` | src/main/java/no/ssb/dc/server/service/IntegrityCheckIndex.java:69-102 | after the code's writes and `close()`, every stored key is durable when their number is not a multiple of N; when it is a positive multiple, the last stored key stays pending and only earlier keys are durable |
| `WorkManager.JobIdEqualsIsEquivalence` | src/main/java/no/ssb/dc/server/service/WorkManager.java:106-113 | `JobId.equals` (`JobIdEquals`) is an equivalence that depends only on (workerId, specificationId), not on the worker |
| `WorkManager.Lock` | src/main/java/no/ssb/dc/server/service/WorkManager.java:30-37 | `lock(s)` adds `s` to the lock map if absent and takes one more hold on it; no other lock or job changes |
| `WorkManager.Unlock` | src/main/java/no/ssb/dc/server/service/WorkManager.java:39-42 | `unlock(s)` fails with a null pointer for a never-locked `s` and with an illegal monitor state when `s` is not held; otherwise it releases one hold and keeps the key |
| `WorkManager.AnyMatch` | src/main/java/no/ssb/dc/server/service/WorkManager.java:45 | true iff some job in the key set has the specification |
| `WorkManager.IsRunning` | src/main/java/no/ssb/dc/server/service/WorkManager.java:44-46 | `isRunning(s)` iff some registered job has specification `s` |
| `WorkManager.List` | src/main/java/no/ssb/dc/server/service/WorkManager.java:65-67 | `list()` contains exactly the registered worker ids, one per job, with no repeats on a valid registry |
| `WorkManager.FindFirst` | src/main/java/no/ssb/dc/server/service/WorkManager.java:82 | `findFirst` finds a job with the worker id iff there is one |
| `WorkManager.Get` | src/main/java/no/ssb/dc/server/service/WorkManager.java:81-83 | `get(w)` is null iff `w` is not registered, otherwise a registered job with worker id `w` |
| `WorkManager.Run` | src/main/java/no/ssb/dc/server/service/WorkManager.java:48-63 | `run` with a fresh worker id adds exactly one job, with an unterminated worker, returns it, and keeps worker ids unique |
| `WorkManager.Terminate` | src/main/java/no/ssb/dc/server/service/WorkManager.java:75-77 | terminating keeps every job equal under `JobId.equals`, changes only jobs with that worker id, and terminates the first |
| `WorkManager.Cancel` | src/main/java/no/ssb/dc/server/service/WorkManager.java:69-79 | `cancel(w)` returns true iff `w` is registered; when false nothing changes |
| `WorkManager.RemoveKey` | src/main/java/no/ssb/dc/server/service/WorkManager.java:87 | `workerFutures.remove(jobId)` drops exactly the entries equal to the key |
| `WorkManager.Remove` | src/main/java/no/ssb/dc/server/service/WorkManager.java:85-88 | `remove(w)` throws `NoSuchElementException` iff `w` is not registered |
| `WorkManager.RunRegisters` | src/main/java/no/ssb/dc/server/service/WorkManager.java:48-63 | after `run`, the specification is running, `list` includes the id and has one more entry, `get` returns the new job, and `get` of any other id is unchanged |
| `WorkManager.CancelKeepsJobs` | src/main/java/no/ssb/dc/server/service/WorkManager.java:69-79 | `cancel` never removes a job: `list` and every `isRunning` are unchanged, and a successful cancel leaves the job's worker terminated |
| `WorkManager.CancelTerminates` | src/main/java/no/ssb/dc/server/service/WorkManager.java:75-78 | cancelling a registered id terminates the worker `get` returns for it |
| `WorkManager.RemoveOnlyThatJob` | src/main/java/no/ssb/dc/server/service/WorkManager.java:85-88 | removing a registered id succeeds, leaves `get(w)` null, leaves `get` of every other id unchanged, and shrinks the registry by one |
| `WorkManager.LockMapGrows` | src/main/java/no/ssb/dc/server/service/WorkManager.java:30-88 | over any sequence of calls (`Step`: lock, unlock, run, cancel, remove, a throwing call changing nothing) the lock map only grows and worker ids stay unique; `unlock` of a specification never locked fails |
| `PositionVersion.CompareAndSet` | src/test/java/no/ssb/dc/server/service/RecoveryTest.java:151-163 | afterwards a pair is held; its ULID is the least of the old and the offered one; it is either unchanged or the offered pair, and it changes only for a strictly smaller ULID |
| `PositionVersion.HeldIsLeast` | src/test/java/no/ssb/dc/server/service/RecoveryTest.java:146-164 | after any non-empty sequence of offers, the holder has an offered pair whose ULID is no greater than any offered ULID |
| `PositionVersion.OrderIndependent` | src/test/java/no/ssb/dc/server/service/RecoveryTest.java:146-164 | two offer sequences with the same ULIDs select the same ULID, whatever their order |
| `PositionVersion.LeastVersionIsSelected` | src/test/java/no/ssb/dc/server/service/RecoveryTest.java:146-164 | with v1 < v2 < v3 offered as v2, v3, v1, v3, the holder has v2, v2, v1, v1 |
| `ProduceMessages.Publications` | src/test/java/no/ssb/dc/server/service/RecoveryTest.java:38-44 | n iterations publish `n + max(0, n - 20000)` messages |
| `ProduceMessages.MainPublications` | src/test/java/no/ssb/dc/server/service/RecoveryTest.java:38-43 | iteration k publishes position k at a stream index that increases with k; from 20000 on, its random extra follows it directly |
| `ProduceMessages.PublicationsInRange` | src/test/java/no/ssb/dc/server/service/RecoveryTest.java:36-44 | every published position is in [0, n) or in [20000, 24999], and every extra publication is in [20000, 24999] |
| `ProduceMessages.PublicationCounts` | src/test/java/no/ssb/dc/server/service/RecoveryTest.java:38-44 | every position in [0, n) is published at least once, and those below 20000 exactly once |
| `ProduceMessages.PublicationsNotYet` | src/test/java/no/ssb/dc/server/service/RecoveryTest.java:38-43 | a position below 20000 appears only from its own iteration on |
| `ProduceMessages.ProduceShape` | src/test/java/no/ssb/dc/server/service/RecoveryTest.java:31-44 | `Produce`, the test's `produceMessages()`, publishes 25000 + 5000 messages, every position 0..24999 at least once, those below 20000 exactly once |

## Findings

| source | as written | input that shows it | evidently intended | confidence | as-written member | corrected member |
|---|---|---|---|---|---|---|
| src/main/java/no/ssb/dc/server/service/IntegrityCheckIndex.java:114-126 | the position length is stored as `(byte) key.length` and read back with the signed `get()` | a 128-character ASCII position with a 511-octet key buffer: reading the key throws `NegativeArraySizeException`; 256 characters read back as an empty position | the length octet is read unsigned, and positions over 255 octets are refused | medium, not executed | `SequenceKeys.LongPositionBreaksRoundTrip` | `SequenceKeys.RoundTrip` |
| src/main/java/no/ssb/dc/server/service/IntegrityCheckIndex.java:49-85 | `writeSequence` calls `getWriteTransaction` before `put`. The N-th call commits the previous N-1 keys and resets the counter to 0. The N-th key then goes into the new transaction, which `commit()`/`close()` skip because the counter is 0 | `flushBufferCount = 1`, one `writeSequence`, then `close()`: the key is never committed | the write is counted after the put, so the counter equals the uncommitted writes and `close()` commits them | medium, not executed | `WriteBatch.CloseAfterFullBatchLosesWrite` | `WriteBatch.WriteAllThenClose` |

The index has both versions of each operation. `WriteSequenceAsWritten`,
`ReadSequenceAsWritten` and `ClosedIndexAsWritten` use the code's codec
(`ToByteBufferAsWritten`, `FromByteBufferAsWritten`) and the code's count-then-put order
(`WriteAsWritten`). `WriteSequence`, `ReadSequence` and the index invariant `Valid` use the
corrected codec (`ToByteBuffer`, `FromByteBuffer`) and the put-then-count order (`Write`).
Rows marked "corrected" state the intended behaviour, not the code's.

## Left out

- LMDB's environment, `Dbi`, `Txn` and cursor API are reduced to a strictly sorted sequence of
  byte keys with empty values. A reader sees only committed keys, in memcmp order.
- Commit failures are not modelled: `Txn.NotReadyException` is caught and logged (lines 52-54),
  and the model treats every commit as successful.
- `IntegrityCheckIndex.Create`: the database starts empty. `lmdbEnvironment.open()` (line 38)
  may open a database that already holds keys; the model does not cover a pre-filled store.
- `IntegrityCheckIndex.Create`: every key buffer the pool hands out is taken to be cleared, with
  room for exactly `maxKeySize` octets. The pass-iff-fits contracts of `ToByteBufferAsWritten`
  and `WriteSequenceAsWritten` rest on this.
- `DirectByteBufferPool` internals are not part of this model. A pool is an availability
  counter of ten buffers. The model's acquire on an empty pool fails; the real pool may block
  or allocate instead.
- The content buffer is always empty (`CONTENT_LENGTH = 0`). The model only acquires and
  releases it.
- `flushCounter` is an `AtomicLong`; atomicity and 64-bit overflow are not modelled. For
  `flushBufferCount < 1` the counter grows without bound in the model, as in the code.
  Properties are stated for N ≥ 1.
- `Utf8.Decode`: Java's decoder replaces malformed input with U+FFFD. The model reports such
  input as `MalformedPosition` instead.
- `SequenceKeys.FromByteBufferAsWritten`: a key the code wrote with a wrapped length octet can
  cut a multi-octet character. For example, "é" followed by 255 × 'a' is 257 octets, so it is
  written with length octet 1. Java then reads a position of "\uFFFD"; the model fails with
  `MalformedPosition`. The U+FFFD replacement rules are not modelled.
- `IntegrityCheckIndex.ReadSequenceAsWritten`: for such a key the model stops with
  `MalformedPosition`. Java visits it with the replaced position and reads on to later keys.
  Keys whose position takes at most 255 octets are never cut this way.
- Strings are sequences of Unicode scalar values. Unpaired surrogates, which Java's encoder
  writes as `?`, cannot be represented.
- `Ulids.Compare`: the ULID library is not part of this model. Its `compareTo` is taken to
  compare the (most, least) significant longs as signed numbers, in that order. ULID
  generation and timestamps are left out.
- `SequenceKey.hashCode`/`toString`, `JobId.hashCode`/`toString`, the empty `Writer` class and
  `getDatabaseDir` are left out. Hashing affects only bucket placement; the others are
  diagnostics.
- `WorkManager.Run`: the worker id comes from the `Worker`, which is not part of this model,
  and is required to be fresh.
- Futures are left out of the registry model:
  - the `CompletableFuture` and its `handle` callback, which logs even on success;
  - the no-argument `cancel()`, which completes with a zero timeout;
  - `terminate()` beyond setting a terminated flag.

  None of these changes the registry.
- `ConcurrentHashMap` iteration order is unspecified. The model keeps insertion order. Every
  registry property is stated independently of that order, except `List`'s element order.
- `ReentrantLock` blocking, interruption (`lockInterruptibly` throwing `WorkerException`) and
  ownership by other threads are left out. A lock is a hold count for the calling thread.
- `WorkManager.Step`: a call that throws leaves the registry unchanged. A `run` whose worker id
  is already registered is dropped. The code's `put` would instead add a second job with that
  id (different specification) or keep the old key (same specification). The `Worker` mints
  fresh ids, so `LockMapGrows`' unique ids rest on that.
- `SequenceKeys.ToByteBuffer`: the corrected encoder refuses positions over 255 octets. The
  code's encoder is `SequenceKeys.ToByteBufferAsWritten`, which wraps the length octet.
- `SequenceKeys.FromByteBuffer`: the corrected reader reads the length octet unsigned. The
  code's reader is `SequenceKeys.FromByteBufferAsWritten`, which throws for 128 or more.
- `SequenceKeys.KeyLayout`: states the corrected encoder's layout. The code's layout, with the
  length octet taken modulo 256, is `SequenceKeys.KeyLayoutAsWritten`.
- `SequenceKeys.RoundTrip`: stated for the corrected codec. The code's round trip holds for
  positions of at most 127 octets only (`SequenceKeys.RoundTripAsWritten`).
- `SequenceKeys.EncodingInjective`: stated for the corrected codec. The two encoders write the
  same octets for positions of at most 255 octets (`SequenceKeys.AsWrittenAgrees`). Above that,
  the code's wrapped length octet is not shown to be injective.
- `SequenceKeys.EncodedOrder`: stated for the corrected codec. `SequenceKeys.EncodedOrderAsWritten`
  carries it to the code's encoder for positions of at most 255 octets. Longer positions sort
  by their length modulo 256 first, and no order lemma covers them.
- `WriteBatch.Write`: the put-then-count order. The code counts first
  (`WriteBatch.WriteAsWritten`).
- `WriteBatch.WritesAreKept`: stated for the put-then-count order. The code's order is
  `WriteBatch.WritesAsWrittenAreKept`.
- `WriteBatch.WritesCount`: stated for the put-then-count order. The code's order is
  `WriteBatch.WritesAsWrittenCount`, where the pending count is one more than the counter
  after the first commit.
- `WriteBatch.WriteAllThenClose`: stated for the put-then-count order. In the code's order
  `close()` leaves the last key pending after a positive multiple of N writes
  (`WriteBatch.CloseAfterFullBatchLosesWrite`), and commits everything otherwise
  (`WriteBatch.AsWrittenCloseCommitsAll`).
- `WriteBatch.CommitDrains`: its precondition (counter equal to the pending count) holds in
  the put-then-count order only. In the code's order the counter is one less than the pending
  count after the first commit, and `WriteBatch.CloseAfterFullBatchLosesWrite` shows `commit()`
  leaving a key pending.
- `IntegrityCheckIndex.WriteSequence`: the corrected codec and order. The code's write is
  `IntegrityCheckIndex.WriteSequenceAsWritten`. It stores positions of 256 octets or more with
  a wrapped length octet, and it counts before it puts.
- `IntegrityCheckIndex.ReadSequence`: the corrected reader. The code's read is
  `IntegrityCheckIndex.ReadSequenceAsWritten`, which throws at the first stored key whose
  length octet is 128 or more. No completeness or order is promised for it.
- `IntegrityCheckIndex.OperationsPreserveValid`: the invariant `Valid` (counter equal to the
  pending count, every stored key readable) holds only for the corrected codec and order. No
  invariant of that strength is claimed for `WriteSequenceAsWritten`.
- `IntegrityCheckIndex.ScanIsOrdered`: stated for keys the corrected codec writes. With the
  code's codec a stored key may not read back (`SequenceKeys.SignedReadRejectsLongPositions`).
- `IntegrityCheckIndex.WriteSequenceStores`: the corrected write. The code's write adds its own
  encoding (`IntegrityCheckIndex.WriteSequenceAsWritten`, via `WriteBatch.WriteAsWritten`).
- `IntegrityCheckIndex.WriteEntriesKeeps`: the corrected writes. The code's writes are
  `IntegrityCheckIndex.WriteEntriesAsWrittenBatch` with `StoredAsWrittenHoldsFitting` and
  `StoredAsWrittenOnlyEntries`.
- `IntegrityCheckIndex.ClosedIndexHoldsWrittenEntries`: the corrected scan. After the code's
  writes and `close()`, `IntegrityCheckIndex.ClosedIndexAsWritten` shows the last stored key
  left pending when their number is a positive multiple of N. The code's reader may also
  throw on a stored key.
- `ProduceMessages.Publications`: `Math.random` is replaced by an arbitrary choice in
  [20000, 24999].
  - A position `String.valueOf(n)` is represented by `n`. This keeps distinctness, because
    `valueOf` is injective.
  - The producer, payload bytes and logging are left out.
- The end-to-end recovery flow (`readIndexAndConsumerSourceAndProduceTarget`, `readIndex`)
  depends on `RecoveryWorker`, `IntegrityCheckService` and `SequenceDbHelper`. None of them is
  part of this model.
- `PositionVersion.CompareAndSet`: the `PositionAndULIDVersion` class is not part of this
  model. Its behaviour is taken from the test, and any return value it has is not modelled.
- HTTP controllers, server bootstrap, module wiring and the Docker and LMDB environment tests
  are outside the modelled core.
