/**
 `RecoveryTest.produceMessages`: publishes positions 0 .. NUMBER_OF_MESSAGES-1 in order and,
 from position 20000 on, one extra publication of a random position in [20000, 24999] after
 each. The random draw is an arbitrary choice in that range, one per extra publication.
 A position `String.valueOf(n)` is modelled by the number `n`; distinct numbers give
 distinct strings.
 */
module ProduceMessages {

  const NumberOfMessages: nat := 25000
  const Min: nat := 20000
  const Max: nat := 25000 - 1

  /** `(int) (Math.random() * (max - min + 1) + min)` lies in [min, max]. */
  type Choice = x: int | Min <= x <= Max witness Min

  /** Extra publications made by the first `n` iterations. */
  function Extras(n: nat): nat
  {
    if n <= Min then 0 else n - Min
  }

  /** The publications made by iterations 0 .. n-1; iteration k >= Min uses choices[k - Min]. */
  function Publications(n: nat, choices: seq<Choice>): (pubs: seq<int>)
    requires Extras(n) <= |choices|
    ensures |pubs| == n + Extras(n)
  {
    if n == 0 then [] else Publications(n - 1, choices) + Iteration(n - 1, choices)
  }

  /** What iteration k publishes: its own position, then from Min on its random extra. */
  function Iteration(k: nat, choices: seq<Choice>): seq<int>
    requires Extras(k + 1) <= |choices|
  {
    if k >= Min then [k, choices[k - Min]] else [k]
  }

  /** The whole run of `produceMessages`. */
  function Produce(choices: seq<Choice>): seq<int>
    requires |choices| == NumberOfMessages - Min
  {
    Publications(NumberOfMessages, choices)
  }

  /** Where iteration k's own publication lands in the stream. */
  function MainIndex(k: nat): nat
  {
    k + Extras(k)
  }

  /** Position k is published at `MainIndex(k)`, an index that grows with k; the extra after
      it, when there is one, carries that iteration's choice. */
  lemma {:induction false} MainPublications(n: nat, choices: seq<Choice>, k: nat)
    requires Extras(n) <= |choices| && k < n
    ensures MainIndex(k) < |Publications(n, choices)|
    ensures Publications(n, choices)[MainIndex(k)] == k
    ensures k >= Min ==> Publications(n, choices)[MainIndex(k) + 1] == choices[k - Min]
    ensures k + 1 < n ==> MainIndex(k) < MainIndex(k + 1)
  {
    if k + 1 < n {
      MainPublications(n - 1, choices, k);
    }
  }

  predicate IsMainIndex(n: nat, i: nat)
  {
    exists k :: 0 <= k < n && MainIndex(k) == i
  }

  /** Every publication is a position in [0, n), and every publication that is not some
      iteration's own is a position in [Min, Max]. */
  lemma {:induction false} PublicationsInRange(n: nat, choices: seq<Choice>)
    requires Extras(n) <= |choices|
    ensures forall i :: 0 <= i < |Publications(n, choices)| ==>
              (0 <= Publications(n, choices)[i] < n || Min <= Publications(n, choices)[i] <= Max)
    ensures forall i :: 0 <= i < |Publications(n, choices)| && !IsMainIndex(n, i) ==>
              Min <= Publications(n, choices)[i] <= Max
  {
    if n > 0 {
      var k := n - 1;
      PublicationsInRange(k, choices);
      var pubs := Publications(n, choices);
      var prev := Publications(k, choices);
      assert forall i :: 0 <= i < |prev| ==> pubs[i] == prev[i];
      assert pubs[|prev|] == k && MainIndex(k) == |prev|;
    }
  }

  /** Each position below Min is published exactly once, and every position in [0, n) at
      least once. */
  lemma PublicationCounts(n: nat, choices: seq<Choice>, x: int)
    requires Extras(n) <= |choices|
    ensures 0 <= x < n ==> multiset(Publications(n, choices))[x] >= 1
    ensures 0 <= x < n && x < Min ==> multiset(Publications(n, choices))[x] == 1
  {
    PublicationsNotYet(n, choices, x);
    if 0 <= x < n && x < Min {
      OnlyAtOwnIndex(n, choices, x);
      MainPublications(n, choices, x);
      CountSingle(Publications(n, choices), x, x);
    }
  }

  /** A position x below Min appears only at index x, where iteration x publishes it. */
  lemma {:induction false} OnlyAtOwnIndex(n: nat, choices: seq<Choice>, x: int)
    requires Extras(n) <= |choices| && 0 <= x < Min
    ensures forall i :: 0 <= i < |Publications(n, choices)| && Publications(n, choices)[i] == x ==> i == x
  {
    if n > 0 {
      OnlyAtOwnIndex(n - 1, choices, x);
      var prev, pubs := Publications(n - 1, choices), Publications(n, choices);
      assert pubs == prev + Iteration(n - 1, choices);
      forall i | 0 <= i < |pubs| && pubs[i] == x ensures i == x {
        if i < |prev| {
          assert prev[i] == pubs[i];
        } else if i == |prev| {
          assert pubs[i] == n - 1;
        }
      }
    }
  }

  /** A value that can only sit at index j occurs once or not at all. */
  lemma {:induction false} CountSingle(s: seq<int>, x: int, j: int)
    requires forall i :: 0 <= i < |s| && s[i] == x ==> i == j
    ensures multiset(s)[x] == if 0 <= j < |s| && s[j] == x then 1 else 0
  {
    if |s| > 0 {
      var t := s[..|s| - 1];
      assert forall i :: 0 <= i < |t| ==> t[i] == s[i];
      CountSingle(t, x, j);
      assert s == t + [s[|s| - 1]];
    }
  }

  /** Before iteration x, position x below Min has not been published. */
  lemma {:induction false} PublicationsNotYet(n: nat, choices: seq<Choice>, x: int)
    requires Extras(n) <= |choices|
    ensures x >= n && x < Min ==> x !in Publications(n, choices)
    ensures 0 <= x < n ==> x in Publications(n, choices)
  {
    if n > 0 {
      PublicationsNotYet(n - 1, choices, x);
      MainPublications(n, choices, n - 1);
    }
  }

  /** The run of the test: 25000 + 5000 publications, every position 0 .. 24999 present,
      those below 20000 exactly once. */
  lemma ProduceShape(choices: seq<Choice>, x: int)
    requires |choices| == NumberOfMessages - Min
    ensures |Produce(choices)| == NumberOfMessages + (NumberOfMessages - Min)
    ensures 0 <= x < NumberOfMessages ==> multiset(Produce(choices))[x] >= 1
    ensures 0 <= x < Min ==> multiset(Produce(choices))[x] == 1
  {
    PublicationCounts(NumberOfMessages, choices, x);
  }
}
