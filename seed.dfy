/** The seed script: fill the available-numbers collection with 1..10 when, and
    only when, it is empty. The collection is a class whose `numbers` field holds
    the `number` of each document in insertion order; connecting and closing the
    database are left out. */
module Seed {

  /** lo, lo + 1, ..., hi. */
  function Range(lo: int, hi: int): (r: seq<int>)
    ensures |r| == if lo <= hi then hi - lo + 1 else 0
    ensures forall k :: 0 <= k < |r| ==> r[k] == lo + k
    decreases hi - lo
  {
    if lo > hi then [] else [lo] + Range(lo + 1, hi)
  }

  lemma RangeExtend(lo: int, hi: int)
    requires lo <= hi + 1
    ensures Range(lo, hi + 1) == Range(lo, hi) + [hi + 1]
  {
    var r, t := Range(lo, hi + 1), Range(lo, hi) + [hi + 1];
    assert |r| == |t|;
    forall k | 0 <= k < |r| ensures r[k] == t[k] {
    }
  }

  /** The batch built by the loop `for (let i = 1; i <= 10; i++)`. */
  function SeedBatch(): seq<int> {
    Range(1, 10)
  }

  /** The collection after one run of the seed script. */
  function Seeded(existing: seq<int>): seq<int> {
    if |existing| == 0 then existing + SeedBatch() else existing
  }

  /** The batch is exactly 1, 2, ..., 10: ascending, distinct, each within 1..10. */
  lemma SeedBatchShape()
    ensures SeedBatch() == [1, 2, 3, 4, 5, 6, 7, 8, 9, 10]
    ensures forall i, j :: 0 <= i < j < |SeedBatch()| ==> SeedBatch()[i] < SeedBatch()[j]
    ensures forall x :: x in SeedBatch() <==> 1 <= x <= 10
  {
    var b := SeedBatch();
    assert b == [1, 2, 3, 4, 5, 6, 7, 8, 9, 10];
    forall x | 1 <= x <= 10 ensures x in b {
      assert b[x - 1] == x;
    }
  }

  /** Numbers are inserted only into an empty collection; any other is kept. */
  lemma SeedOnlyWhenEmpty(existing: seq<int>)
    ensures existing == [] ==> Seeded(existing) == [1, 2, 3, 4, 5, 6, 7, 8, 9, 10]
    ensures existing != [] ==> Seeded(existing) == existing
  {
    SeedBatchShape();
  }

  /** Seeding twice leaves the same collection as seeding once. */
  lemma SeedIdempotent(existing: seq<int>)
    ensures Seeded(Seeded(existing)) == Seeded(existing)
  {
    SeedBatchShape();
  }

  class AvailableNumberCollection {
    var numbers: seq<int>

    constructor (initial: seq<int>)
      ensures numbers == initial
    {
      numbers := initial;
    }

    /** `AvailableNumber.insertMany(batch)`: appends the documents in order. */
    method InsertMany(batch: seq<int>)
      modifies this
      ensures numbers == old(numbers) + batch
    {
      numbers := numbers + batch;
    }

    /** `seedAvailableNumbers()`: count the documents, and only when there are none
        build the batch 1..10 and insert it. */
    method SeedAvailableNumbers()
      modifies this
      ensures numbers == Seeded(old(numbers))
    {
      var count := |numbers|;
      if count == 0 {
        var batch: seq<int> := [];
        var i := 1;
        while i <= 10
          invariant 1 <= i <= 11
          invariant batch == Range(1, i - 1)
          invariant numbers == []
        {
          RangeExtend(1, i - 1);
          batch := batch + [i];
          i := i + 1;
        }
        assert batch == SeedBatch();
        InsertMany(batch);
      }
    }
  }
}
