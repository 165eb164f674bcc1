/**
 * The ASAN log-structured region of small/lsregion_asan.c: allocations
 * are tagged with a caller-chosen id and kept oldest first; garbage
 * collection frees the oldest allocations whose id is at most a bound.
 *
 * The payload address each new wrapper receives (see `Wrapper.Layout`)
 * is a parameter.
 */
module LsRegion {

  /** `struct lsregion_allocation` with the payload address of its wrapper. */
  datatype LsAllocation = LsAllocation(size: nat, alignment: nat, id: int, ptr: nat)

  /** The sum of the sizes of the allocations. */
  function SumSize(recs: seq<LsAllocation>): nat
  {
    if recs == [] then 0 else recs[0].size + SumSize(recs[1..])
  }

  lemma {:induction false} SumSizeSplit(recs: seq<LsAllocation>, k: nat)
    requires k <= |recs|
    ensures SumSize(recs) == SumSize(recs[..k]) + SumSize(recs[k..])
  {
    if k > 0 {
      SumSizeSplit(recs[1..], k - 1);
      assert recs[1..][k - 1..] == recs[k..];
      assert recs[..k][1..] == recs[1..][..k - 1];
    } else {
      assert recs[k..] == recs;
    }
  }

  /**
   * The number of allocations `lsregion_gc(min_id)` frees: the longest
   * oldest run whose ids are all at most `minId`.
   */
  function GcPrefix(recs: seq<LsAllocation>, minId: int): (k: nat)
    ensures k <= |recs|
    ensures forall i :: 0 <= i < k ==> recs[i].id <= minId
    ensures k == |recs| || recs[k].id > minId
  {
    if recs == [] || recs[0].id > minId then 0 else 1 + GcPrefix(recs[1..], minId)
  }

  /** Collecting again with the same bound frees nothing more. */
  lemma GcIdempotent(recs: seq<LsAllocation>, minId: int)
    ensures GcPrefix(recs[GcPrefix(recs, minId)..], minId) == 0
  {
  }

  /** Ids that never decrease from oldest to newest. */
  predicate IdsSorted(recs: seq<LsAllocation>)
  {
    forall i, j :: 0 <= i < j < |recs| ==> recs[i].id <= recs[j].id
  }

  /** With ids in allocation order, every allocation that survives has an id above the bound. */
  lemma GcLeavesNewer(recs: seq<LsAllocation>, minId: int)
    requires IdsSorted(recs)
    ensures forall i :: GcPrefix(recs, minId) <= i < |recs| ==> recs[i].id > minId
  {
  }

  /** Appending an id no smaller than the newest keeps ids sorted. */
  lemma AllocKeepsSorted(recs: seq<LsAllocation>, a: LsAllocation)
    requires IdsSorted(recs)
    requires recs == [] || recs[|recs| - 1].id <= a.id
    ensures IdsSorted(recs + [a])
  {
  }

  class LsRegion {
    /** The allocations, oldest first. */
    var records: seq<LsAllocation>
    /** The bytes allocated and not yet collected. */
    var used: nat

    predicate Valid()
      reads this
    {
      used == SumSize(records)
    }

    /** `lsregion_create`: no allocations. */
    constructor ()
      ensures Valid() && records == [] && used == 0
    {
      records := [];
      used := 0;
    }

    /** `lsregion_aligned_alloc`: the new allocation becomes the newest. */
    method Alloc(size: nat, alignment: nat, id: int, ptr: nat) returns (p: nat)
      requires Valid()
      modifies this
      ensures Valid()
      ensures records == old(records) + [LsAllocation(size, alignment, id, ptr)]
      ensures used == old(used) + size && p == ptr
    {
      var a := LsAllocation(size, alignment, id, ptr);
      SumSizeSplit(records + [a], |records|);
      assert (records + [a])[..|records|] == records;
      assert (records + [a])[|records|..] == [a];
      records := records + [a];
      used := used + size;
      p := ptr;
    }

    /**
     * `lsregion_gc(min_id)`: free the oldest allocations while their id is
     * at most `minId`. The source's check that `used` covers each freed
     * size always holds.
     */
    method Gc(minId: int)
      requires Valid()
      modifies this
      ensures Valid()
      ensures records == old(records)[GcPrefix(old(records), minId)..]
      ensures used == old(used) - SumSize(old(records)[..GcPrefix(old(records), minId)])
    {
      ghost var k := 0;
      while records != [] && records[0].id <= minId
        invariant Valid()
        invariant k <= |old(records)| && records == old(records)[k..]
        invariant GcPrefix(old(records), minId) == k + GcPrefix(records, minId)
        invariant used + SumSize(old(records)[..k]) == old(used)
        decreases |records|
      {
        assert used >= records[0].size;
        SumSizeSplit(old(records)[..k + 1], k);
        assert old(records)[..k + 1][..k] == old(records)[..k];
        assert old(records)[..k + 1][k..] == [records[0]];
        assert records[1..] == old(records)[k + 1..];
        used := used - records[0].size;
        records := records[1..];
        k := k + 1;
      }
    }
  }
}
