/**
 * The memory quota that the ASAN `small_alloc` leases from. `quota.h` is
 * not part of this model; the quota is the counter its callers rely on:
 * a lease of `n` bytes succeeds exactly when it keeps the leased total
 * within the limit, and ending a lease gives the bytes back.
 */
module Quota {

  class Quota {
    /** The total that may be leased. */
    var limit: nat
    /** The total currently leased. */
    var leased: nat

    predicate Valid()
      reads this
    {
      leased <= limit
    }

    constructor (limit: nat)
      ensures Valid()
      ensures this.limit == limit && leased == 0
    {
      this.limit := limit;
      leased := 0;
    }

    /** `quota_lease`: `ok` is false (the source returns a negative value) when the lease would exceed the limit. */
    method Lease(n: nat) returns (ok: bool)
      requires Valid()
      modifies this
      ensures Valid()
      ensures ok <==> old(leased) + n <= limit
      ensures leased == if ok then old(leased) + n else old(leased)
      ensures limit == old(limit)
    {
      if leased + n <= limit {
        leased := leased + n;
        ok := true;
      } else {
        ok := false;
      }
    }

    /** `quota_end_lease`: return `n` leased bytes. */
    method EndLease(n: nat)
      requires Valid() && n <= leased
      modifies this
      ensures Valid()
      ensures leased == old(leased) - n && limit == old(limit)
    {
      leased := leased - n;
    }
  }
}
