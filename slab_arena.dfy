/**
 * The ASAN slab arena of include/small/slab_arena_asan.h: a stub that keeps
 * the quota for the slab cache, rounds the slab size up to a power of two
 * and maps every slab with `malloc`. Its `used` counter stays 0.
 *
 * `SLAB_MIN_SIZE` comes from slab_arena.h, which is not part of this
 * model; it is a parameter of `Create`. The address `malloc` returns is a
 * parameter of `Map`; the ghost map `mapped` records each mapped slab's
 * address and size.
 */
module SlabArena {
  import opened SmallUtil
  import Quota

  /** `slab_size` is a `uint32_t`. */
  const UINT32_RANGE: nat := 0x1_0000_0000

  /** `MAX(requested, minSize)`. */
  function Max(a: nat, b: nat): (r: nat)
    ensures r >= a && r >= b && (r == a || r == b)
  {
    if a < b then b else a
  }

  /**
   * The slab size `slab_arena_create` stores: the larger of the requested
   * and the minimal size, rounded up to a power of two and stored in a
   * `uint32_t`.
   */
  function SlabSize(requested: nat, minSize: nat): nat
    requires requested < UINT32_RANGE && minSize < UINT32_RANGE
  {
    Round(Max(requested, minSize)) % UINT32_RANGE
  }

  /**
   * When both sizes are at most 2^31 the slab size is the least power of two that is at least
   * both the requested and the minimal size.
   */
  lemma SlabSizeIsLeastPow2(requested: nat, minSize: nat)
    requires 2 <= minSize <= UINT32_RANGE / 2 && requested <= UINT32_RANGE / 2
    ensures var s := SlabSize(requested, minSize);
      && IsPow2(s) && s >= requested && s >= minSize
      && (forall k: nat :: Pow2(k) >= requested && Pow2(k) >= minSize ==> Pow2(k) >= s)
  {
    var m := Max(requested, minSize);
    RoundIsLeastPow2(m);
    Pow2Of32();
    RoundIsLeast(m, 31);
  }

  /**
   * A request above 2^31 rounds to 2^32, which the `uint32_t` field
   * truncates to 0.
   */
  lemma SlabSizeTruncates(requested: nat, minSize: nat)
    requires UINT32_RANGE / 2 < requested < UINT32_RANGE && minSize < UINT32_RANGE
    ensures SlabSize(requested, minSize) == 0
  {
    var m := Max(requested, minSize);
    RoundIsLeastPow2(m);
    Pow2Of32();
    RoundIsLeast(m, 32);
    var k := IsPow2IsSomePow2(Round(m));
    if k <= 31 {
      Pow2Monotone(k, 31);
    }
    if k >= 33 {
      Pow2Monotone(33, k);
    }
    assert k == 32;
  }

  /** No power of two at least `m` is below `Round(m)`. */
  lemma RoundIsLeast(m: nat, k: nat)
    requires 2 <= m <= SIZE_MAX / 2 + 1 && Pow2(k) >= m
    ensures Round(m) <= Pow2(k)
  {
    RoundIsLeastPow2(m);
  }

  class SlabArena {
    /** The quota passed on to the slab cache. */
    const quota: Quota.Quota
    /** The size of every slab. */
    const slabSize: nat
    /** Always 0. */
    var used: nat
    /** The mapped slabs: address to size. */
    ghost var mapped: map<nat, nat>

    ghost predicate Valid()
      reads this
    {
      used == 0
    }

    constructor (quota: Quota.Quota, slabSize: nat)
      ensures Valid() && this.quota == quota && this.slabSize == slabSize && mapped == map[]
    {
      this.quota := quota;
      this.slabSize := slabSize;
      used := 0;
      mapped := map[];
    }

    /**
     * `slab_arena_create`: keep the quota, round the slab size, set `used`
     * to 0 and return 0. The preallocation and the flags are ignored.
     */
    static method Create(quota: Quota.Quota, prealloc: nat, requested: nat, flags: int, minSize: nat)
      returns (arena: SlabArena, rc: int)
      requires requested < UINT32_RANGE && minSize < UINT32_RANGE
      ensures fresh(arena) && rc == 0 && arena.Valid()
      ensures arena.quota == quota && arena.slabSize == SlabSize(requested, minSize)
      ensures arena.used == 0 && arena.mapped == map[]
    {
      arena := new SlabArena(quota, SlabSize(requested, minSize));
      rc := 0;
    }

    /** `slab_arena_destroy`: nothing is released. */
    method Destroy()
      requires Valid()
      ensures Valid()
    {
    }

    /** `slab_map`: a new slab of `slabSize` bytes at `addr`. */
    method Map(addr: nat) returns (p: nat)
      requires Valid() && addr != 0 && addr !in mapped
      modifies this`mapped
      ensures Valid()
      ensures p == addr && mapped == old(mapped)[addr := slabSize]
    {
      p := addr;
      mapped := mapped[addr := slabSize];
    }

    /** `slab_unmap`: free the slab at `p`; NULL is ignored. */
    method Unmap(p: nat)
      requires Valid() && (p == 0 || p in mapped)
      modifies this`mapped
      ensures Valid()
      ensures mapped == if p == 0 then old(mapped) else old(mapped) - {p}
    {
      if p == 0 {
        return;
      }
      mapped := mapped - {p};
    }
  }
}
