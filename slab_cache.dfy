/**
 * The ASAN slab cache of include/small/slab_cache_asan.h: every slab is a
 * separate allocation of the requested size plus the slab header, rounded
 * up to the page size, and the cache keeps the allocated slabs and the
 * total of their sizes.
 *
 * A slab is known by its address; the address `malloc` returns and the
 * page size are parameters of `Get`. The ghost set `live` records the
 * slabs whose memory is allocated.
 */
module SlabCache {
  import opened SmallUtil

  /** `sizeof(struct slab)` on a 64-bit target: a `size_t` and two list links. */
  const SLAB_HEADER_SIZE: nat := 40
  /** `sizeof(intptr_t)` on a 64-bit target. */
  const INTPTR_SIZE: nat := 8

  /** `small_align(sizeof(struct slab), sizeof(intptr_t))`: the room the slab header takes. */
  function MetaSize(): (m: nat)
    ensures m % INTPTR_SIZE == 0 && SLAB_HEADER_SIZE <= m < SLAB_HEADER_SIZE + INTPTR_SIZE
  {
    assert IsPow2(INTPTR_SIZE) by { assert Pow2(3) == INTPTR_SIZE; Pow2IsPow2(3); }
    Align(SLAB_HEADER_SIZE, INTPTR_SIZE)
  }

  /** `slab_real_size`: the requested size plus the header, rounded up to the page size. */
  function RealSize(size: nat, pagesize: nat): nat
    requires IsPow2(pagesize) && size + MetaSize() <= SIZE_MAX - pagesize
  {
    Align(size + MetaSize(), pagesize)
  }

  /**
   * The real size is the least multiple of the page size that holds the
   * requested size and the slab header.
   */
  lemma RealSizeIsLeast(size: nat, pagesize: nat)
    requires IsPow2(pagesize) && size + MetaSize() <= SIZE_MAX - pagesize
    ensures var r := RealSize(size, pagesize);
      && r % pagesize == 0 && size + SLAB_HEADER_SIZE <= r < size + MetaSize() + pagesize
      && (forall m: nat :: m % pagesize == 0 && m >= size + MetaSize() ==> r <= m)
  {
    forall m: nat | m % pagesize == 0 && m >= size + MetaSize()
      ensures RealSize(size, pagesize) <= m
    {
      AlignIsLeast(size + MetaSize(), pagesize, m);
    }
  }

  /** An allocated slab: its address and its real size. */
  datatype Slab = Slab(addr: nat, size: nat)

  /** The total size of the slabs. */
  function SumSizes(slabs: seq<Slab>): nat
  {
    if slabs == [] then 0 else slabs[0].size + SumSizes(slabs[1..])
  }

  /** The addresses of the slabs. */
  function Addresses(slabs: seq<Slab>): set<nat>
  {
    set s | s in slabs :: s.addr
  }

  /** No two slabs share an address. */
  predicate Distinct(slabs: seq<Slab>)
  {
    forall i, j :: 0 <= i < j < |slabs| ==> slabs[i].addr != slabs[j].addr
  }

  /** `slab_list_del` of `slab`; its size leaves the total. */
  function Remove(slabs: seq<Slab>, slab: Slab): (r: seq<Slab>)
    requires slab in slabs
    ensures |r| + 1 == |slabs| && SumSizes(r) + slab.size == SumSizes(slabs)
  {
    if slabs[0] == slab then slabs[1..]
    else
      var r := [slabs[0]] + Remove(slabs[1..], slab);
      assert r[1..] == Remove(slabs[1..], slab);
      r
  }

  /** Removing keeps addresses distinct and takes exactly the slab's address out of them. */
  lemma {:induction false} RemoveDistinct(slabs: seq<Slab>, slab: Slab)
    requires Distinct(slabs) && slab in slabs
    ensures Distinct(Remove(slabs, slab))
    ensures Addresses(Remove(slabs, slab)) == Addresses(slabs) - {slab.addr}
  {
    assert Addresses(slabs) == {slabs[0].addr} + Addresses(slabs[1..]);
    if slabs[0] == slab {
      assert slab.addr !in Addresses(slabs[1..]);
    } else {
      assert slabs[0].addr != slab.addr;
      RemoveDistinct(slabs[1..], slab);
      var r := Remove(slabs, slab);
      assert r == [slabs[0]] + Remove(slabs[1..], slab);
      assert Addresses(r) == {slabs[0].addr} + Addresses(Remove(slabs[1..], slab));
      assert slabs[0].addr !in Addresses(slabs[1..]);
    }
  }

  /** Getting a slab and putting it back restores the slab list and the used total. */
  lemma GetPutRestores(slabs: seq<Slab>, addr: nat, size: nat)
    ensures var after := [Slab(addr, size)] + slabs;
      && Remove(after, Slab(addr, size)) == slabs
      && SumSizes(slabs) == SumSizes(after) - size
  {
    var after := [Slab(addr, size)] + slabs;
    assert after[1..] == slabs;
  }

  class SlabCache {
    /** The allocated slabs, newest first. */
    var slabs: seq<Slab>
    /** `allocated.stats.used`: the total real size of the allocated slabs. */
    var used: nat
    /** Addresses whose slab memory is allocated. */
    ghost var live: set<nat>

    ghost predicate Valid()
      reads this
    {
      Distinct(slabs) && used == SumSizes(slabs) && live == Addresses(slabs)
    }

    /** `slab_cache_create`: no slabs, nothing used. */
    constructor ()
      ensures Valid()
      ensures slabs == [] && used == 0 && live == {}
    {
      slabs := [];
      used := 0;
      live := {};
    }

    /** `slab_cache_used`. */
    function Used(): (n: nat)
      requires Valid()
      reads this
      ensures n == SumSizes(slabs)
    {
      used
    }

    /**
     * `slab_get`: allocate a slab of the real size for `size` at `addr` and
     * account for it.
     */
    method Get(size: nat, pagesize: nat, addr: nat) returns (slab: Slab)
      requires Valid()
      requires IsPow2(pagesize) && size + MetaSize() <= SIZE_MAX - pagesize
      requires addr !in Addresses(slabs)
      modifies this
      ensures Valid()
      ensures slab == Slab(addr, RealSize(size, pagesize))
      ensures slabs == [slab] + old(slabs) && used == old(used) + slab.size
      ensures live == old(live) + {addr}
    {
      slab := Slab(addr, RealSize(size, pagesize));
      assert Addresses([slab] + slabs) == {addr} + Addresses(slabs);
      slabs := [slab] + slabs;
      used := used + slab.size;
      live := live + {addr};
    }

    /** `slab_put`: unaccount `slab`, unlink it and free it. */
    method Put(slab: Slab)
      requires Valid() && slab in slabs
      modifies this
      ensures Valid()
      ensures slabs == Remove(old(slabs), slab) && used == old(used) - slab.size
      ensures live == old(live) - {slab.addr}
    {
      RemoveDistinct(slabs, slab);
      used := used - slab.size;
      slabs := Remove(slabs, slab);
      live := live - {slab.addr};
    }

    /**
     * `slab_cache_destroy`: free every allocated slab. The list and the
     * used total are left as they were.
     */
    method Destroy()
      requires Valid()
      modifies this
      ensures live == {} && slabs == old(slabs) && used == old(used)
    {
      var i: nat := 0;
      while i < |slabs|
        invariant i <= |slabs| && slabs == old(slabs) && used == old(used)
        invariant live == Addresses(slabs[i..])
      {
        assert Addresses(slabs[i..]) == {slabs[i].addr} + Addresses(slabs[i + 1..]);
        assert slabs[i].addr !in Addresses(slabs[i + 1..]);
        live := live - {slabs[i].addr};
        i := i + 1;
      }
    }
  }
}
