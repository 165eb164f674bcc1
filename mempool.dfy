/**
 * The ASAN memory pool of small/mempool_asan.c and
 * include/small/mempool_asan.h: every object of the pool's fixed size is
 * its own wrapper block, aligned to the largest power of two dividing the
 * object size (at most 4096) and deliberately not to twice that.
 *
 * An object is known by its payload address; the block address `malloc`
 * returns is a parameter of `Alloc`. The ghost set `blocks` records the
 * payloads whose wrapper block is allocated.
 */
module Mempool {
  import opened SmallUtil
  import opened Memory
  import Wrapper

  /** Largest payload alignment of the ASAN pool. */
  const MEMPOOL_ASAN_MAX_ALIGNMENT: nat := 4096
  /** `sizeof(struct rlist)`: two pointers. */
  const RLIST_SIZE: nat := 16
  /** `sizeof(struct mempool_object)` as written: the list link alone. */
  const MEMPOOL_OBJECT_SIZE_AS_WRITTEN: nat := RLIST_SIZE
  /**
   * `sizeof(struct mempool_object)` with the `struct small_header` base
   * every wrapper header starts with, followed by the list link.
   */
  const MEMPOOL_OBJECT_SIZE: nat := Wrapper.SMALL_HEADER_SIZE + RLIST_SIZE
  /** `objsize` is a `uint32_t`. */
  const UINT32_RANGE: nat := 0x1_0000_0000

  // ----- the alignment rule ----------------------------------------------------

  /**
   * `1 << (__builtin_ffs(x) - 1)`: the lowest set bit of a positive `x`,
   * that is the largest power of two dividing it.
   */
  function LowBit(x: nat): (r: nat)
    requires x > 0
    ensures IsPow2(r) && r <= x
    ensures x % r == 0 && (x / r) % 2 == 1
  {
    if x % 2 == 1 then 1
    else
      var h := LowBit(x / 2);
      LowBitStep(x, h);
      2 * h
  }

  /** Doubling the lowest set bit of `x / 2` gives the lowest set bit of an even `x`. */
  lemma LowBitStep(x: nat, h: nat)
    requires x > 0 && x % 2 == 0 && h > 0
    requires (x / 2) % h == 0 && ((x / 2) / h) % 2 == 1
    ensures x % (2 * h) == 0 && (x / (2 * h)) % 2 == 1 && 2 * h <= x
  {
    var q := (x / 2) / h;
    assert x / 2 == q * h;
    assert x == q * (2 * h);
    ModUnique(x, 2 * h, q, 0);
    MulAtLeast(q, 2 * h);
  }

  /** The alignment `mempool_create` gives a pool of `objsize`-byte objects. */
  function PoolAlignment(objsize: nat): nat
    requires objsize > 0
  {
    if LowBit(objsize) > MEMPOOL_ASAN_MAX_ALIGNMENT then MEMPOOL_ASAN_MAX_ALIGNMENT else LowBit(objsize)
  }

  /**
   * The pool alignment is a power of two that divides the object size; it
   * is the largest such below the cap, and the cap otherwise.
   */
  lemma PoolAlignmentIsLargest(objsize: nat)
    requires objsize > 0
    ensures var a := PoolAlignment(objsize);
      && IsPow2(a) && a <= MEMPOOL_ASAN_MAX_ALIGNMENT && objsize % a == 0
      && (a < MEMPOOL_ASAN_MAX_ALIGNMENT ==> (objsize / a) % 2 == 1)
  {
    var b := LowBit(objsize);
    if b > MEMPOOL_ASAN_MAX_ALIGNMENT {
      assert IsPow2(MEMPOOL_ASAN_MAX_ALIGNMENT) by {
        assert Pow2(12) == MEMPOOL_ASAN_MAX_ALIGNMENT;
        Pow2IsPow2(12);
      }
      SmallerPow2Divides(b, MEMPOOL_ASAN_MAX_ALIGNMENT);
      DividesTransitive(objsize, b, MEMPOOL_ASAN_MAX_ALIGNMENT);
    }
  }

  /** Of two powers of two, the smaller divides the larger. */
  lemma {:induction false} SmallerPow2Divides(b: nat, c: nat)
    requires IsPow2(b) && IsPow2(c) && c <= b
    ensures b % c == 0
  {
    if c != 1 {
      SmallerPow2Divides(b / 2, c / 2);
      var m := (b / 2) / (c / 2);
      assert b / 2 == m * (c / 2);
      assert b == m * c;
      MultipleMod(m, c);
    }
  }

  lemma DividesTransitive(x: nat, b: nat, c: nat)
    requires b > 0 && c > 0 && x % b == 0 && b % c == 0
    ensures x % c == 0
  {
    var m := x / b;
    var n := b / c;
    assert x == m * b;
    assert b == n * c;
    assert x == (m * n) * c;
    MultipleMod(m * n, c);
  }

  // ----- the object header -----------------------------------------------------

  /**
   * As written, `struct mempool_object` starts with the list link, so
   * linking the object into the pool overwrites the `alloc_offset` the
   * wrapper stored at the start of the header: the offset read back is the
   * link's first pointer.
   */
  lemma LinkOverwritesOffsetAsWritten(mem: seq<byte>, w: Wrapper.SmallWrapper, link: seq<byte>)
    requires Wrapper.WellFormed(w, MEMPOOL_OBJECT_SIZE_AS_WRITTEN, |mem|)
    requires |link| == RLIST_SIZE
    ensures w.header - w.ptr + RLIST_SIZE <= |mem|
    ensures var linked := Store(Wrapper.OffsetImage(mem, w, MEMPOOL_OBJECT_SIZE_AS_WRITTEN), w.header - w.ptr, link);
      Wrapper.ReadOffset(linked, w.header - w.ptr) == FromLittleEndian(link[..Wrapper.SMALL_HEADER_SIZE])
  {
    var at := w.header - w.ptr;
    var linked := Store(Wrapper.OffsetImage(mem, w, MEMPOOL_OBJECT_SIZE_AS_WRITTEN), at, link);
    assert linked[at..at + RLIST_SIZE] == link;
    assert linked[at..at + Wrapper.SMALL_HEADER_SIZE] == link[..Wrapper.SMALL_HEADER_SIZE];
  }

  /**
   * The first object linked into an empty pool: its link's first pointer
   * is the pool's list head, so unless the head happens to sit exactly
   * `alloc_offset` bytes below the header, the block start recovered on
   * free is wrong.
   */
  lemma FirstLinkMisplacesBlock(mem: seq<byte>, w: Wrapper.SmallWrapper, head: nat)
    requires Wrapper.WellFormed(w, MEMPOOL_OBJECT_SIZE_AS_WRITTEN, |mem|)
    requires head < ByteRange(8) && head != w.header - w.ptr
    ensures w.header - w.ptr + RLIST_SIZE <= |mem|
    ensures var linked := Store(Wrapper.OffsetImage(mem, w, MEMPOOL_OBJECT_SIZE_AS_WRITTEN), w.header - w.ptr,
                                LittleEndian(head, 8) + LittleEndian(head, 8));
      Wrapper.ReadOffset(linked, w.header - w.ptr) != w.header - w.ptr
  {
    var link := LittleEndian(head, 8) + LittleEndian(head, 8);
    LinkOverwritesOffsetAsWritten(mem, w, link);
    assert link[..8] == LittleEndian(head, 8);
    LittleEndianRoundTrip(head, 8);
  }

  /**
   * With the `small_header` base first and the link after it, linking the
   * object leaves `alloc_offset` intact.
   */
  lemma LinkKeepsOffset(mem: seq<byte>, w: Wrapper.SmallWrapper, link: seq<byte>)
    requires Wrapper.WellFormed(w, MEMPOOL_OBJECT_SIZE, |mem|)
    requires |link| == RLIST_SIZE
    ensures w.header - w.ptr + MEMPOOL_OBJECT_SIZE <= |mem|
    ensures var linked := Store(Wrapper.OffsetImage(mem, w, MEMPOOL_OBJECT_SIZE),
                                w.header - w.ptr + Wrapper.SMALL_HEADER_SIZE, link);
      Wrapper.ReadOffset(linked, w.header - w.ptr) == w.header - w.ptr
  {
    var at := w.header - w.ptr;
    var img := Wrapper.OffsetImage(mem, w, MEMPOOL_OBJECT_SIZE);
    Wrapper.OffsetImageReadsBack(mem, w, MEMPOOL_OBJECT_SIZE);
    StoreKeeps(img, at + Wrapper.SMALL_HEADER_SIZE, link, at, at + Wrapper.SMALL_HEADER_SIZE);
  }

  // ----- the pool ---------------------------------------------------------------

  /** `struct mempool_stats` as far as the ASAN pool fills it. */
  datatype MempoolStats = MempoolStats(objsize: nat, objcount: nat, used: nat, total: nat,
                                       slabsize: nat, slabcount: nat)

  /** `rlist_del` of the object at `p`. */
  function Remove(objs: seq<nat>, p: nat): (r: seq<nat>)
    ensures p in objs ==> |r| + 1 == |objs|
    ensures p !in objs ==> r == objs
    ensures forall q :: q in r ==> q in objs
  {
    if objs == [] then []
    else if objs[0] == p then objs[1..]
    else [objs[0]] + Remove(objs[1..], p)
  }

  /** Without duplicates, removing `p` takes exactly `p` out. */
  lemma {:induction false} RemoveExact(objs: seq<nat>, p: nat)
    requires forall i, j :: 0 <= i < j < |objs| ==> objs[i] != objs[j]
    ensures var r := Remove(objs, p);
      && (forall i, j :: 0 <= i < j < |r| ==> r[i] != r[j])
      && (forall q :: q in r <==> q in objs && q != p)
  {
    if objs != [] && objs[0] != p {
      RemoveExact(objs[1..], p);
      var r := Remove(objs, p);
      assert r == [objs[0]] + Remove(objs[1..], p);
      assert objs[0] !in objs[1..];
    }
  }

  /** Allocating an object and freeing it again restores the object list. */
  lemma AllocFreeRestores(objs: seq<nat>, p: nat)
    ensures Remove([p] + objs, p) == objs
  {
    assert ([p] + objs)[1..] == objs;
  }

  class Mempool {
    /** Size of every object. */
    const objsize: nat
    /** Payload alignment of every object. */
    const alignment: nat
    /** The live objects' payloads, newest first. */
    var objects: seq<nat>
    /** Number of live objects. */
    var objcount: nat
    /** Payloads whose wrapper block is allocated. */
    ghost var blocks: set<nat>

    ghost predicate Valid()
      reads this
    {
      && 0 < objsize < UINT32_RANGE && alignment == PoolAlignment(objsize)
      && (forall i, j :: 0 <= i < j < |objects| ==> objects[i] != objects[j])
      && objcount == |objects|
      && (forall p :: p in blocks <==> p in objects)
    }

    /** `mempool_create`: an empty, initialized pool of `objsize`-byte objects. */
    constructor (objsize: nat)
      requires 0 < objsize < UINT32_RANGE
      ensures Valid() && IsInitialized()
      ensures this.objsize == objsize && objects == [] && objcount == 0 && blocks == {}
      ensures IsPow2(alignment) && objsize % alignment == 0 && alignment <= MEMPOOL_ASAN_MAX_ALIGNMENT
    {
      this.objsize := objsize;
      alignment := PoolAlignment(objsize);
      objects := [];
      objcount := 0;
      blocks := {};
      new;
      PoolAlignmentIsLargest(objsize);
    }

    /** `mempool_is_initialized`. */
    predicate IsInitialized()
      reads this
    {
      objsize != 0
    }

    /** `mempool_count`: the number of live objects. */
    function Count(): (n: nat)
      requires Valid()
      reads this
      ensures n == |objects|
    {
      objcount
    }

    /** `mempool_used`: the bytes taken by the live objects. */
    function Used(): (n: nat)
      requires Valid()
      reads this
      ensures n == objsize * |objects|
    {
      objsize * objcount
    }

    /** `mempool_stats`: the pool's figures; the ASAN pool has no slabs. */
    function Stats(): (s: MempoolStats)
      requires Valid()
      reads this
      ensures s.objsize == objsize && s.objcount == |objects|
      ensures s.used == s.total == Used() && s.slabsize == 0 && s.slabcount == 0
    {
      MempoolStats(objsize, objcount, objsize * objcount, objsize * objcount, 0, 0)
    }

    /** The payload a new object in `block` receives. */
    function PayloadIn(block: nat): (p: nat)
      requires Valid() && block % Wrapper.SMALL_HEADER_ALIGNMENT == 0
      reads this
      ensures p % alignment == 0 && p % (2 * alignment) != 0
    {
      PoolAlignmentIsLargest(objsize);
      Wrapper.Layout(block, objsize, alignment, MEMPOOL_OBJECT_SIZE).payload
    }

    /** `mempool_alloc`: a new object, aligned to the pool alignment and not to twice it. */
    method Alloc(block: nat) returns (p: nat)
      requires Valid()
      requires block % Wrapper.SMALL_HEADER_ALIGNMENT == 0 && PayloadIn(block) !in objects
      modifies this
      ensures Valid()
      ensures p == PayloadIn(block)
      ensures objects == [p] + old(objects) && objcount == old(objcount) + 1
      ensures blocks == old(blocks) + {p}
    {
      p := PayloadIn(block);
      objects := [p] + objects;
      objcount := objcount + 1;
      blocks := blocks + {p};
    }

    /** `mempool_free`: free a live object of the pool. */
    method Free(p: nat)
      requires Valid() && p in objects
      modifies this
      ensures Valid()
      ensures objects == Remove(old(objects), p) && objcount == old(objcount) - 1
      ensures blocks == old(blocks) - {p}
    {
      RemoveExact(objects, p);
      objects := Remove(objects, p);
      objcount := objcount - 1;
      blocks := blocks - {p};
    }

    /**
     * `mempool_destroy`: free every live object and empty the list;
     * `objcount` is left as it was.
     */
    method Destroy()
      requires Valid()
      modifies this
      ensures objects == [] && blocks == {} && objcount == old(objcount)
    {
      var i: nat := 0;
      while i < |objects|
        invariant i <= |objects| && objects == old(objects) && objcount == old(objcount)
        invariant forall p :: p in blocks <==> p in objects[i..]
      {
        assert objects[i..] == [objects[i]] + objects[i + 1..];
        assert objects[i] !in objects[i + 1..];
        blocks := blocks - {objects[i]};
        i := i + 1;
      }
      objects := [];
    }
  }
}
