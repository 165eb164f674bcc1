/**
 * The ASAN object allocator of small/small_asan.c. Every object is its own
 * wrapper block whose header records the object's size; the allocator
 * keeps the live objects newest first, their total size and their count,
 * and leases every object's size from a quota before allocating it.
 *
 * An object is known by its payload address. The block address `malloc`
 * returns is a parameter of `Smalloc`; the payload alignment and the
 * header size stand for `SMALL_ASAN_ALIGNMENT` and
 * `sizeof(struct small_object)`, which small.h defines and which are
 * parameters of the allocator here.
 */
module SmallAlloc {
  import opened SmallUtil
  import Wrapper
  import Quota

  /** A live object: its payload address and the size its header records. */
  datatype SmallObject = SmallObject(payload: nat, size: nat)

  /** Why a free is refused: the object is not this allocator's, or the size is not the object's. */
  datatype FreeError = IdMismatch | InvalidSize

  /** The `size_t` range: arithmetic on `used` and `objcount` wraps at this bound. */
  const SIZE_RANGE: nat := SIZE_MAX + 1

  /** The total size of the objects. */
  function SumSizes(objs: seq<SmallObject>): nat
  {
    if objs == [] then 0 else objs[0].size + SumSizes(objs[1..])
  }

  lemma {:induction false} SumSizesSplit(objs: seq<SmallObject>, k: nat)
    requires k <= |objs|
    ensures SumSizes(objs) == SumSizes(objs[..k]) + SumSizes(objs[k..])
  {
    if k > 0 {
      SumSizesSplit(objs[1..], k - 1);
      assert objs[1..][k - 1..] == objs[k..];
      assert objs[..k][1..] == objs[1..][..k - 1];
    } else {
      assert objs[k..] == objs;
    }
  }

  /** The payload addresses of the objects. */
  function Payloads(objs: seq<SmallObject>): set<nat>
  {
    set o | o in objs :: o.payload
  }

  /** No two objects share a payload. */
  predicate Distinct(objs: seq<SmallObject>)
  {
    forall i, j :: 0 <= i < j < |objs| ==> objs[i].payload != objs[j].payload
  }

  /** The size recorded for the object at `p`, if it is one of `objs`. */
  function Lookup(objs: seq<SmallObject>, p: nat): (r: Option<nat>)
    ensures r.None? <==> p !in Payloads(objs)
    ensures r.Some? ==> SmallObject(p, r.value) in objs
  {
    if objs == [] then None
    else if objs[0].payload == p then Some(objs[0].size)
    else
      assert Payloads(objs) == {objs[0].payload} + Payloads(objs[1..]);
      Lookup(objs[1..], p)
  }

  /** Without duplicate payloads the size found is the size of the object at `p`. */
  lemma {:induction false} LookupDistinct(objs: seq<SmallObject>, p: nat, n: nat)
    requires Distinct(objs) && SmallObject(p, n) in objs
    ensures Lookup(objs, p) == Some(n)
  {
    if objs[0] != SmallObject(p, n) {
      assert SmallObject(p, n) in objs[1..];
      assert objs[0].payload != p;
      LookupDistinct(objs[1..], p, n);
    }
  }

  /** `rlist_del` of the object at `p`; the size it records leaves the total. */
  function Remove(objs: seq<SmallObject>, p: nat): (r: seq<SmallObject>)
    ensures Lookup(objs, p).Some? ==>
      |r| + 1 == |objs| && SumSizes(r) + Lookup(objs, p).value == SumSizes(objs)
    ensures Lookup(objs, p).None? ==> r == objs
  {
    if objs == [] then []
    else if objs[0].payload == p then objs[1..]
    else [objs[0]] + Remove(objs[1..], p)
  }

  /** Among distinct payloads, removing takes exactly `p` out of them. */
  lemma {:induction false} RemovePayloads(objs: seq<SmallObject>, p: nat)
    requires Distinct(objs)
    ensures Payloads(Remove(objs, p)) == Payloads(objs) - {p}
  {
    if objs != [] {
      var rest := objs[1..];
      assert Payloads(objs) == {objs[0].payload} + Payloads(rest);
      if objs[0].payload == p {
        assert p !in Payloads(rest);
      } else {
        RemovePayloads(rest, p);
        var r := Remove(objs, p);
        assert r == [objs[0]] + Remove(rest, p);
        assert Payloads(r) == {objs[0].payload} + Payloads(Remove(rest, p));
      }
    }
  }

  /** Removing keeps payloads distinct. */
  lemma {:induction false} RemoveDistinct(objs: seq<SmallObject>, p: nat)
    requires Distinct(objs)
    ensures Distinct(Remove(objs, p))
  {
    if objs != [] && objs[0].payload != p {
      var rest := objs[1..];
      RemoveDistinct(rest, p);
      RemovePayloads(rest, p);
      var r := Remove(objs, p);
      assert r == [objs[0]] + Remove(rest, p);
      forall j | 1 <= j < |r|
        ensures r[j].payload != objs[0].payload
      {
        assert r[j] in Remove(rest, p);
        assert r[j].payload in Payloads(Remove(rest, p));
        assert objs[0].payload !in Payloads(rest);
      }
    }
  }

  /**
   * The checks a correct `smfree(alloc, p, size)` makes: the object belongs
   * to the allocator, and `size` is the size it was allocated with.
   */
  function SmfreeCheck(objs: seq<SmallObject>, p: nat, size: nat): (err: Option<FreeError>)
    ensures err.None? ==> SmallObject(p, size) in objs
    ensures err == Some(IdMismatch) <==> p !in Payloads(objs)
  {
    match Lookup(objs, p)
    case None => Some(IdMismatch)
    case Some(n) => if n != size then Some(InvalidSize) else None
  }

  /** Allocating an object and freeing it again restores the object list and its total. */
  lemma AllocFreeRestores(objs: seq<SmallObject>, p: nat, size: nat)
    requires Distinct(objs) && p !in Payloads(objs)
    ensures SmfreeCheck([SmallObject(p, size)] + objs, p, size) == None
    ensures Remove([SmallObject(p, size)] + objs, p) == objs
  {
    assert ([SmallObject(p, size)] + objs)[1..] == objs;
  }

  /** Among distinct objects a free is accepted exactly for an object with its own size. */
  lemma SmfreeCheckExact(objs: seq<SmallObject>, p: nat, size: nat)
    requires Distinct(objs)
    ensures SmfreeCheck(objs, p, size) == None <==> SmallObject(p, size) in objs
  {
    if SmallObject(p, size) in objs {
      LookupDistinct(objs, p, size);
    }
  }

  // ----- smfree as written ------------------------------------------------------

  /**
   * The only check `smfree` makes as written: the size recorded in the
   * header in front of `p` equals `size`. The header is read whichever
   * allocator the object belongs to.
   */
  function SmfreeCheckAsWritten(recorded: nat, size: nat): Option<FreeError>
  {
    if recorded != size then Some(InvalidSize) else None
  }

  /** `alloc->used -= obj->size` on a `size_t`. */
  function UsedAfterFreeAsWritten(used: nat, recorded: nat): nat
    requires used < SIZE_RANGE && recorded < SIZE_RANGE
  {
    (used - recorded) % SIZE_RANGE
  }

  /**
   * Freeing an object of another allocator into an empty one: as written
   * the size check passes and `used` wraps around, where the corrected
   * check refuses the object.
   */
  lemma ForeignFreeAsWritten(p: nat)
    ensures var owner := [SmallObject(p, 16)];
      && Lookup(owner, p) == Some(16)
      && SmfreeCheckAsWritten(Lookup(owner, p).value, 16) == None
      && UsedAfterFreeAsWritten(0, 16) == SIZE_MAX - 15
      && SmfreeCheck([], p, 16) == Some(IdMismatch)
  {
    assert (0 - 16) % SIZE_RANGE == SIZE_RANGE - 16 by {
      ModUnique(0 - 16, SIZE_RANGE, -1, SIZE_RANGE - 16);
    }
  }

  // ----- the allocator ----------------------------------------------------------

  class SmallAlloc {
    /** The quota shared with the slab cache. */
    const quota: Quota.Quota
    /** `SMALL_ASAN_ALIGNMENT`. */
    const alignment: nat
    /** `sizeof(struct small_object)`. */
    const headerSize: nat
    /** The live objects, newest first. */
    var objects: seq<SmallObject>
    /** Total size of the live objects. */
    var used: nat
    /** Number of live objects. */
    var objcount: nat

    ghost predicate Valid()
      reads this, quota
    {
      && IsPow2(alignment) && headerSize >= Wrapper.SMALL_HEADER_SIZE
      && quota.Valid()
      && Distinct(objects)
      && used == SumSizes(objects) && objcount == |objects|
      && used <= quota.leased
    }

    /** `small_alloc_create`: no objects, nothing used. */
    constructor (quota: Quota.Quota, alignment: nat, headerSize: nat)
      requires quota.Valid()
      requires IsPow2(alignment) && headerSize >= Wrapper.SMALL_HEADER_SIZE
      ensures Valid()
      ensures this.quota == quota && objects == [] && used == 0 && objcount == 0
    {
      this.quota := quota;
      this.alignment := alignment;
      this.headerSize := headerSize;
      objects := [];
      used := 0;
      objcount := 0;
    }

    /** The payload a new object in `block` receives, aligned to `alignment` and not to twice it. */
    function PayloadIn(block: nat, size: nat): (p: nat)
      requires IsPow2(alignment) && block % Wrapper.SMALL_HEADER_ALIGNMENT == 0
      reads this
      ensures p >= block + headerSize
    {
      Wrapper.Layout(block, size, alignment, headerSize).payload
    }

    /**
     * `smalloc`: lease `size` bytes from the quota and, if that succeeds,
     * allocate an object of that size; 0 (NULL) when the quota refuses,
     * with nothing changed.
     */
    method Smalloc(size: nat, block: nat) returns (p: nat)
      requires Valid()
      requires block % Wrapper.SMALL_HEADER_ALIGNMENT == 0
      requires PayloadIn(block, size) !in Payloads(objects)
      modifies this, quota
      ensures Valid()
      ensures p != 0 <==> old(quota.leased) + size <= quota.limit
      ensures p == 0 ==>
        (objects == old(objects) && used == old(used)
         && objcount == old(objcount) && quota.leased == old(quota.leased))
      ensures p != 0 ==>
        (&& p == PayloadIn(block, size)
         && objects == [SmallObject(p, size)] + old(objects)
         && used == old(used) + size && objcount == old(objcount) + 1
         && quota.leased == old(quota.leased) + size)
    {
      var ok := quota.Lease(size);
      if !ok {
        return 0;
      }
      p := PayloadIn(block, size);
      objects := [SmallObject(p, size)] + objects;
      used := used + size;
      objcount := objcount + 1;
      assert objects[1..] == old(objects);
    }

    /**
     * `smfree`: free the object at `p`, allocated with `size`, and end its
     * lease. A pointer that is not one of this allocator's objects, or a
     * size that is not the object's, is refused with nothing changed.
     */
    method Smfree(p: nat, size: nat) returns (err: Option<FreeError>)
      requires Valid()
      modifies this, quota
      ensures Valid()
      ensures err == SmfreeCheck(old(objects), p, size)
      ensures err.Some? ==>
        (objects == old(objects) && used == old(used)
         && objcount == old(objcount) && quota.leased == old(quota.leased))
      ensures err.None? ==>
        (&& objects == Remove(old(objects), p)
         && used == old(used) - size && objcount == old(objcount) - 1
         && quota.leased == old(quota.leased) - size)
    {
      err := SmfreeCheck(objects, p, size);
      if err.Some? {
        return;
      }
      var rest := Remove(objects, p);
      RemoveDistinct(objects, p);
      RemovePayloads(objects, p);
      quota.EndLease(size);
      objects := rest;
      used := used - size;
      objcount := objcount - 1;
    }

    /**
     * `small_alloc_destroy`: end the lease of every live object and empty
     * the list. `used` and `objcount` are left as they were.
     */
    method Destroy()
      requires Valid()
      modifies this, quota
      ensures objects == [] && used == old(used) && objcount == old(objcount)
      ensures quota.leased == old(quota.leased) - old(used) && quota.Valid()
    {
      var i: nat := 0;
      while i < |objects|
        invariant i <= |objects| && objects == old(objects) && used == old(used)
        invariant objcount == old(objcount) && quota.Valid()
        invariant quota.leased + SumSizes(objects[..i]) == old(quota.leased)
      {
        SumSizesSplit(objects[..i + 1], i);
        assert objects[..i + 1][..i] == objects[..i];
        assert objects[..i + 1][i..] == [objects[i]];
        SumSizesSplit(objects, i + 1);
        quota.EndLease(objects[i].size);
        i := i + 1;
      }
      assert objects[..i] == objects;
      objects := [];
    }
  }
}
