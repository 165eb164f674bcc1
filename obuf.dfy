/**
 * The ASAN output buffer of include/small/obuf_asan.h and
 * small/obuf_asan.c. The buffer is a NULL-terminated vector of chunks
 * (`struct iovec`). The first chunks, up to the "checked" bound, are each a
 * wrapper block of their own, opened by every reservation or allocation;
 * the chunks after it are plain blocks of geometrically growing capacity
 * that later allocations fill.
 *
 * Addresses are naturals and NULL is 0. The block address `malloc` returns
 * is a parameter of every operation that may open a chunk, and the page
 * size is a parameter of the reservation. The bytes written into chunks
 * are not modelled; the ghost set `live` records which chunk slots own a
 * block that has not been released.
 */
module Obuf {
  import opened SmallUtil
  import Wrapper

  /** `IOV_MAX` of Linux, which `SMALL_OBUF_IOV_MAX` equals. */
  const IOV_MAX: nat := 1024
  const SMALL_OBUF_IOV_MAX: nat := IOV_MAX
  /** Number of slots at the end of the vector that grow geometrically. */
  const SMALL_OBUF_IOV_GEOMETRIC_SIZE: nat := 32
  /** Number of slots at the start of the vector that are wrapper blocks each. */
  const SMALL_OBUF_IOV_CHECKED_SIZE: nat := SMALL_OBUF_IOV_MAX + 1 - SMALL_OBUF_IOV_GEOMETRIC_SIZE
  /** Payload alignment of the checked chunks: none at all. */
  const SMALL_OBUF_ALIGNMENT: nat := 1
  /** `sizeof(struct obuf_allocation)`: the bare wrapper header. */
  const OBUF_HEADER_SIZE: nat := Wrapper.SMALL_HEADER_SIZE

  /** `struct iovec`; a `base` of 0 is NULL. */
  datatype Iovec = Iovec(base: nat, len: nat)

  /** `struct obuf_svp`: a position in the buffer to roll back to. */
  datatype Svp = Svp(pos: nat, iovLen: nat, used: nat)

  /** The savepoint `obuf_svp_reset` produces: the start of an empty buffer. */
  const EMPTY_SVP: Svp := Svp(0, 0, 0)

  /** The total length of the chunks. */
  function SumLen(s: seq<Iovec>): nat
  {
    if s == [] then 0 else SumLen(s[..|s| - 1]) + s[|s| - 1].len
  }

  lemma SumLenLast(s: seq<Iovec>, x: Iovec)
    ensures SumLen(s + [x]) == SumLen(s) + x.len
  {
    assert (s + [x])[..|s|] == s;
  }

  // ----- the capacity of a new geometric chunk --------------------------------

  /**
   * `capacity` doubled until it is at least `size`. Doubling stops only
   * when the capacity is positive or nothing is requested.
   */
  function Doubled(capacity: nat, size: nat): (r: nat)
    requires capacity > 0 || size == 0
    ensures r >= size && r >= capacity
    decreases size - capacity
  {
    if capacity >= size then capacity else Doubled(2 * capacity, size)
  }

  lemma Twice(x: nat, y: nat)
    ensures x * (2 * y) == (2 * x) * y
  {
  }

  /**
   * The doubled capacity is the least of `capacity * 2^k` that is at
   * least `size`: it is `capacity` itself or its half is too small.
   */
  lemma {:induction false} DoubledIsLeast(capacity: nat, size: nat) returns (k: nat)
    requires capacity > 0 || size == 0
    ensures Doubled(capacity, size) == capacity * Pow2(k)
    ensures Doubled(capacity, size) == capacity || Doubled(capacity, size) / 2 < size
    decreases size - capacity
  {
    if capacity >= size {
      k := 0;
    } else {
      var j := DoubledIsLeast(2 * capacity, size);
      k := j + 1;
      Twice(capacity, Pow2(j));
    }
  }

  /** `x << k` on unbounded naturals: `x` times `2^k`, never below a positive `x`. */
  function ShiftLeft(x: nat, k: nat): (r: nat)
    ensures r == x * Pow2(k)
    ensures x > 0 ==> r >= x
  {
    if k == 0 then x else 2 * ShiftLeft(x, k - 1)
  }

  /**
   * The capacity `obuf_prepare_buf` gives geometric chunk `g` (slot
   * `SMALL_OBUF_IOV_CHECKED_SIZE + g`): `startCapacity << g`, doubled
   * until `size` fits.
   */
  method GrowCapacity(startCapacity: nat, g: nat, size: nat) returns (capacity: nat)
    requires startCapacity > 0 || size == 0
    ensures capacity == Doubled(ShiftLeft(startCapacity, g), size)
  {
    capacity := ShiftLeft(startCapacity, g);
    while capacity < size
      invariant capacity > 0 || size == 0
      invariant Doubled(capacity, size) == Doubled(ShiftLeft(startCapacity, g), size)
      decreases size - capacity
    {
      capacity := capacity * 2;
    }
  }

  // ----- chunks released by a rollback ----------------------------------------

  /**
   * The first slot a rollback to `svp` clears: the slot after the
   * savepoint's, except that rolling back to the start of a buffer whose
   * slot 0 holds a chunk clears slot 0 as well.
   */
  function RollbackStart(svp: Svp, firstBase: nat): (start: nat)
    ensures start == svp.pos || start == svp.pos + 1
    ensures start == svp.pos <==> svp.pos == 0 && svp.iovLen == 0 && firstBase != 0
  {
    if svp.pos == 0 && svp.iovLen == 0 && firstBase != 0 then 0 else svp.pos + 1
  }

  function Min(a: int, b: int): int { if a < b then a else b }
  function Max(a: int, b: int): int { if a < b then b else a }

  /** The integers from `lo` up to, and not including, `hi`. */
  function Range(lo: int, hi: int): (r: set<int>)
    ensures forall i :: i in r <==> lo <= i < hi
    decreases hi - lo
  {
    if lo >= hi then {} else {lo} + Range(lo + 1, hi)
  }

  /** The slots a rollback from position `bufPos` clears: `start` through `bufPos`. */
  function Cleared(start: int, bufPos: int): set<int>
  {
    Range(start, bufPos + 1)
  }

  /**
   * The slots whose blocks `obuf_rollback_to_svp` releases as written:
   * wrapper blocks below `min(bufPos, SMALL_OBUF_IOV_CHECKED_SIZE)` and
   * geometric blocks from the checked bound through `bufPos`.
   */
  function ReleasedAsWritten(start: int, bufPos: int): set<int>
  {
    Range(start, Min(bufPos, SMALL_OBUF_IOV_CHECKED_SIZE))
      + Range(Max(start, SMALL_OBUF_IOV_CHECKED_SIZE), bufPos + 1)
  }

  /**
   * The slots the model releases: the wrapper loop runs through `bufPos`
   * itself, as the geometric loop does.
   */
  function Released(start: int, bufPos: int): set<int>
  {
    Range(start, Min(bufPos + 1, SMALL_OBUF_IOV_CHECKED_SIZE))
      + Range(Max(start, SMALL_OBUF_IOV_CHECKED_SIZE), bufPos + 1)
  }

  /** Every slot the rollback clears has its block released, and no other. */
  lemma ReleasedIsCleared(start: int, bufPos: int)
    ensures Released(start, bufPos) == Cleared(start, bufPos)
  {
    assert forall i :: i in Cleared(start, bufPos) ==> i in Released(start, bufPos) by {
      forall i | i in Cleared(start, bufPos)
        ensures i in Released(start, bufPos)
      {
        if i < SMALL_OBUF_IOV_CHECKED_SIZE {
          assert i < Min(bufPos + 1, SMALL_OBUF_IOV_CHECKED_SIZE);
        }
      }
    }
  }

  /**
   * As written, the release loops skip the last slot whenever it is a
   * wrapper chunk: its block is cleared from the vector and leaks.
   */
  lemma ReleasedAsWrittenLeaks(start: int, bufPos: int)
    requires start <= bufPos < SMALL_OBUF_IOV_CHECKED_SIZE
    ensures bufPos in Cleared(start, bufPos)
    ensures bufPos !in ReleasedAsWritten(start, bufPos)
  {
  }

  /** Past the checked bound the as-written loops do release every cleared slot. */
  lemma ReleasedAsWrittenPastChecked(start: int, bufPos: int)
    requires bufPos >= SMALL_OBUF_IOV_CHECKED_SIZE
    ensures ReleasedAsWritten(start, bufPos) == Cleared(start, bufPos)
  {
    assert Min(bufPos, SMALL_OBUF_IOV_CHECKED_SIZE) == SMALL_OBUF_IOV_CHECKED_SIZE;
    ReleasedIsCleared(start, bufPos);
  }

  /**
   * `obuf_reset` after a single allocation: the savepoint is the empty
   * one, the only chunk sits in slot 0 and is cleared, yet not released.
   */
  lemma ResetAfterOneAllocLeaks(firstBase: nat)
    requires firstBase != 0
    ensures RollbackStart(EMPTY_SVP, firstBase) == 0
    ensures Cleared(0, 0) == {0} && ReleasedAsWritten(0, 0) == {}
  {
    assert forall i :: i in ReleasedAsWritten(0, 0) ==> false;
  }


  // ----- the buffer invariant, over the contents of the two arrays ----------

  /**
   * The state of a buffer with slots `s` and geometric capacities `caps`:
   * slots before `pos` hold chunks, and so does `pos` unless the buffer is
   * empty; slots after `pos`, the terminator among them, are empty; `used`
   * is the total length; a geometric chunk fits its capacity together with
   * the pending reservation; `live` names exactly the slots holding a chunk.
   */
  ghost predicate Inv(s: seq<Iovec>, caps: seq<nat>, pos: nat, used: nat, reserved: nat, live: set<int>)
  {
    && |s| == SMALL_OBUF_IOV_MAX + 1
    && |caps| == SMALL_OBUF_IOV_GEOMETRIC_SIZE - 1
    && pos < SMALL_OBUF_IOV_MAX
    && SlotsInv(s, pos, reserved)
    && used == SumLen(s[..pos + 1])
    && CapsInv(s, caps, pos, reserved)
    && LiveInv(s, live)
  }

  /** Slots before `pos` hold chunks, `pos` too unless the buffer is empty, and the rest are empty. */
  ghost predicate SlotsInv(s: seq<Iovec>, pos: nat, reserved: nat)
    requires pos < |s|
  {
    && (forall i :: 0 <= i < pos ==> s[i].base != 0)
    && (pos > 0 || reserved != 0 ==> s[pos].base != 0)
    && (s[pos].base == 0 ==> s[pos].len == 0)
    && (forall i :: pos < i < |s| ==> s[i] == Iovec(0, 0))
  }

  /** Every geometric chunk fits its capacity, the last one together with the reservation. */
  ghost predicate CapsInv(s: seq<Iovec>, caps: seq<nat>, pos: nat, reserved: nat)
    requires |s| == SMALL_OBUF_IOV_MAX + 1 && |caps| == SMALL_OBUF_IOV_GEOMETRIC_SIZE - 1
    requires pos < SMALL_OBUF_IOV_MAX
  {
    && (forall g :: 0 <= g < |caps| ==>
          (s[SMALL_OBUF_IOV_CHECKED_SIZE + g].base == 0 ==> caps[g] == 0)
          && s[SMALL_OBUF_IOV_CHECKED_SIZE + g].len <= caps[g])
    && (pos >= SMALL_OBUF_IOV_CHECKED_SIZE ==>
          s[pos].len + reserved <= caps[pos - SMALL_OBUF_IOV_CHECKED_SIZE])
  }

  /** `live` names exactly the slots holding a chunk. */
  ghost predicate LiveInv(s: seq<Iovec>, live: set<int>)
  {
    && (forall i :: i in live ==> 0 <= i < |s|)
    && (forall i :: 0 <= i < |s| ==> (i in live <==> s[i].base != 0))
  }

  /** The capacities after opening slot `q` with capacity `c`; wrapper slots have none. */
  function OpenCaps(caps: seq<nat>, q: nat, c: nat): seq<nat>
    requires q < SMALL_OBUF_IOV_CHECKED_SIZE + |caps|
  {
    if q >= SMALL_OBUF_IOV_CHECKED_SIZE then caps[q - SMALL_OBUF_IOV_CHECKED_SIZE := c] else caps
  }

  /** Opening a chunk in the slot after `pos` keeps the invariant. */
  lemma InvOpenNext(s: seq<Iovec>, caps: seq<nat>, pos: nat, used: nat, live: set<int>, base: nat, c: nat)
    requires Inv(s, caps, pos, used, 0, live)
    requires pos + 1 < SMALL_OBUF_IOV_MAX && s[pos].base != 0 && base != 0
    ensures Inv(s[pos + 1 := Iovec(base, 0)], OpenCaps(caps, pos + 1, c), pos + 1, used, 0, live + {pos + 1})
  {
    var t := s[pos + 1 := Iovec(base, 0)];
    OpenNextSlots(s, caps, pos, used, live, base);
    OpenNextCaps(s, caps, pos, used, live, base, c);
    OpenNextLive(s, caps, pos, used, live, base);
    assert t[..pos + 2] == s[..pos + 1] + [Iovec(base, 0)];
    SumLenLast(s[..pos + 1], Iovec(base, 0));
  }

  lemma OpenNextSlots(s: seq<Iovec>, caps: seq<nat>, pos: nat, used: nat, live: set<int>, base: nat)
    requires Inv(s, caps, pos, used, 0, live)
    requires pos + 1 < SMALL_OBUF_IOV_MAX && s[pos].base != 0 && base != 0
    ensures SlotsInv(s[pos + 1 := Iovec(base, 0)], pos + 1, 0)
  {
  }

  lemma OpenNextCaps(s: seq<Iovec>, caps: seq<nat>, pos: nat, used: nat, live: set<int>, base: nat, c: nat)
    requires Inv(s, caps, pos, used, 0, live)
    requires pos + 1 < SMALL_OBUF_IOV_MAX && s[pos].base != 0 && base != 0
    ensures CapsInv(s[pos + 1 := Iovec(base, 0)], OpenCaps(caps, pos + 1, c), pos + 1, 0)
  {
    var t := s[pos + 1 := Iovec(base, 0)];
    var caps' := OpenCaps(caps, pos + 1, c);
    forall g | 0 <= g < |caps'|
      ensures (t[SMALL_OBUF_IOV_CHECKED_SIZE + g].base == 0 ==> caps'[g] == 0)
        && t[SMALL_OBUF_IOV_CHECKED_SIZE + g].len <= caps'[g]
    {
      if SMALL_OBUF_IOV_CHECKED_SIZE + g != pos + 1 {
        assert t[SMALL_OBUF_IOV_CHECKED_SIZE + g] == s[SMALL_OBUF_IOV_CHECKED_SIZE + g];
      }
    }
  }

  lemma OpenNextLive(s: seq<Iovec>, caps: seq<nat>, pos: nat, used: nat, live: set<int>, base: nat)
    requires Inv(s, caps, pos, used, 0, live)
    requires pos + 1 < SMALL_OBUF_IOV_MAX && base != 0
    ensures LiveInv(s[pos + 1 := Iovec(base, 0)], live + {pos + 1})
  {
    var t := s[pos + 1 := Iovec(base, 0)];
    forall i | 0 <= i < |t|
      ensures i in live + {pos + 1} <==> t[i].base != 0
    {
      if i != pos + 1 {
        assert t[i] == s[i];
      }
    }
  }

  /** Opening a chunk in slot 0 of an empty buffer keeps the invariant. */
  lemma InvOpenFirst(s: seq<Iovec>, caps: seq<nat>, used: nat, live: set<int>, base: nat)
    requires Inv(s, caps, 0, used, 0, live)
    requires s[0].base == 0 && base != 0
    ensures Inv(s[0 := Iovec(base, 0)], caps, 0, used, 0, live + {0})
  {
    var t := s[0 := Iovec(base, 0)];
    assert s[..1] == [] + [s[0]];
    assert t[..1] == [] + [Iovec(base, 0)];
    SumLenLast([], s[0]);
    SumLenLast([], Iovec(base, 0));
  }

  /** `s` with the length of slot `k` set to `len`. */
  function SetLen(s: seq<Iovec>, k: nat, len: nat): seq<Iovec>
    requires k < |s|
  {
    s[k := s[k].(len := len)]
  }

  /** Changing the length of the last slot changes the total by the same amount. */
  lemma SumLenSetLast(s: seq<Iovec>, pos: nat, len: nat)
    requires pos < |s|
    ensures SumLen(SetLen(s, pos, len)[..pos + 1]) + s[pos].len == SumLen(s[..pos + 1]) + len
  {
    var t := SetLen(s, pos, len);
    assert s[..pos + 1] == s[..pos] + [s[pos]];
    assert t[..pos + 1] == s[..pos] + [t[pos]];
    SumLenLast(s[..pos], s[pos]);
    SumLenLast(s[..pos], t[pos]);
  }

  /**
   * Appending `size` bytes to the last chunk keeps the invariant when they
   * come out of the reservation, or fit the chunk's capacity.
   */
  lemma InvCommit(s: seq<Iovec>, caps: seq<nat>, pos: nat, used: nat, reserved: nat, live: set<int>, size: nat)
    requires Inv(s, caps, pos, used, reserved, live) && s[pos].base != 0
    requires size <= reserved
      || (reserved == 0 && (pos >= SMALL_OBUF_IOV_CHECKED_SIZE ==>
            s[pos].len + size <= caps[pos - SMALL_OBUF_IOV_CHECKED_SIZE]))
    ensures Inv(SetLen(s, pos, s[pos].len + size), caps, pos, used + size, 0, live)
  {
    SumLenSetLast(s, pos, s[pos].len + size);
  }

  /** The slots with `start` through `last` emptied. */
  function ZeroSlots(s: seq<Iovec>, start: int, last: int): (t: seq<Iovec>)
    ensures |t| == |s|
    ensures forall j :: 0 <= j < |s| ==> t[j] == if start <= j <= last then Iovec(0, 0) else s[j]
  {
    seq(|s|, j requires 0 <= j < |s| => if start <= j <= last then Iovec(0, 0) else s[j])
  }

  /** The capacities with those of slots `start` through `last` zeroed. */
  function ZeroCaps(caps: seq<nat>, start: int, last: int): (t: seq<nat>)
    ensures |t| == |caps|
    ensures forall g :: 0 <= g < |caps| ==>
      t[g] == if start <= SMALL_OBUF_IOV_CHECKED_SIZE + g <= last then 0 else caps[g]
  {
    seq(|caps|, g requires 0 <= g < |caps| =>
      if start <= SMALL_OBUF_IOV_CHECKED_SIZE + g <= last then 0 else caps[g])
  }

  /** The slots after rolling back to `svp`: cleared from `start`, the savepoint's chunk cut back. */
  function RolledSlots(s: seq<Iovec>, start: int, last: int, svp: Svp): seq<Iovec>
    requires svp.pos < |s|
  {
    SetLen(ZeroSlots(s, start, last), svp.pos, svp.iovLen)
  }

  /** A savepoint of the buffer with slots `s` and end `pos`. */
  ghost predicate SvpOf(s: seq<Iovec>, pos: nat, svp: Svp)
    requires pos < |s|
  {
    svp.pos <= pos && svp.iovLen <= s[svp.pos].len
      && svp.used == SumLen(s[..svp.pos]) + svp.iovLen
  }

  /** Rolling back to a savepoint of the buffer keeps the invariant. */
  lemma InvRollback(s: seq<Iovec>, caps: seq<nat>, pos: nat, used: nat, reserved: nat, live: set<int>, svp: Svp)
    requires Inv(s, caps, pos, used, reserved, live) && SvpOf(s, pos, svp)
    ensures var start := RollbackStart(svp, s[0].base);
      Inv(RolledSlots(s, start, pos, svp), ZeroCaps(caps, start, pos), svp.pos, svp.used, 0,
          live - Cleared(start, pos))
  {
    var start := RollbackStart(svp, s[0].base);
    var t := RolledSlots(s, start, pos, svp);
    RollbackSlots(s, caps, pos, used, reserved, live, svp);
    RollbackCaps(s, caps, pos, used, reserved, live, svp);
    RollbackLive(s, caps, pos, used, reserved, live, svp);
    assert t[..svp.pos + 1] == s[..svp.pos] + [t[svp.pos]];
    SumLenLast(s[..svp.pos], t[svp.pos]);
  }

  lemma RollbackSlots(s: seq<Iovec>, caps: seq<nat>, pos: nat, used: nat, reserved: nat, live: set<int>, svp: Svp)
    requires Inv(s, caps, pos, used, reserved, live) && SvpOf(s, pos, svp)
    ensures var start := RollbackStart(svp, s[0].base);
            var t := RolledSlots(s, start, pos, svp);
      && t[..svp.pos] == s[..svp.pos] && t[svp.pos].len == svp.iovLen && SlotsInv(t, svp.pos, 0)
  {
    var start := RollbackStart(svp, s[0].base);
    var z := ZeroSlots(s, start, pos);
    assert z[..svp.pos] == s[..svp.pos];
  }

  lemma RollbackCaps(s: seq<Iovec>, caps: seq<nat>, pos: nat, used: nat, reserved: nat, live: set<int>, svp: Svp)
    requires Inv(s, caps, pos, used, reserved, live) && SvpOf(s, pos, svp)
    ensures var start := RollbackStart(svp, s[0].base);
      CapsInv(RolledSlots(s, start, pos, svp), ZeroCaps(caps, start, pos), svp.pos, 0)
  {
  }

  lemma RollbackLive(s: seq<Iovec>, caps: seq<nat>, pos: nat, used: nat, reserved: nat, live: set<int>, svp: Svp)
    requires Inv(s, caps, pos, used, reserved, live) && SvpOf(s, pos, svp)
    ensures var start := RollbackStart(svp, s[0].base);
      LiveInv(RolledSlots(s, start, pos, svp), live - Cleared(start, pos))
  {
  }

  /** Rolling back to the savepoint just taken changes no slot, unless it empties slot 0. */
  lemma RollbackToCurrent(s: seq<Iovec>, pos: nat, svp: Svp)
    requires pos < |s| && svp == Svp(pos, s[pos].len, svp.used)
    requires RollbackStart(svp, s[0].base) != 0
    ensures RolledSlots(s, RollbackStart(svp, s[0].base), pos, svp) == s
  {
  }

  // ----- what `obuf_prepare_buf` does to the slots ----------------------------

  /** The slots, the capacities and the position after `obuf_prepare_buf`. */
  datatype Prepared = Prepared(slots: seq<Iovec>, caps: seq<nat>, pos: nat)

  /** The last geometric chunk, in slot `pos` of `s`, has room for `size` more bytes. */
  predicate FitsIn(s: seq<Iovec>, caps: seq<nat>, pos: nat, size: nat)
    requires pos < |s|
  {
    SMALL_OBUF_IOV_CHECKED_SIZE <= pos < SMALL_OBUF_IOV_CHECKED_SIZE + |caps|
      && s[pos].len + size <= caps[pos - SMALL_OBUF_IOV_CHECKED_SIZE]
  }

  /**
   * The state `obuf_prepare_buf` leaves for a request of `size` bytes, with
   * `block` the block `small_xmalloc` returns. Below the geometric part a
   * wrapper chunk is opened in the next free slot; in the geometric part
   * the last chunk is kept when the request fits, and otherwise the next
   * slot gets `block` with the doubled capacity.
   */
  function Prepare(s: seq<Iovec>, caps: seq<nat>, pos: nat, startCapacity: nat, size: nat, block: nat): (r: Prepared)
    requires |s| == SMALL_OBUF_IOV_MAX + 1 && |caps| == SMALL_OBUF_IOV_GEOMETRIC_SIZE - 1
    requires pos < SMALL_OBUF_IOV_MAX
    requires pos < SMALL_OBUF_IOV_CHECKED_SIZE - 1 || FitsIn(s, caps, pos, size)
      || (pos + 1 < SMALL_OBUF_IOV_MAX && (startCapacity > 0 || size == 0))
    ensures r.pos == pos || r.pos == pos + 1
    ensures |r.slots| == |s| && |r.caps| == |caps|
    ensures forall i :: 0 <= i < r.pos ==> r.slots[i] == s[i]
  {
    if pos < SMALL_OBUF_IOV_CHECKED_SIZE - 1 then
      var q := if s[pos].base != 0 then pos + 1 else pos;
      Prepared(s[q := Iovec(Wrapper.Payload(block, OBUF_HEADER_SIZE, size, SMALL_OBUF_ALIGNMENT), 0)], caps, q)
    else if FitsIn(s, caps, pos, size) then
      Prepared(s, caps, pos)
    else
      var g := pos + 1 - SMALL_OBUF_IOV_CHECKED_SIZE;
      Prepared(s[pos + 1 := Iovec(block, 0)], caps[g := Doubled(ShiftLeft(startCapacity, g), size)], pos + 1)
  }

  // ----- the buffer -----------------------------------------------------------

  class Obuf {
    /** The chunk vector, `SMALL_OBUF_IOV_MAX + 1` slots, NULL terminated. */
    const iov: array<Iovec>
    /** Capacities of the geometric chunks, by slot minus the checked bound. */
    const capacity: array<nat>
    /** Capacity of the first geometric chunk before doubling. */
    const startCapacity: nat
    /** The slot of the last allocation (0 with an empty slot 0 when the buffer is empty). */
    var pos: nat
    /** Total size of the allocations. */
    var used: nat
    /** Size of the outstanding reservation, 0 when there is none. */
    var reserved: nat
    /** Slots whose block is held by the buffer. */
    ghost var live: set<int>

    ghost predicate Valid()
      reads this, iov, capacity
    {
      Inv(iov[..], capacity[..], pos, used, reserved, live)
    }

    /** `obuf_create`: every slot and capacity zero, nothing used or reserved. */
    constructor (startCapacity: nat)
      ensures Valid() && fresh(iov) && fresh(capacity)
      ensures this.startCapacity == startCapacity
      ensures pos == 0 && used == 0 && reserved == 0 && live == {}
      ensures forall i :: 0 <= i < iov.Length ==> iov[i] == Iovec(0, 0)
      ensures forall g :: 0 <= g < capacity.Length ==> capacity[g] == 0
    {
      this.startCapacity := startCapacity;
      iov := new Iovec[SMALL_OBUF_IOV_MAX + 1](_ => Iovec(0, 0));
      capacity := new nat[SMALL_OBUF_IOV_GEOMETRIC_SIZE - 1](_ => 0);
      pos := 0;
      used := 0;
      reserved := 0;
      live := {};
      new;
      assert iov[..1] == [] + [Iovec(0, 0)];
      SumLenLast([], Iovec(0, 0));
    }

    /** `obuf_size`: the total length of the chunks. */
    function Size(): (r: nat)
      requires Valid()
      reads this, iov, capacity
      ensures r == SumLen(iov[..pos + 1])
    {
      used
    }

    /** `obuf_capacity`: in this build the same as the size. */
    function Capacity(): (r: nat)
      requires Valid()
      reads this, iov, capacity
      ensures r == Size()
    {
      used
    }

    /** `obuf_iovcnt`: the number of slots holding a chunk, which come first. */
    function IovCnt(): (n: nat)
      requires Valid()
      reads this, iov, capacity
      ensures n <= SMALL_OBUF_IOV_MAX
      ensures forall i :: 0 <= i < iov.Length ==> (iov[i].base != 0 <==> i < n)
    {
      assert forall i :: 0 <= i < iov.Length ==> iov[..][i] == iov[i];
      if iov[pos].base != 0 then pos + 1 else pos
    }

    /** `obuf_create_svp`: the current end of the buffer, a savepoint of it. */
    function CreateSvp(): (svp: Svp)
      requires Valid()
      reads this, iov, capacity
      ensures SvpOf(iov[..], pos, svp)
      ensures svp.pos == pos && svp.used == Size() && svp.iovLen == iov[pos].len
    {
      assert iov[..pos + 1] == iov[..pos] + [iov[pos]];
      SumLenLast(iov[..pos], iov[pos]);
      Svp(pos, iov[pos].len, used)
    }

    /** `obuf_svp_to_ptr`: the address `svp.iovLen` bytes into the savepoint's chunk. */
    function SvpToPtr(svp: Svp): (p: nat)
      requires Valid() && SvpOf(iov[..], pos, svp)
      reads this, iov, capacity
      ensures svp == CreateSvp() ==> p == iov[pos].base + iov[pos].len
    {
      iov[svp.pos].base + svp.iovLen
    }

    /** The last geometric chunk has room for `size` more bytes. */
    predicate Fits(size: nat)
      requires Valid()
      reads this, iov, capacity
    {
      pos >= SMALL_OBUF_IOV_CHECKED_SIZE
        && iov[pos].len + size <= capacity[pos - SMALL_OBUF_IOV_CHECKED_SIZE]
    }

    /**
     * `obuf_prepare_buf` will not fail: it opens a wrapper chunk, or the
     * last chunk fits the request, or a new geometric chunk is within the
     * vector (the source asserts that) and its doubling loop ends.
     */
    predicate CanPrepare(size: nat)
      requires Valid()
      reads this, iov, capacity
    {
      pos < SMALL_OBUF_IOV_CHECKED_SIZE - 1 || Fits(size)
        || (pos + 1 < SMALL_OBUF_IOV_MAX && (startCapacity > 0 || size == 0))
    }

    /**
     * `obuf_prepare_buf`: make the last chunk ready to take `size` bytes
     * and return the address where they go. Below the geometric part every
     * call opens a new wrapper chunk of length 0; in the geometric part the
     * last chunk is reused when it fits, and a new one is opened otherwise.
     */
    method PrepareBuf(size: nat, block: nat) returns (p: nat)
      requires Valid() && reserved == 0 && CanPrepare(size)
      requires block > 0
      modifies this, iov, capacity
      ensures Valid() && used == old(used) && reserved == 0
      ensures var r := Prepare(old(iov[..]), old(capacity[..]), old(pos), startCapacity, size, block);
        pos == r.pos && iov[..] == r.slots && capacity[..] == r.caps
      ensures live == old(live) + {pos}
      ensures pos == old(pos) || pos == old(pos) + 1
      ensures iov[..] == old(iov[..])[pos := iov[pos]]
      ensures iov[pos].len == (if pos == old(pos) then old(iov[pos].len) else 0)
      ensures iov[pos].base != 0
      ensures pos >= SMALL_OBUF_IOV_CHECKED_SIZE ==> Fits(size)
      ensures p == iov[pos].base + iov[pos].len
    {
      if pos >= SMALL_OBUF_IOV_CHECKED_SIZE - 1 {
        if !Fits(size) {
          OpenGeometric(size, block);
        }
        p := iov[pos].base + iov[pos].len;
        return;
      }
      var payload := Wrapper.Payload(block, OBUF_HEADER_SIZE, size, SMALL_OBUF_ALIGNMENT);
      OpenWrapper(payload);
      p := payload;
    }

    /** The geometric half of `obuf_prepare_buf`: open a chunk with a doubled capacity that fits `size`. */
    method OpenGeometric(size: nat, block: nat)
      requires Valid() && reserved == 0 && block > 0
      requires SMALL_OBUF_IOV_CHECKED_SIZE - 1 <= pos && pos + 1 < SMALL_OBUF_IOV_MAX
      requires startCapacity > 0 || size == 0
      modifies this`pos, this`live, iov, capacity
      ensures Valid()
      ensures pos == old(pos) + 1 && iov[..] == old(iov[..])[pos := Iovec(block, 0)]
      ensures capacity[..] == old(capacity[..])[pos - SMALL_OBUF_IOV_CHECKED_SIZE :=
             Doubled(ShiftLeft(startCapacity, pos - SMALL_OBUF_IOV_CHECKED_SIZE), size)]
      ensures live == old(live) + {pos} && Fits(size)
    {
      var g: nat := pos + 1 - SMALL_OBUF_IOV_CHECKED_SIZE;
      var c := GrowCapacity(startCapacity, g, size);
      InvOpenNext(iov[..], capacity[..], pos, used, live, block, c);
      pos := pos + 1;
      iov[pos] := Iovec(block, 0);
      capacity[g] := c;
      live := live + {pos};
    }

    /** The wrapper half of `obuf_prepare_buf`: open a chunk at `payload` in the next free slot. */
    method OpenWrapper(payload: nat)
      requires Valid() && reserved == 0 && payload > 0
      requires pos < SMALL_OBUF_IOV_CHECKED_SIZE - 1
      modifies this`pos, this`live, iov
      ensures Valid()
      ensures pos == (if old(iov[pos].base) != 0 then old(pos) + 1 else old(pos))
      ensures iov[..] == old(iov[..])[pos := Iovec(payload, 0)]
      ensures live == old(live) + {pos}
    {
      if iov[pos].base != 0 {
        InvOpenNext(iov[..], capacity[..], pos, used, live, payload, 0);
        pos := pos + 1;
      } else {
        InvOpenFirst(iov[..], capacity[..], used, live, payload);
      }
      iov[pos] := Iovec(payload, 0);
      live := live + {pos};
    }

    /**
     * `obuf_reserve`: open room for at least `size` bytes, and never less
     * than a page, without using any of it.
     */
    method Reserve(size: nat, pagesize: nat, block: nat) returns (p: nat)
      requires Valid() && reserved == 0 && CanPrepare(Max(size, pagesize))
      requires pagesize >= 1 && block > 0
      modifies this, iov, capacity
      ensures Valid()
      ensures reserved == Max(size, pagesize) && used == old(used)
      ensures var r := Prepare(old(iov[..]), old(capacity[..]), old(pos), startCapacity, Max(size, pagesize), block);
        pos == r.pos && iov[..] == r.slots && capacity[..] == r.caps
      ensures live == old(live) + {pos}
      ensures pos == old(pos) || pos == old(pos) + 1
      ensures forall i :: 0 <= i < pos ==> iov[i] == old(iov[i])
      ensures iov[pos].len == (if pos == old(pos) then old(iov[pos].len) else 0)
      ensures p == iov[pos].base + iov[pos].len
    {
      var n: nat := if size < pagesize then pagesize else size;
      p := PrepareBuf(n, block);
      reserved := n;
    }

    /**
     * Append `size` bytes to the last chunk, out of the reservation or
     * within the chunk's capacity, and drop the reservation.
     */
    method Commit(size: nat) returns (p: nat)
      requires Valid() && iov[pos].base != 0
      requires size <= reserved || (reserved == 0 && (pos >= SMALL_OBUF_IOV_CHECKED_SIZE ==> Fits(size)))
      modifies this`used, this`reserved, iov
      ensures Valid()
      ensures used == old(used) + size && reserved == 0
      ensures iov[..] == SetLen(old(iov[..]), pos, old(iov[pos].len) + size)
      ensures p + size == iov[pos].base + iov[pos].len
    {
      InvCommit(iov[..], capacity[..], pos, used, reserved, live, size);
      p := iov[pos].base + iov[pos].len;
      iov[pos] := iov[pos].(len := iov[pos].len + size);
      used := used + size;
      reserved := 0;
    }

    /**
     * `obuf_alloc_reserved`: take `size` bytes of the reservation at the
     * end of the last chunk and drop the rest of the reservation.
     */
    method AllocReserved(size: nat) returns (p: nat)
      requires Valid() && reserved != 0 && size <= reserved
      modifies this, iov
      ensures Valid()
      ensures used == old(used) + size && reserved == 0 && pos == old(pos) && live == old(live)
      ensures iov[..] == SetLen(old(iov[..]), pos, old(iov[pos].len) + size)
      ensures p + size == iov[pos].base + iov[pos].len
    {
      p := Commit(size);
    }

    /**
     * `obuf_alloc`: append `size` bytes to the last chunk, opening one
     * first unless a reservation is pending. The bytes are the last
     * `size` bytes of the last chunk.
     */
    method Alloc(size: nat, block: nat) returns (p: nat)
      requires Valid()
      requires reserved != 0 ==> size <= reserved
      requires reserved == 0 ==> CanPrepare(size) && block > 0
      modifies this, iov, capacity
      ensures Valid()
      ensures used == old(used) + size && reserved == 0
      ensures old(reserved) != 0 ==>
        && pos == old(pos) && live == old(live) && capacity[..] == old(capacity[..])
        && iov[..] == SetLen(old(iov[..]), pos, old(iov[pos].len) + size)
      ensures old(reserved) == 0 ==>
        var r := Prepare(old(iov[..]), old(capacity[..]), old(pos), startCapacity, size, block);
        && pos == r.pos && live == old(live) + {pos} && capacity[..] == r.caps
        && iov[..] == SetLen(r.slots, pos, r.slots[pos].len + size)
      ensures pos == old(pos) || pos == old(pos) + 1
      ensures forall i :: 0 <= i < pos ==> iov[i] == old(iov[i])
      ensures iov[pos].len == (if pos == old(pos) then old(iov[pos].len) else 0) + size
      ensures p + size == iov[pos].base + iov[pos].len
    {
      if reserved != 0 {
        p := AllocReserved(size);
        return;
      }
      var _ := PrepareBuf(size, block);
      p := Commit(size);
    }

    /** `obuf_dup`: allocate `size` bytes for a copy of the data and report the size. */
    method Dup(size: nat, block: nat) returns (n: nat)
      requires Valid()
      requires reserved != 0 ==> size <= reserved
      requires reserved == 0 ==> CanPrepare(size) && block > 0
      modifies this, iov, capacity
      ensures Valid()
      ensures n == size && used == old(used) + n && reserved == 0
      ensures old(reserved) != 0 ==>
        && pos == old(pos) && capacity[..] == old(capacity[..])
        && iov[..] == SetLen(old(iov[..]), pos, old(iov[pos].len) + size)
      ensures old(reserved) == 0 ==>
        var r := Prepare(old(iov[..]), old(capacity[..]), old(pos), startCapacity, size, block);
        && pos == r.pos && capacity[..] == r.caps
        && iov[..] == SetLen(r.slots, pos, r.slots[pos].len + size)
    {
      var _ := Alloc(size, block);
      n := size;
    }

    /**
     * `obuf_reserve_cb`: reserve and report the amount actually reserved,
     * which covers the request and a page.
     */
    method ReserveCb(size: nat, pagesize: nat, block: nat) returns (p: nat, actual: nat)
      requires Valid() && reserved == 0 && CanPrepare(Max(size, pagesize))
      requires pagesize >= 1 && block > 0
      modifies this, iov, capacity
      ensures Valid() && used == old(used)
      ensures actual == reserved && actual >= size && actual >= pagesize
      ensures actual == size || actual == pagesize
      ensures var r := Prepare(old(iov[..]), old(capacity[..]), old(pos), startCapacity, actual, block);
        pos == r.pos && iov[..] == r.slots && capacity[..] == r.caps
      ensures p == iov[pos].base + iov[pos].len
    {
      p := Reserve(size, pagesize, block);
      actual := reserved;
    }

    /** The wrapper loop of `obuf_rollback_to_svp`: release the chunks in slots `start` up to `end`. */
    method ReleaseWrappers(start: int, end: int)
      modifies this`live
      ensures live == old(live) - Range(start, end)
    {
      var i := start;
      while i < end
        invariant start <= i <= Max(start, end)
        invariant live == old(live) - Range(start, i)
      {
        live := live - {i};
        i := i + 1;
      }
      assert forall x :: x in Range(start, i) <==> x in Range(start, end);
    }

    /**
     * The geometric loop of `obuf_rollback_to_svp`: release the chunks in
     * slots `start` through `pos` and zero their capacities.
     */
    method ReleaseGeometric(start: int)
      requires start >= SMALL_OBUF_IOV_CHECKED_SIZE
      requires pos < SMALL_OBUF_IOV_CHECKED_SIZE + capacity.Length
      modifies this`live, capacity
      ensures live == old(live) - Range(start, pos + 1)
      ensures capacity[..] == ZeroCaps(old(capacity[..]), start, pos)
    {
      var i := start;
      while i <= pos
        invariant start <= i <= Max(start, pos + 1)
        invariant live == old(live) - Range(start, i)
        invariant forall g :: 0 <= g < capacity.Length ==>
          capacity[g] == (if start <= SMALL_OBUF_IOV_CHECKED_SIZE + g < i then 0 else old(capacity[g]))
      {
        live := live - {i};
        capacity[i - SMALL_OBUF_IOV_CHECKED_SIZE] := 0;
        i := i + 1;
      }
      assert forall x :: x in Range(start, i) <==> x in Range(start, pos + 1);
    }

    /** The `memset` of `obuf_rollback_to_svp`: empty slots `start` through `pos`. */
    method ClearSlots(start: int)
      requires start >= 0 && pos < iov.Length
      modifies iov
      ensures iov[..] == ZeroSlots(old(iov[..]), start, pos)
    {
      var i := start;
      while i <= pos
        invariant start <= i <= Max(start, pos + 1)
        invariant forall j :: 0 <= j < iov.Length ==>
          iov[j] == (if start <= j < i then Iovec(0, 0) else old(iov[j]))
      {
        iov[i] := Iovec(0, 0);
        i := i + 1;
      }
    }

    /** Release the chunks in slots `start` through `pos` and empty those slots. */
    method ClearFrom(start: nat)
      requires capacity.Length == SMALL_OBUF_IOV_GEOMETRIC_SIZE - 1
      requires pos < SMALL_OBUF_IOV_MAX < iov.Length
      modifies this`live, iov, capacity
      ensures live == old(live) - Cleared(start, pos)
      ensures capacity[..] == ZeroCaps(old(capacity[..]), start, pos)
      ensures iov[..] == ZeroSlots(old(iov[..]), start, pos)
    {
      ReleaseWrappers(start, Min(pos + 1, SMALL_OBUF_IOV_CHECKED_SIZE));
      ReleaseGeometric(Max(start, SMALL_OBUF_IOV_CHECKED_SIZE));
      ReleasedIsCleared(start, pos);
      ClearSlots(start);
    }

    /**
     * `obuf_rollback_to_svp`: forget everything after the savepoint. The
     * cleared slots are zeroed and their blocks released; the savepoint's
     * chunk is cut back to its length at the savepoint.
     */
    method Rollback(svp: Svp)
      requires Valid() && SvpOf(iov[..], pos, svp)
      modifies this, iov, capacity
      ensures Valid()
      ensures pos == svp.pos && used == svp.used && reserved == 0
      ensures var start := RollbackStart(svp, old(iov[0].base));
        && iov[..] == RolledSlots(old(iov[..]), start, old(pos), svp)
        && capacity[..] == ZeroCaps(old(capacity[..]), start, old(pos))
        && live == old(live) - Cleared(start, old(pos))
    {
      var start: nat := RollbackStart(svp, iov[0].base);
      InvRollback(iov[..], capacity[..], pos, used, reserved, live, svp);
      ClearFrom(start);
      pos := svp.pos;
      used := svp.used;
      iov[pos] := iov[pos].(len := svp.iovLen);
      reserved := 0;
    }

    /** `obuf_reset`: roll back to the empty savepoint, which leaves no chunk at all. */
    method Reset()
      requires Valid()
      modifies this, iov, capacity
      ensures Valid()
      ensures pos == 0 && used == 0 && reserved == 0 && IovCnt() == 0 && live == {}
      ensures forall i :: 0 <= i < iov.Length ==> iov[i] == Iovec(0, 0)
    {
      assert iov[..0] == [];
      Rollback(EMPTY_SVP);
    }

    /**
     * `obuf_destroy`: roll back to the empty savepoint, which releases
     * every chunk; freeing the vector itself is not modelled.
     */
    method Destroy()
      requires Valid()
      modifies this, iov, capacity
      ensures live == {} && used == 0
    {
      assert iov[..0] == [];
      Rollback(EMPTY_SVP);
    }
  }
}
