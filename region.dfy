/**
 * The ASAN region of small/region_asan.c. Every allocation is its own
 * wrapper block; the region keeps their records newest first, the total
 * `used` and the size of at most one outstanding reservation.
 *
 * A record's `data` stands for the bytes of its payload; what `malloc`
 * leaves in a new payload is a parameter. The payload address a new
 * wrapper receives (see `Wrapper.Layout`) is a parameter too.
 */
module Region {
  import opened SmallUtil
  import opened Memory

  /** `struct region_allocation` together with its payload. */
  datatype Allocation = Allocation(size: nat, used: nat, alignment: nat, ptr: nat, data: seq<byte>)

  /** A record uses at most its size and carries `size` bytes of payload. */
  type Record = a: Allocation | a.used <= a.size == |a.data| witness Allocation(0, 0, 1, 0, [])

  /** The sum of `used` over the records. */
  function SumUsed(recs: seq<Record>): nat
  {
    if recs == [] then 0 else recs[0].used + SumUsed(recs[1..])
  }

  /**
   * The bytes handed out by the region in allocation order: the used part
   * of every payload, oldest record first (the list is newest first).
   */
  function Stream(recs: seq<Record>): (s: seq<byte>)
        ensures |s| == SumUsed(recs)
  {
    if recs == [] then [] else Stream(recs[1..]) + recs[0].data[..recs[0].used]
  }

  /** The newest `n` bytes of `s`. */
  function Tail(s: seq<byte>, n: nat): seq<byte>
    requires n <= |s|
  {
    s[|s| - n..]
  }

  /** The newest `k` records contribute the end of the stream, the others its beginning. */
  lemma {:induction false} StreamSplit(recs: seq<Record>, k: nat)
    requires k <= |recs|
    ensures SumUsed(recs) == SumUsed(recs[k..]) + SumUsed(recs[..k])
    ensures Stream(recs) == Stream(recs[k..]) + Stream(recs[..k])
  {
    if k > 0 {
      StreamSplit(recs[1..], k - 1);
      assert recs[1..][k - 1..] == recs[k..];
      assert recs[..k][1..] == recs[1..][..k - 1];
    } else {
      assert recs[k..] == recs;
    }
  }

  // ----- region_truncate ------------------------------------------------------

  /**
   * The number of newest records `region_truncate` frees to cut `cut`
   * bytes, or `None` when a record would be cut in the middle and the
   * source's assertion fails. Once nothing remains to cut, records that
   * use nothing are freed as well.
   */
  function CutCount(recs: seq<Record>, cut: nat): (r: Option<nat>)
    ensures r.Some? ==> r.value <= |recs|
  {
    if recs == [] || (cut == 0 && recs[0].used != 0) then Some(0)
    else if recs[0].used > cut then None
    else match CutCount(recs[1..], cut - recs[0].used)
      case None => None
      case Some(k) => Some(k + 1)
  }

  /** `o` with `k` more records counted. */
  function Shift(o: Option<nat>, k: nat): Option<nat>
  {
    match o
    case None => None
    case Some(j) => Some(j + k)
  }

  /** One step of the `region_truncate` loop at record `k`. */
  lemma CutCountStep(recs: seq<Record>, k: nat, cut: nat)
    requires k < |recs|
    ensures CutCount(recs[k..], cut) ==
              if cut == 0 && recs[k].used != 0 then Some(0)
              else if recs[k].used > cut then None
              else Shift(CutCount(recs[k + 1..], cut - recs[k].used), 1)
  {
    assert recs[k..][1..] == recs[k + 1..];
  }

  /** The number of newest records that use nothing. */
  function ZeroPrefix(recs: seq<Record>): (k: nat)
    ensures k <= |recs|
    ensures forall i :: 0 <= i < k ==> recs[i].used == 0
    ensures k == |recs| || recs[k].used != 0
  {
    if recs == [] || recs[0].used != 0 then 0 else 1 + ZeroPrefix(recs[1..])
  }

  /**
   * Truncation succeeds exactly when the cut falls on a record boundary;
   * it then frees the newest records holding exactly `cut` bytes and the
   * records using nothing just below them.
   */
  lemma {:induction false} CutCountBoundary(recs: seq<Record>, cut: nat)
    requires cut <= SumUsed(recs)
    ensures CutCount(recs, cut).Some? <==> exists k :: 0 <= k <= |recs| && SumUsed(recs[..k]) == cut
    ensures CutCount(recs, cut).Some? ==>
              var k := CutCount(recs, cut).value;
              && k <= |recs| && SumUsed(recs[..k]) == cut
              && (k == |recs| || recs[k].used != 0)
  {
    if recs == [] {
      assert recs[..0] == [];
    } else if cut == 0 && recs[0].used != 0 {
      assert recs[..0] == [];
    } else if recs[0].used > cut {
      NoBoundaryInFirst(recs, cut);
    } else {
      var rest := recs[1..];
      CutCountBoundary(rest, cut - recs[0].used);
      PrefixesAfterFirst(recs);
      if CutCount(rest, cut - recs[0].used).Some? {
        var j :| 0 <= j <= |rest| && SumUsed(rest[..j]) == cut - recs[0].used;
        assert SumUsed(recs[..j + 1]) == cut;
      } else {
        if cut == 0 {
          TruncateNothing(rest);
        }
        assert recs[..0] == [];
      }
    }
  }

  /** No prefix of the records sums to a cut that falls inside the newest record. */
  lemma NoBoundaryInFirst(recs: seq<Record>, cut: nat)
    requires |recs| > 0 && recs[0].used > cut > 0
    ensures forall k :: 0 <= k <= |recs| ==> SumUsed(recs[..k]) != cut
  {
    forall k | 0 <= k <= |recs|
      ensures SumUsed(recs[..k]) != cut
    {
      if k > 0 {
        assert recs[..k][0] == recs[0];
        assert SumUsed(recs[..k]) >= recs[0].used;
      } else {
        assert recs[..k] == [];
      }
    }
  }

  /** A non-empty prefix sums to the newest record's `used` plus a prefix of the rest. */
  lemma PrefixesAfterFirst(recs: seq<Record>)
    requires |recs| > 0
    ensures forall k :: 1 <= k <= |recs| ==> SumUsed(recs[..k]) == recs[0].used + SumUsed(recs[1..][..k - 1])
  {
    forall k | 1 <= k <= |recs|
      ensures SumUsed(recs[..k]) == recs[0].used + SumUsed(recs[1..][..k - 1])
    {
      assert recs[..k][1..] == recs[1..][..k - 1];
    }
  }

  /** `region_truncate(0)` frees every record. */
  lemma {:induction false} TruncateAll(recs: seq<Record>)
    ensures CutCount(recs, SumUsed(recs)) == Some(|recs|)
  {
    if recs != [] {
      TruncateAll(recs[1..]);
    }
  }

  /** Truncating to the current `used` frees only the newest records that use nothing. */
  lemma {:induction false} TruncateNothing(recs: seq<Record>)
    ensures CutCount(recs, 0) == Some(ZeroPrefix(recs))
  {
    if recs != [] && recs[0].used == 0 {
      TruncateNothing(recs[1..]);
    }
  }

  /** Truncation keeps the oldest bytes of the stream: a prefix of what was allocated. */
  lemma TruncateKeepsPrefix(recs: seq<Record>, cut: nat)
    requires cut <= SumUsed(recs)
    requires CutCount(recs, cut).Some?
    ensures var k := CutCount(recs, cut).value;
            k <= |recs| && Stream(recs[k..]) == Stream(recs)[..SumUsed(recs) - cut]
  {
    CutCountBoundary(recs, cut);
    StreamSplit(recs, CutCount(recs, cut).value);
  }

  /** What truncation leaves: the older records, holding all but the `cut` newest bytes. */
  lemma TruncateUsed(recs: seq<Record>, cut: nat)
    requires cut <= SumUsed(recs) && CutCount(recs, cut).Some?
    ensures var k := CutCount(recs, cut).value;
            k <= |recs| && SumUsed(recs[k..]) + cut == SumUsed(recs)
  {
    CutCountBoundary(recs, cut);
    StreamSplit(recs, CutCount(recs, cut).value);
  }

  // ----- region_join ----------------------------------------------------------

  /**
   * The bytes the copy loop of `region_join` as written leaves in the first
   * `offset` bytes of the new block: of the record that straddles the
   * boundary it copies the first bytes of the used part.
   */
  function JoinAsWritten(recs: seq<Record>, offset: nat): seq<byte>
    requires offset <= SumUsed(recs)
  {
    if offset == 0 then []
    else
      var c := if recs[0].used < offset then recs[0].used else offset;
      JoinAsWritten(recs[1..], offset - c) + recs[0].data[..c]
  }

  /**
   * When the oldest joined record is taken in part and the start of its
   * used bytes differs from their end, the block `region_join` as written
   * builds is not the newest `size` bytes.
   */
  lemma JoinAsWrittenDiffers(recs: seq<Record>, size: nat)
    requires |recs| >= 2
    requires recs[0].used < size < recs[0].used + recs[1].used
    requires var c := size - recs[0].used;
             recs[1].data[..c] != recs[1].data[recs[1].used - c..recs[1].used]
    ensures size <= SumUsed(recs)
    ensures JoinAsWritten(recs, size) != Tail(Stream(recs), size)
  {
    JoinAsWrittenHead(recs, size);
    JoinHead(recs, size);
  }

  /** As written, the block starts with the first `size - recs[0].used` used bytes of record 1. */
  lemma JoinAsWrittenHead(recs: seq<Record>, size: nat)
    requires |recs| >= 2
    requires recs[0].used < size < recs[0].used + recs[1].used
    ensures size <= SumUsed(recs)
    ensures var c := size - recs[0].used;
            JoinAsWritten(recs, size) == recs[1].data[..c] + recs[0].data[..recs[0].used]
  {
    var c := size - recs[0].used;
    assert recs[1..][1..] == recs[2..];
    assert recs[1..][0] == recs[1];
    assert JoinAsWritten(recs[1..], c) == JoinAsWritten(recs[2..], 0) + recs[1].data[..c];
  }

  /** The newest `size` bytes start with the last `size - recs[0].used` used bytes of record 1. */
  lemma JoinHead(recs: seq<Record>, size: nat)
    requires |recs| >= 2
    requires recs[0].used < size < recs[0].used + recs[1].used
    ensures size <= SumUsed(recs)
    ensures var c := size - recs[0].used;
            Tail(Stream(recs), size)[..c] == recs[1].data[recs[1].used - c..recs[1].used]
  {
    var c := size - recs[0].used;
    FirstTwoUsed(recs);
    JoinStep(recs, size, 1, c);
    assert Chunk(recs[1], c) == c;
  }

  /** The bytes of the oldest record open the stream; the two oldest together fit in it. */
  lemma FirstTwoUsed(recs: seq<Record>)
    requires |recs| >= 2
    ensures SumUsed(recs[..1]) == recs[0].used
    ensures SumUsed(recs) >= recs[0].used + recs[1].used
  {
    assert recs[1..][0] == recs[1];
    assert recs[..1] == [recs[0]];
    assert recs[..1][1..] == [];
  }

  /** The records oldest "1 2 3 4", newest "5 6": `region_join(3)` as written yields "1 5 6", not "4 5 6". */
  lemma JoinAsWrittenExample()
    ensures var recs := [Allocation(2, 2, 1, 0, [5, 6]), Allocation(4, 4, 1, 0, [1, 2, 3, 4])];
            && Tail(Stream(recs), 3) == [4, 5, 6]
            && JoinAsWritten(recs, 3) == [1, 5, 6]
  {
    var recs := [Allocation(2, 2, 1, 0, [5, 6]), Allocation(4, 4, 1, 0, [1, 2, 3, 4])];
    assert recs[1..][1..] == [];
    assert Stream(recs) == [1, 2, 3, 4, 5, 6];
  }

  /** The used bytes of the newest `k + 1` records add record `k` to those of the newest `k`. */
  lemma SumUsedExtend(recs: seq<Record>, k: nat)
    requires k < |recs|
    ensures SumUsed(recs[..k + 1]) == SumUsed(recs[..k]) + recs[k].used
  {
    StreamSplit(recs[..k + 1], k);
    assert recs[..k + 1][k..] == [recs[k]];
    assert recs[..k + 1][..k] == recs[..k];
  }

  /**
   * In a stream `x + d[..used] + newer`, the `c` bytes of the newest-`size`
   * window that end where `newer` begins are the last `c` used bytes of `d`.
   */
  lemma Window(s: seq<byte>, x: seq<byte>, d: seq<byte>, used: nat, newer: seq<byte>,
               size: nat, offset: nat, c: nat)
    requires used <= |d| && s == x + d[..used] + newer && |newer| == size - offset
    requires offset <= size <= |s| && c <= offset && c <= used
    ensures Tail(s, size)[offset - c..offset] == d[used - c..used]
  {
    var e := |x| + used;
    assert Tail(s, size)[offset - c..offset] == s[e - c..e];
    assert s[e - c..e] == d[..used][used - c..];
  }

  /** The stream around record `k`: the older records, record `k`'s used bytes, the newer records. */
  lemma StreamAround(recs: seq<Record>, k: nat)
    requires k < |recs|
    ensures Stream(recs) == Stream(recs[k + 1..]) + recs[k].data[..recs[k].used] + Stream(recs[..k])
    ensures SumUsed(recs) == SumUsed(recs[k + 1..]) + recs[k].used + SumUsed(recs[..k])
  {
    StreamSplit(recs, k);
    assert recs[k..][1..] == recs[k + 1..];
  }

  /** While bytes remain to copy, `region_join` has records left to copy them from. */
  lemma JoinNotExhausted(recs: seq<Record>, size: nat, k: nat, offset: nat)
    requires size <= SumUsed(recs) && k <= |recs|
    requires 0 < offset <= size && SumUsed(recs[..k]) == size - offset
    ensures k < |recs|
  {
    assert recs[..|recs|] == recs;
  }

  /** How many bytes `region_join` copies from a record with `offset` bytes still to fill. */
  function Chunk(r: Record, offset: nat): (c: nat)
    ensures c <= r.used && c <= offset && (c == r.used || c == offset)
  {
    if r.used < offset then r.used else offset
  }

  /** What `region_join` copies from record `k` into the new block, in place of `JoinAsWritten`. */
  lemma JoinStep(recs: seq<Record>, size: nat, k: nat, offset: nat)
    requires size <= SumUsed(recs) && k < |recs|
    requires 0 < offset <= size && SumUsed(recs[..k]) == size - offset
    ensures Tail(Stream(recs), size)[offset - Chunk(recs[k], offset)..offset]
            == recs[k].data[recs[k].used - Chunk(recs[k], offset)..recs[k].used]
  {
    var r := recs[k];
    StreamAround(recs, k);
    Window(Stream(recs), Stream(recs[k + 1..]), r.data, r.used, Stream(recs[..k]), size, offset, Chunk(r, offset));
  }

  /**
   * The loop of `region_truncate`: walk the records newest first, taking
   * away each one's `used` from the bytes left to cut.
   */
  method FindCut(recs: seq<Record>, cut0: nat) returns (r: Option<nat>)
    ensures r == CutCount(recs, cut0)
  {
    var cut: nat := cut0;
    var k: nat := 0;
    while k < |recs|
      invariant k <= |recs|
      invariant CutCount(recs, cut0) == Shift(CutCount(recs[k..], cut), k)
    {
      CutCountStep(recs, k, cut);
      if cut == 0 && recs[k].used != 0 {
        break;
      }
      if recs[k].used > cut {
        return None;
      }
      cut := cut - recs[k].used;
      k := k + 1;
    }
    assert recs[k..] == [] || (cut == 0 && recs[k].used != 0);
    return Some(k);
  }

  /** The copy loop of `region_join`: the newest `size` bytes, oldest first, in a new block. */
  method JoinBytes(recs: seq<Record>, size: nat) returns (bytes: seq<byte>)
    requires size <= SumUsed(recs)
    ensures bytes == Tail(Stream(recs), size)
  {
    var buf := new byte[size];
    ghost var joined := Tail(Stream(recs), size);
    var offset: nat := size;
    var k: nat := 0;
    while offset > 0
      invariant buf.Length == size
      invariant offset <= size && k <= |recs|
      invariant offset > 0 ==> SumUsed(recs[..k]) == size - offset
      invariant buf[offset..] == joined[offset..]
      decreases |recs| - k
    {
      JoinNotExhausted(recs, size, k, offset);
      JoinStep(recs, size, k, offset);
      SumUsedExtend(recs, k);
      var r := recs[k];
      var c := Chunk(r, offset);
      StoreExtendsSuffix(buf[..], offset - c, r.data[r.used - c..r.used], joined);
      Copy(buf, offset - c, r.data[r.used - c..r.used]);
      offset := offset - c;
      k := k + 1;
    }
    assert buf[..] == buf[0..];
    bytes := buf[..];
  }

  class Region {
    /** The allocation records, newest first. */
    var records: seq<Record>
    /** The bytes allocated from the region. */
    var used: nat
    /** The size of the outstanding reservation, or 0. */
    var reserved: nat

    /**
     * `used` is the sum of the records' `used`; an outstanding reservation
     * is the newest record, still unused.
     */
    predicate Valid()
      reads this
    {
      && used == SumUsed(records)
      && (reserved != 0 ==> |records| > 0 && records[0].used == 0 && records[0].size == reserved)
    }

    /** `region_create`: an empty region. */
    constructor ()
      ensures Valid()
      ensures records == [] && used == 0 && reserved == 0
    {
      records := [];
      used := 0;
      reserved := 0;
    }

    /**
     * `region_aligned_reserve`: open a block of at least a page that stays
     * reserved, unused, until the next allocation.
     */
    method Reserve(size: nat, alignment: nat, pagesize: nat, ptr: nat, contents: seq<byte>)
      returns (p: nat)
      requires Valid() && reserved == 0 && pagesize >= 1
      requires |contents| == if size < pagesize then pagesize else size
      modifies this
      ensures Valid()
      ensures reserved == |contents| >= size && reserved >= pagesize
      ensures records == [Allocation(reserved, 0, alignment, ptr, contents)] + old(records)
      ensures used == old(used) && p == ptr
    {
      var actual := if size < pagesize then pagesize else size;
      records := [Allocation(actual, 0, alignment, ptr, contents)] + records;
      assert records[1..] == old(records);
      reserved := actual;
      p := ptr;
    }

    /**
     * `region_aligned_alloc`: with a reservation outstanding, commit `size`
     * of it and return its payload; otherwise open a fully used block.
     */
    method Alloc(size: nat, alignment: nat, ptr: nat, contents: seq<byte>) returns (p: nat)
      requires Valid()
      requires reserved != 0 ==> size <= reserved && alignment == records[0].alignment
      requires reserved == 0 ==> |contents| == size
      modifies this
      ensures Valid()
      ensures used == old(used) + size && reserved == 0
      ensures old(reserved) != 0 ==>
                && records == [old(records[0]).(used := size)] + old(records[1..])
                && p == old(records[0].ptr)
      ensures old(reserved) == 0 ==>
                records == [Allocation(size, size, alignment, ptr, contents)] + old(records) && p == ptr
    {
      if reserved != 0 {
        var r := records[0];
        records := [r.(used := r.used + size)] + records[1..];
        assert records[1..] == old(records[1..]);
        used := used + size;
        reserved := 0;
        p := r.ptr;
      } else {
        records := [Allocation(size, size, alignment, ptr, contents)] + records;
        assert records[1..] == old(records);
        used := used + size;
        p := ptr;
      }
    }

    /**
     * `region_truncate(u)`: free the newest records until `used` is `u`.
     * `ok` is false when that would cut a record in the middle (the source
     * fails its assertion); the region is then left as it was.
     */
    method Truncate(u: nat) returns (ok: bool)
      requires Valid() && u <= used
      modifies this
      ensures Valid()
      ensures ok == CutCount(old(records), old(used) - u).Some?
      ensures ok ==> && records == old(records)[CutCount(old(records), old(used) - u).value..]
                     && used == u && reserved == 0
      ensures !ok ==> records == old(records) && used == old(used) && reserved == old(reserved)
    {
      var cut := FindCut(records, used - u);
      if cut.None? {
        return false;
      }
      var k := cut.value;
      TruncateUsed(records, used - u);
      records := records[k..];
      used := u;
      reserved := 0;
      ok := true;
    }

    /**
     * `region_join(size)`: a new fully used block holding the newest
     * `size` bytes of the region in their original order.
     */
    method Join(size: nat, ptr: nat) returns (p: nat)
      requires Valid() && reserved == 0 && size <= used
      modifies this
      ensures Valid()
      ensures records == [Allocation(size, size, 1, ptr, Tail(Stream(old(records)), size))] + old(records)
      ensures used == old(used) + size && reserved == 0 && p == ptr
    {
      var bytes := JoinBytes(records, size);
      records := [Allocation(size, size, 1, ptr, bytes)] + records;
      assert records[1..] == old(records);
      used := used + size;
      p := ptr;
    }
  }
}
