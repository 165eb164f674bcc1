/**
 * The small wrapper of include/small/util.h: every ASAN-build allocation
 * is one `malloc` block laid out as
 *
 *     unused | header | alignment padding | payload | unused
 *
 * The header begins with a `small_header` whose only field,
 * `alloc_offset`, is the distance from the block start to the header. The
 * bytes from the last 8-aligned address up to the payload cannot be
 * poisoned precisely, so they hold a prefix of `small_magic` that is
 * checked when the block is freed.
 *
 * Addresses are naturals. A block is an `array<byte>` together with the
 * address `ptr` of its first element; what `small_xmalloc` returns is a
 * parameter (an 8-aligned address, as `malloc` guarantees).
 */
module Wrapper {
  import opened SmallUtil
  import opened Memory

  /** `SMALL_HEADER_ALIGNMENT`: `sizeof(long long)`. */
  const SMALL_HEADER_ALIGNMENT: nat := 8
  /** `SMALL_POISON_ALIGNMENT`: ASAN poisons precisely up to 8-aligned ends. */
  const SMALL_POISON_ALIGNMENT: nat := 8
  /** `sizeof(struct small_header)`: one `size_t`. */
  const SMALL_HEADER_SIZE: nat := 8

  /** `struct small_wrapper`: the block, its header and its payload. */
  datatype SmallWrapper = SmallWrapper(ptr: nat, header: nat, payload: nat)

  /** `small_wrapper_size`: `2 * A - 1` bytes of padding place the payload on `A` but off `2 * A`. */
  function WrapperSize(headerSize: nat, payloadSize: nat, alignment: nat): nat
    requires IsPow2(alignment)
  {
    headerSize + 2 * alignment - 1 + payloadSize
  }

  /** Stepping back by `a` from an even multiple of `a` gives an odd one. */
  lemma OddMultiple(p: nat, a: nat)
    requires a >= 1 && p % a == 0 && p >= a
    ensures var q := if p % (2 * a) == 0 then p - a else p;
            q % a == 0 && q % (2 * a) != 0
  {
    var k := p / a;
    assert p == k * a;
    MulModDouble(a, k);
    if k % 2 == 0 {
      assert p - a == (k - 1) * a;
      MultipleMod(k - 1, a);
      MulModDouble(a, k - 1);
    }
  }

  /**
   * `small_wrapper_payload`: the payload is aligned on `alignment`, not on
   * twice it, leaves room for the header after `ptr` and ends inside the
   * block (so the `payload >= ptr` assertion of the source always holds).
   */
  function Payload(ptr: nat, headerSize: nat, payloadSize: nat, alignment: nat): (payload: nat)
    requires IsPow2(alignment)
    ensures payload % alignment == 0 && payload % (2 * alignment) != 0
    ensures ptr + headerSize <= payload
    ensures payload + payloadSize <= ptr + WrapperSize(headerSize, payloadSize, alignment)
  {
    var p := AlignDown(ptr + WrapperSize(headerSize, payloadSize, alignment) - payloadSize, alignment);
    OddMultiple(p, alignment);
    if p % (2 * alignment) == 0 then p - alignment else p
  }

  /**
   * `small_wrapper_header`: the 8-aligned header sits as close below the
   * payload as `header_size` allows.
   */
  function Header(payload: nat, headerSize: nat): (header: nat)
    requires headerSize <= payload
    ensures header % SMALL_HEADER_ALIGNMENT == 0
    ensures header + headerSize <= payload < header + headerSize + SMALL_HEADER_ALIGNMENT
  {
    AlignDown(payload - headerSize, SMALL_HEADER_ALIGNMENT)
  }

  /** The first byte of the area that holds the magic: `payload` rounded down to 8. */
  function MagicBegin(payload: nat): (begin: nat)
    ensures begin % SMALL_POISON_ALIGNMENT == 0
    ensures begin <= payload < begin + SMALL_POISON_ALIGNMENT
  {
    AlignDown(payload, SMALL_POISON_ALIGNMENT)
  }

  /**
   * The pointers `small_wrapper_alloc` computes for a block at `ptr`. The
   * header never precedes the block, which is what the source asserts.
   */
  function Layout(ptr: nat, payloadSize: nat, alignment: nat, headerSize: nat): (w: SmallWrapper)
    requires IsPow2(alignment) && ptr % SMALL_HEADER_ALIGNMENT == 0
    ensures w.ptr == ptr <= w.header
    ensures w.header % SMALL_HEADER_ALIGNMENT == 0 && w.header + headerSize <= w.payload
    ensures w.payload % alignment == 0 && w.payload % (2 * alignment) != 0
    ensures w.payload + payloadSize <= ptr + WrapperSize(headerSize, payloadSize, alignment)
  {
    var payload := Payload(ptr, headerSize, payloadSize, alignment);
    AlignDownIsGreatest(payload - headerSize, SMALL_HEADER_ALIGNMENT, ptr);
    SmallWrapper(ptr, Header(payload, headerSize), payload)
  }

  /** A wrapper whose pointers are consistent with a block of `blockSize` bytes. */
  predicate WellFormed(w: SmallWrapper, headerSize: nat, blockSize: nat)
  {
    && SMALL_HEADER_SIZE <= headerSize <= w.payload
    && w.header == Header(w.payload, headerSize)
    && w.ptr <= w.header
    && w.payload <= w.ptr + blockSize
    && blockSize <= SIZE_MAX
  }

  /**
   * `alloc_offset` and the magic do not overlap and both lie inside the
   * block, because the header is at least one 8-aligned word long.
   */
  lemma StoresDisjoint(w: SmallWrapper, headerSize: nat, blockSize: nat)
    requires WellFormed(w, headerSize, blockSize)
    ensures w.ptr <= w.header && w.header + SMALL_HEADER_SIZE <= MagicBegin(w.payload)
    ensures w.payload - w.ptr <= blockSize
    ensures w.header - w.ptr < ByteRange(8)
  {
    AlignDownIsGreatest(w.payload, SMALL_POISON_ALIGNMENT, w.header + SMALL_HEADER_SIZE);
    assert ByteRange(8) == SIZE_MAX + 1;
  }

  /** The block after `alloc_offset` is written into the header. */
  function OffsetImage(mem: seq<byte>, w: SmallWrapper, headerSize: nat): seq<byte>
    requires WellFormed(w, headerSize, |mem|)
  {
    StoresDisjoint(w, headerSize, |mem|);
    Store(mem, w.header - w.ptr, LittleEndian(w.header - w.ptr, SMALL_HEADER_SIZE))
  }

  /** The block after the magic prefix is written below the payload. */
  function MagicImage(mem: seq<byte>, w: SmallWrapper, headerSize: nat): seq<byte>
    requires WellFormed(w, headerSize, |mem|)
  {
    StoresDisjoint(w, headerSize, |mem|);
    var begin := MagicBegin(w.payload);
    Store(mem, begin - w.ptr, MAGIC[..w.payload - begin])
  }

  /**
   * `small_wrapper_alloc` on the block `small_xmalloc` returned at `ptr`:
   * the wrapper is laid out as `Layout` says and `alloc_offset` is stored.
   */
  method Alloc(block: array<byte>, ptr: nat, payloadSize: nat, alignment: nat, headerSize: nat)
    returns (w: SmallWrapper)
    requires IsPow2(alignment) && ptr % SMALL_HEADER_ALIGNMENT == 0
    requires headerSize >= SMALL_HEADER_SIZE
    requires block.Length == WrapperSize(headerSize, payloadSize, alignment) <= SIZE_MAX
    modifies block
    ensures w == Layout(ptr, payloadSize, alignment, headerSize)
    ensures WellFormed(w, headerSize, block.Length)
    ensures block[..] == OffsetImage(old(block[..]), w, headerSize)
  {
    var payload := Payload(ptr, headerSize, payloadSize, alignment);
    var header := Header(payload, headerSize);
    w := SmallWrapper(ptr, header, payload);
    assert w == Layout(ptr, payloadSize, alignment, headerSize);
    StoresDisjoint(w, headerSize, block.Length);
    Copy(block, header - ptr, LittleEndian(header - ptr, SMALL_HEADER_SIZE));
  }

  /** `small_wrapper_poison`: write the magic prefix into `[MagicBegin(payload), payload)`. */
  method Poison(block: array<byte>, w: SmallWrapper, headerSize: nat)
    requires WellFormed(w, headerSize, block.Length)
    modifies block
    ensures block[..] == MagicImage(old(block[..]), w, headerSize)
  {
    StoresDisjoint(w, headerSize, block.Length);
    var begin := MagicBegin(w.payload);
    Copy(block, begin - w.ptr, MAGIC[..w.payload - begin]);
  }

  /** The "wrapper magic check": the bytes below the payload still hold the magic prefix. */
  predicate MagicIntact(mem: seq<byte>, base: nat, payload: nat)
    requires base <= MagicBegin(payload) && payload <= base + |mem|
  {
    mem[MagicBegin(payload) - base..payload - base] == MAGIC[..payload - MagicBegin(payload)]
  }

  /**
   * `small_wrapper_unpoison` (and so `small_wrapper_free`) compares the
   * magic area with `small_magic`; `ok` is false exactly when the source
   * fails its assertion.
   */
  method Unpoison(block: array<byte>, base: nat, payload: nat) returns (ok: bool)
    requires base <= MagicBegin(payload) && payload <= base + block.Length
    ensures ok == MagicIntact(block[..], base, payload)
  {
    var begin := MagicBegin(payload);
    ok := Equal(block, begin - base, MAGIC[..payload - begin]);
    assert block[begin - base..payload - base] == block[..][begin - base..payload - base];
  }

  /** The `alloc_offset` stored at `at`. */
  function ReadOffset(mem: seq<byte>, at: nat): nat
    requires at + SMALL_HEADER_SIZE <= |mem|
  {
    FromLittleEndian(mem[at..at + SMALL_HEADER_SIZE])
  }

  /** `small_wrapper_from_header`: the block start comes from `alloc_offset`. */
  function FromHeader(mem: seq<byte>, base: nat, header: nat,
                      payloadSize: nat, alignment: nat, headerSize: nat): SmallWrapper
    requires IsPow2(alignment)
    requires base <= header && header - base + SMALL_HEADER_SIZE <= |mem|
    requires ReadOffset(mem, header - base) <= header
  {
    var ptr := header - ReadOffset(mem, header - base);
    SmallWrapper(ptr, header, Payload(ptr, headerSize, payloadSize, alignment))
  }

  /**
   * `small_wrapper_from_payload`: `None` when the magic check fails,
   * otherwise the wrapper recovered from the header below the payload.
   */
  function FromPayload(mem: seq<byte>, base: nat, payload: nat, headerSize: nat): Option<SmallWrapper>
    requires headerSize <= payload
    requires base <= Header(payload, headerSize)
    requires Header(payload, headerSize) - base + SMALL_HEADER_SIZE <= |mem|
    requires ReadOffset(mem, Header(payload, headerSize) - base) <= Header(payload, headerSize)
    requires base <= MagicBegin(payload) && payload <= base + |mem|
  {
    if !MagicIntact(mem, base, payload) then None
    else
      var header := Header(payload, headerSize);
      Some(SmallWrapper(header - ReadOffset(mem, header - base), header, payload))
  }

  /** The stored `alloc_offset` reads back as the distance from block to header. */
  lemma OffsetImageReadsBack(mem: seq<byte>, w: SmallWrapper, headerSize: nat)
    requires WellFormed(w, headerSize, |mem|)
    ensures w.header - w.ptr + SMALL_HEADER_SIZE <= |mem|
    ensures ReadOffset(OffsetImage(mem, w, headerSize), w.header - w.ptr) == w.header - w.ptr
  {
    StoresDisjoint(w, headerSize, |mem|);
    LittleEndianRoundTrip(w.header - w.ptr, SMALL_HEADER_SIZE);
  }

  /** Writing the magic leaves `alloc_offset` alone and makes the magic check pass. */
  lemma MagicImageKeepsOffset(mem: seq<byte>, w: SmallWrapper, headerSize: nat)
    requires WellFormed(w, headerSize, |mem|)
    ensures w.header - w.ptr + SMALL_HEADER_SIZE <= |mem|
    ensures w.ptr <= MagicBegin(w.payload)
    ensures ReadOffset(MagicImage(mem, w, headerSize), w.header - w.ptr) == ReadOffset(mem, w.header - w.ptr)
    ensures MagicIntact(MagicImage(mem, w, headerSize), w.ptr, w.payload)
  {
    StoresDisjoint(w, headerSize, |mem|);
    var off := w.header - w.ptr;
    var m := MagicImage(mem, w, headerSize);
    assert m[off..off + SMALL_HEADER_SIZE] == mem[off..off + SMALL_HEADER_SIZE];
  }

  /**
   * After `small_wrapper_alloc` and `small_wrapper_poison`, both
   * `small_wrapper_from_header` and `small_wrapper_from_payload` recover
   * the very wrapper that was allocated.
   */
  lemma RoundTrip(mem0: seq<byte>, ptr: nat, payloadSize: nat, alignment: nat, headerSize: nat)
    requires IsPow2(alignment) && ptr % SMALL_HEADER_ALIGNMENT == 0
    requires headerSize >= SMALL_HEADER_SIZE
    requires |mem0| == WrapperSize(headerSize, payloadSize, alignment) <= SIZE_MAX
    ensures var w := Layout(ptr, payloadSize, alignment, headerSize);
            WellFormed(w, headerSize, |mem0|) &&
            var mem := MagicImage(OffsetImage(mem0, w, headerSize), w, headerSize);
            && ReadOffset(mem, w.header - ptr) == w.header - ptr
            && FromHeader(mem, ptr, w.header, payloadSize, alignment, headerSize) == w
            && FromPayload(mem, ptr, w.payload, headerSize) == Some(w)
  {
    var w := Layout(ptr, payloadSize, alignment, headerSize);
    assert WellFormed(w, headerSize, |mem0|);
    var mem1 := OffsetImage(mem0, w, headerSize);
    OffsetImageReadsBack(mem0, w, headerSize);
    MagicImageKeepsOffset(mem1, w, headerSize);
  }

  /**
   * Changing any single byte of the magic area makes
   * `small_wrapper_from_payload` (and `small_wrapper_free`) fail the magic
   * check. Every magic byte is non-zero, so zeroing one is such a change.
   */
  lemma MagicCheckDetects(mem: seq<byte>, w: SmallWrapper, headerSize: nat, i: nat, v: byte)
    requires WellFormed(w, headerSize, |mem|)
    requires ReadOffset(mem, w.header - w.ptr) <= w.header
    requires MagicIntact(mem, w.ptr, w.payload)
    requires MagicBegin(w.payload) <= i < w.payload
    requires v != mem[i - w.ptr]
    ensures mem[i - w.ptr] != 0
    ensures var bad := mem[i - w.ptr := v];
            ReadOffset(bad, w.header - w.ptr) == ReadOffset(mem, w.header - w.ptr) &&
            FromPayload(bad, w.ptr, w.payload, headerSize) == None
  {
    StoresDisjoint(w, headerSize, |mem|);
    var begin := MagicBegin(w.payload);
    assert mem[i - w.ptr] == MAGIC[i - begin];
    var bad := mem[i - w.ptr := v];
    var off := w.header - w.ptr;
    assert bad[off..off + SMALL_HEADER_SIZE] == mem[off..off + SMALL_HEADER_SIZE];
    assert bad[begin - w.ptr..w.payload - w.ptr][i - begin] == v;
    assert mem[begin - w.ptr..w.payload - w.ptr][i - begin] == mem[i - w.ptr];
    assert !MagicIntact(bad, w.ptr, w.payload);
  }
}
