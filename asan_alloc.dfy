/**
 * `small_asan_alloc` of small/util.c: a block that holds a 16-bit
 * header-to-payload offset, the header, alignment padding, a second copy
 * of the offset, the magic prefix and the payload.
 *
 * `SMALL_ASAN_HEADER_ALIGNMENT` is defined outside this model; it is the
 * parameter `headerAlign`, which the source requires to hold a `uint16_t`.
 */
module AsanAlloc {
  import opened SmallUtil
  import opened Memory
  import Wrapper

  const UINT16_MAX: nat := 0xFFFF
  /** `sizeof(uint16_t)`. */
  const OFFSET_SIZE: nat := 2

  /** The addresses `small_asan_alloc` computes inside a block at `alloc` of `size` bytes. */
  datatype AsanBlock = AsanBlock(alloc: nat, size: nat, header: nat, payload: nat, magicBegin: nat)
  {
    /** The 16-bit offset stored twice: from the header to the payload. */
    function Offset(): int { payload - header }
  }

  /** `alloc_size` of the source. */
  function AllocSize(payloadSize: nat, alignment: nat, headerSize: nat, headerAlign: nat): nat
    requires IsPow2(alignment)
  {
    headerAlign + headerSize + Wrapper.SMALL_POISON_ALIGNMENT - 1 + OFFSET_SIZE + 2 * alignment - 1 + payloadSize
  }

  /**
   * The layout of `small_asan_alloc` for a block at `alloc`, or `None` when
   * the header-to-payload distance does not fit the 16-bit offset and the
   * source's assertion fails. That distance is at least `headerSize + 9`
   * and at most `headerSize + 2 * alignment + 8`, which bounds when the
   * assertion can fail.
   */
  function Layout(alloc: nat, payloadSize: nat, alignment: nat, headerSize: nat, headerAlign: nat)
    : (r: Option<AsanBlock>)
    requires IsPow2(alignment) && headerAlign >= OFFSET_SIZE
    ensures headerSize + 2 * alignment + 8 <= UINT16_MAX ==> r.Some?
    ensures headerSize + 9 > UINT16_MAX ==> r.None?
    ensures r.Some? ==>
      var b := r.value;
      && b.alloc == alloc && b.size == AllocSize(payloadSize, alignment, headerSize, headerAlign)
      && b.header == alloc + headerAlign
      && b.payload % alignment == 0 && b.payload % (2 * alignment) != 0
      && b.payload + payloadSize <= alloc + b.size
      && headerSize + 9 <= b.Offset() <= UINT16_MAX
      && b.header + headerSize + OFFSET_SIZE <= b.magicBegin
      && b.magicBegin % Wrapper.SMALL_POISON_ALIGNMENT == 0
      && b.magicBegin <= b.payload < b.magicBegin + Wrapper.SMALL_POISON_ALIGNMENT
      && Placed(b, headerSize, b.size)
  {
    var size := AllocSize(payloadSize, alignment, headerSize, headerAlign);
    var p := AlignDown(alloc + size - payloadSize, alignment);
    Wrapper.OddMultiple(p, alignment);
    var payload := if p % (2 * alignment) == 0 then p - alignment else p;
    var header := alloc + headerAlign;
    if payload - header > UINT16_MAX then None
    else Some(AsanBlock(alloc, size, header, payload, Wrapper.MagicBegin(payload)))
  }

  /** The order of the parts of a block that `Layout` guarantees and `Image` relies on. */
  predicate Placed(b: AsanBlock, headerSize: nat, blockSize: nat)
  {
    && b.alloc + OFFSET_SIZE <= b.header
    && b.header + headerSize + OFFSET_SIZE <= b.magicBegin <= b.payload <= b.alloc + blockSize
    && b.payload - b.magicBegin < |MAGIC|
  }

  /**
   * The block after `small_asan_alloc` writes the offset below the magic,
   * the offset at the block start and the magic prefix: those three ranges
   * hold what was written, the header and every other byte keep their
   * contents.
   */
  function Image(mem: seq<byte>, b: AsanBlock, headerSize: nat): (img: seq<byte>)
    requires Placed(b, headerSize, |mem|)
    ensures |img| == |mem|
    ensures var m := b.magicBegin - b.alloc;
            && img[..OFFSET_SIZE] == LittleEndian(b.Offset(), OFFSET_SIZE)
            && img[m - OFFSET_SIZE..m] == LittleEndian(b.Offset(), OFFSET_SIZE)
            && img[m..b.payload - b.alloc] == MAGIC[..b.payload - b.magicBegin]
            && (forall i :: OFFSET_SIZE <= i < m - OFFSET_SIZE || b.payload - b.alloc <= i < |mem| ==>
                  img[i] == mem[i])
  {
    var offset := LittleEndian(b.Offset(), OFFSET_SIZE);
    var m := b.magicBegin - b.alloc;
    var m1 := Store(mem, m - OFFSET_SIZE, offset);
    var m2 := Store(m1, 0, offset);
    StoreKeeps(m2, m, MAGIC[..b.payload - b.magicBegin], 0, OFFSET_SIZE);
    StoreKeeps(m1, 0, offset, m - OFFSET_SIZE, m);
    StoreKeeps(m2, m, MAGIC[..b.payload - b.magicBegin], m - OFFSET_SIZE, m);
    Store(m2, m, MAGIC[..b.payload - b.magicBegin])
  }

  /**
   * `small_asan_alloc` on the block `small_xmalloc` returned at `alloc`:
   * the header on success, `None` when the offset assertion fails (the
   * block is then left alone).
   */
  method Alloc(block: array<byte>, alloc: nat, payloadSize: nat, alignment: nat,
               headerSize: nat, headerAlign: nat) returns (header: Option<nat>)
    requires IsPow2(alignment) && headerAlign >= OFFSET_SIZE
    requires block.Length == AllocSize(payloadSize, alignment, headerSize, headerAlign)
    modifies block
    ensures var layout := Layout(alloc, payloadSize, alignment, headerSize, headerAlign);
            && header.Some? == layout.Some?
            && (layout.None? ==> block[..] == old(block[..]))
            && (layout.Some? ==>
                  header.value == layout.value.header &&
                  block[..] == Image(old(block[..]), layout.value, headerSize))
  {
    var layout := Layout(alloc, payloadSize, alignment, headerSize, headerAlign);
    if layout.None? {
      return None;
    }
    WriteImage(block, layout.value, headerSize);
    header := Some(layout.value.header);
  }

  /** The three stores of `small_asan_alloc`: the offset below the magic, the offset at the start, the magic. */
  method WriteImage(block: array<byte>, b: AsanBlock, headerSize: nat)
    requires Placed(b, headerSize, block.Length)
    modifies block
    ensures block[..] == Image(old(block[..]), b, headerSize)
  {
    var offset := LittleEndian(b.Offset(), OFFSET_SIZE);
    ghost var m0 := block[..];
    Copy(block, b.magicBegin - OFFSET_SIZE - b.alloc, offset);
    Copy(block, 0, offset);
    Copy(block, b.magicBegin - b.alloc, MAGIC[..b.payload - b.magicBegin]);
  }

  /**
   * Both copies of the offset `small_asan_alloc` stores lead from the
   * header to the payload and back.
   */
  lemma ImageReadsBack(mem: seq<byte>, b: AsanBlock, headerSize: nat)
    requires Placed(b, headerSize, |mem|) && b.Offset() <= UINT16_MAX
    ensures var img := Image(mem, b, headerSize);
            var m := b.magicBegin - b.alloc;
            && b.header + FromLittleEndian(img[..OFFSET_SIZE]) == b.payload
            && b.payload - FromLittleEndian(img[m - OFFSET_SIZE..m]) == b.header
  {
    OffsetRoundTrip(b.Offset());
  }

  /** A 16-bit offset reads back from its two little-endian bytes. */
  lemma OffsetRoundTrip(x: nat)
    requires x <= UINT16_MAX
    ensures FromLittleEndian(LittleEndian(x, OFFSET_SIZE)) == x
  {
    assert UINT16_MAX < ByteRange(OFFSET_SIZE);
    LittleEndianRoundTrip(x, OFFSET_SIZE);
  }
}
