/**
 * Bytes of memory as the allocators see them: a block returned by
 * `malloc` is an `array<byte>` whose element `i` lies at address
 * `base + i`. Multi-byte integers are stored little-endian, as on the
 * x86-64 and AArch64 targets the library is built for.
 */
module Memory {
  import opened SmallUtil

  newtype byte = x: int | 0 <= x < 256

  /** `small_magic`, the 64-bit pattern written where ASAN cannot poison. */
  const SMALL_MAGIC: nat := 0x9cb69dbf535347d8

  /** The eight bytes of `small_magic` in memory order. */
  const MAGIC: seq<byte> := [0xd8, 0x47, 0x53, 0x53, 0xbf, 0x9d, 0xb6, 0x9c]

  /** The `n`-byte little-endian encoding of `x` (the low `n` bytes when `x` is wider). */
  function LittleEndian(x: nat, n: nat): (r: seq<byte>)
    ensures |r| == n
  {
    if n == 0 then [] else [(x % 256) as byte] + LittleEndian(x / 256, n - 1)
  }

  /** The number a little-endian byte string denotes. */
  function FromLittleEndian(s: seq<byte>): nat
  {
    if s == [] then 0 else s[0] as nat + 256 * FromLittleEndian(s[1..])
  }

  /** `256` to the power `n`: the numbers that fit in `n` bytes are those below it. */
  function ByteRange(n: nat): nat
  {
    if n == 0 then 1 else 256 * ByteRange(n - 1)
  }

  /** Reading back an `n`-byte store of a value that fits yields the value. */
  lemma {:induction false} LittleEndianRoundTrip(x: nat, n: nat)
    requires x < ByteRange(n)
    ensures FromLittleEndian(LittleEndian(x, n)) == x
  {
    if n > 0 {
      LittleEndianRoundTrip(x / 256, n - 1);
      assert LittleEndian(x, n)[1..] == LittleEndian(x / 256, n - 1);
    }
  }

  /** `MAGIC` reads back as `small_magic`. */
  lemma MagicIsSmallMagic()
    ensures FromLittleEndian(MAGIC) == SMALL_MAGIC
  {
    assert MAGIC[4..] == [0xbf, 0x9d, 0xb6, 0x9c];
  }

  /**
   * Memory `mem` after `bytes` are copied to offset `at`: the copied range
   * holds `bytes` and every other byte is unchanged.
   */
  function Store(mem: seq<byte>, at: nat, bytes: seq<byte>): (r: seq<byte>)
    requires at + |bytes| <= |mem|
    ensures |r| == |mem|
    ensures r[at..at + |bytes|] == bytes
    ensures forall i :: 0 <= i < |mem| && !(at <= i < at + |bytes|) ==> r[i] == mem[i]
  {
    mem[..at] + bytes + mem[at + |bytes|..]
  }

  /** A store leaves every range it does not overlap as it was. */
  lemma StoreKeeps(mem: seq<byte>, at: nat, bytes: seq<byte>, lo: nat, hi: nat)
    requires at + |bytes| <= |mem| && lo <= hi <= |mem|
    requires hi <= at || at + |bytes| <= lo
    ensures Store(mem, at, bytes)[lo..hi] == mem[lo..hi]
  {
    var r := Store(mem, at, bytes);
    assert forall j :: 0 <= j < hi - lo ==> r[lo..hi][j] == mem[lo..hi][j];
  }

  /** A store just below a range that already agrees with `t` extends the agreement down to `at`. */
  lemma StoreExtendsSuffix(mem: seq<byte>, at: nat, bytes: seq<byte>, t: seq<byte>)
    requires at + |bytes| <= |mem| == |t|
    requires mem[at + |bytes|..] == t[at + |bytes|..]
    requires t[at..at + |bytes|] == bytes
    ensures Store(mem, at, bytes)[at..] == t[at..]
  {
    var r := Store(mem, at, bytes);
    assert forall i :: at <= i < |t| ==> r[i] == t[i] by {
      forall i | at <= i < |t|
        ensures r[i] == t[i]
      {
        if i >= at + |bytes| {
          assert mem[at + |bytes|..][i - at - |bytes|] == t[at + |bytes|..][i - at - |bytes|];
        } else {
          assert t[at..at + |bytes|][i - at] == bytes[i - at];
        }
      }
    }
  }

  /** `memcpy(block + at, bytes, |bytes|)`. */
  method Copy(block: array<byte>, at: nat, bytes: seq<byte>)
    requires at + |bytes| <= block.Length
    modifies block
    ensures block[..] == Store(old(block[..]), at, bytes)
  {
    var i := 0;
    while i < |bytes|
      invariant 0 <= i <= |bytes|
      invariant forall j :: 0 <= j < block.Length ==>
        block[j] == if at <= j < at + i then bytes[j - at] else old(block[j])
    {
      block[at + i] := bytes[i];
      i := i + 1;
    }
    assert block[..] == Store(old(block[..]), at, bytes);
  }

  /** `memcmp(block + at, bytes, |bytes|) == 0`. */
  method Equal(block: array<byte>, at: nat, bytes: seq<byte>) returns (same: bool)
    requires at + |bytes| <= block.Length
    ensures same <==> block[at..at + |bytes|] == bytes
  {
    var i := 0;
    while i < |bytes|
      invariant 0 <= i <= |bytes|
      invariant forall j :: 0 <= j < i ==> block[at + j] == bytes[j]
    {
      if block[at + i] != bytes[i] {
        assert block[at..at + |bytes|][i] != bytes[i];
        return false;
      }
      i := i + 1;
    }
    assert block[at..at + |bytes|] == bytes;
    return true;
  }
}
