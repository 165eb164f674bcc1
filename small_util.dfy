/**
 * The integer arithmetic of include/small/util.h: alignment to a power of
 * two, rounding up to a power of two and the binary logarithm.
 *
 * Sizes are `size_t` values of an LP64 target. The model keeps them as
 * naturals and turns the range `assert`s of the source into preconditions,
 * so no wrap-around can happen inside these functions. The bit mask
 * `x & ~(a - 1)` is written `x - x % a`, which is the same number whenever
 * `a` is a power of two, the only case the source admits.
 */
module SmallUtil {

  /** `SIZE_MAX` and `ULONG_MAX` of an LP64 target. */
  const SIZE_MAX: nat := 0xFFFF_FFFF_FFFF_FFFF
  const ULONG_MAX: nat := 0xFFFF_FFFF_FFFF_FFFF

  datatype Option<T> = None | Some(value: T)

  /** 2 to the power `k`. */
  function Pow2(k: nat): nat
  {
    if k == 0 then 1 else 2 * Pow2(k - 1)
  }

  /**
   * A positive power of two: the condition `(a & (a - 1)) == 0` that the
   * source asserts, restricted to `a >= 1`.
   */
  predicate IsPow2(a: nat)
  {
    a == 1 || (a >= 2 && a % 2 == 0 && IsPow2(a / 2))
  }

  lemma {:induction false} Pow2IsPow2(k: nat)
    ensures Pow2(k) >= 1 && IsPow2(Pow2(k))
  {
    if k > 0 {
      Pow2IsPow2(k - 1);
      assert Pow2(k) / 2 == Pow2(k - 1);
    }
  }

  lemma Pow2Positive(a: nat)
    requires IsPow2(a)
    ensures a > 0
  {
  }

  /** Every power of two is `Pow2(k)` for some `k`. */
  lemma {:induction false} IsPow2IsSomePow2(a: nat) returns (k: nat)
    requires IsPow2(a)
    ensures Pow2(k) == a
  {
    if a == 1 {
      k := 0;
    } else {
      var j := IsPow2IsSomePow2(a / 2);
      k := j + 1;
    }
  }

  lemma {:induction false} Pow2Monotone(i: nat, j: nat)
    requires i <= j
    ensures Pow2(i) <= Pow2(j)
  {
    if i < j {
      Pow2Monotone(i, j - 1);
    }
  }

  lemma {:induction false} Pow2Split(k: nat, j: nat)
    requires j <= k
    ensures Pow2(k) == Pow2(k - j) * Pow2(j)
  {
    if j > 0 {
      Pow2Split(k, j - 1);
      assert Pow2(k - (j - 1)) == 2 * Pow2(k - j);
    }
  }

  /** The powers of two that bound 32-bit quantities. */
  lemma Pow2Of32()
    ensures Pow2(31) == 0x8000_0000 && Pow2(32) == 0x1_0000_0000
  {
    assert Pow2(8) == 0x100;
    Pow2Split(16, 8);
    Pow2Split(32, 16);
  }

  // ----- arithmetic helpers -------------------------------------------------

  lemma {:induction false} MulAtLeast(k: int, d: int)
    requires d > 0 && k >= 1
    ensures k * d >= d
  {
    if k > 1 {
      MulAtLeast(k - 1, d);
      assert k * d == (k - 1) * d + d;
    }
  }

  /** Euclidean division is unique: `x == m * d + r` with `0 <= r < d` fixes both. */
  lemma ModUnique(x: int, d: int, m: int, r: int)
    requires d > 0 && 0 <= r < d && x == m * d + r
    ensures x % d == r && x / d == m
  {
    var q := x / d;
    assert x == q * d + x % d;
    assert (m - q) * d == x % d - r;
    if m - q > 0 { MulAtLeast(m - q, d); }
    if m - q < 0 { MulAtLeast(q - m, d); }
  }

  lemma MultipleMod(q: int, d: int)
    requires d > 0
    ensures (q * d) % d == 0
  {
    ModUnique(q * d, d, q, 0);
  }

  /** Rounding down to a multiple: `x - x % d` is one, at most `d - 1` below `x`. */
  lemma SubModIsMultiple(x: nat, d: nat)
    requires d > 0
    ensures 0 <= x % d < d && x % d <= x
    ensures (x - x % d) % d == 0
  {
    ModUnique(x - x % d, d, x / d, 0);
  }

  /** A positive product with a positive `d` has a positive factor `k`. */
  lemma PositiveFactor(k: int, d: int)
    requires d > 0
    ensures k * d > 0 ==> k >= 1
  {
    if k <= 0 {
      assert k * d <= 0;
    }
  }

  /** Two different multiples of `d` are at least `d` apart. */
  lemma MultiplesGap(r: nat, m: nat, d: nat)
    requires d > 0 && r % d == 0 && m % d == 0 && r < m
    ensures m - r >= d
  {
    var i, j := r / d, m / d;
    assert r == i * d && m == j * d;
    assert m - r == (j - i) * d;
    PositiveFactor(j - i, d);
    MulAtLeast(j - i, d);
  }

  /** A multiple of `a` taken modulo `2 * a` is `0` or `a`, by the parity of the factor. */
  lemma MulModDouble(a: nat, q: nat)
    requires a > 0
    ensures (q * a) % (2 * a) == a * (q % 2)
  {
    assert q * a == (q / 2) * (2 * a) + a * (q % 2);
    ModUnique(q * a, 2 * a, q / 2, a * (q % 2));
  }

  // ----- small_align_down, small_align -------------------------------------

  /**
   * `small_align_down(value, alignment)`: the largest multiple of the
   * alignment that is not above `value`.
   */
  function AlignDown(value: nat, alignment: nat): (r: nat)
    requires IsPow2(alignment)
    ensures r % alignment == 0
    ensures r <= value && value - r < alignment
  {
    Pow2Positive(alignment);
    SubModIsMultiple(value, alignment);
    value - value % alignment
  }

  /**
   * `small_align(size, alignment)`: round `size` up to a multiple of the
   * alignment. The source asserts that the alignment is a power of two and
   * that `size <= SIZE_MAX - alignment`, so that the sum cannot wrap.
   */
  function Align(size: nat, alignment: nat): (r: nat)
    requires IsPow2(alignment)
    requires size <= SIZE_MAX - alignment
    ensures r % alignment == 0
    ensures size <= r < size + alignment
    ensures r <= SIZE_MAX
  {
    AlignDown(size - 1 + alignment, alignment)
  }

  /** No multiple of the alignment lies between `AlignDown(value, alignment)` and `value`. */
  lemma AlignDownIsGreatest(value: nat, alignment: nat, m: nat)
    requires IsPow2(alignment)
    requires m % alignment == 0 && m <= value
    ensures m <= AlignDown(value, alignment)
  {
    var r := AlignDown(value, alignment);
    if r < m {
      MultiplesGap(r, m, alignment);
    }
  }

  /** No multiple of the alignment lies between `size` and `Align(size, alignment)`. */
  lemma AlignIsLeast(size: nat, alignment: nat, m: nat)
    requires IsPow2(alignment)
    requires size <= SIZE_MAX - alignment
    requires m % alignment == 0 && m >= size
    ensures Align(size, alignment) <= m
  {
    var r := Align(size, alignment);
    if m < r {
      MultiplesGap(m, r, alignment);
    }
  }

  /** A value that is already aligned is left alone. */
  lemma AlignAligned(size: nat, alignment: nat)
    requires IsPow2(alignment)
    requires size <= SIZE_MAX - alignment
    requires size % alignment == 0
    ensures Align(size, alignment) == size
  {
    AlignIsLeast(size, alignment, size);
  }

  // ----- small_round, small_lb ----------------------------------------------

  /**
   * The number of significant bits of `x`, which is what
   * `sizeof(unsigned long) * CHAR_BIT - __builtin_clzl(x)` computes for a
   * non-zero `x`.
   */
  function BitLength(x: nat): (r: nat)
    ensures x == 0 <==> r == 0
    ensures x >= 1 ==> Pow2(r - 1) <= x < Pow2(r)
  {
    if x == 0 then 0
    else
      var b := BitLength(x / 2);
      assert Pow2(b + 1) == 2 * Pow2(b);
      assert x / 2 >= 1 ==> Pow2(b) == 2 * Pow2(b - 1);
      1 + b
  }

  /**
   * `small_round(size)`: sizes below 2 are returned unchanged, any other
   * size is rounded up to a power of two. The source asserts that the
   * result fits a `size_t`.
   */
  function Round(size: nat): (r: nat)
    requires size <= SIZE_MAX / 2 + 1
  {
    if size < 2 then size else Pow2(BitLength(size - 1))
  }

  /** `small_round` returns the least power of two that is not below `size`. */
  lemma RoundIsLeastPow2(size: nat)
    requires 2 <= size <= SIZE_MAX / 2 + 1
    ensures IsPow2(Round(size)) && size <= Round(size)
    ensures forall k: nat :: Pow2(k) >= size ==> Pow2(k) >= Round(size)
  {
    Pow2IsPow2(BitLength(size - 1));
    forall k: nat | Pow2(k) >= size
      ensures Pow2(k) >= Round(size)
    {
      RoundBelow(size, k);
    }
  }

  lemma RoundBelow(size: nat, k: nat)
    requires 2 <= size <= SIZE_MAX / 2 + 1 && Pow2(k) >= size
    ensures Pow2(k) >= Round(size)
  {
    var b := BitLength(size - 1);
    if k >= b {
      Pow2Monotone(b, k);
    } else {
      Pow2Monotone(k, b - 1);
    }
  }

  /** Sizes below 2 pass through `small_round` unchanged. */
  lemma RoundSmall(size: nat)
    requires size < 2
    ensures Round(size) == size
  {
  }

  /**
   * `small_lb(size)`: the binary logarithm, rounded down. `__builtin_clzl`
   * is undefined for zero, so `size` must be positive.
   */
  function Lb(size: nat): (r: nat)
    requires 1 <= size <= ULONG_MAX
    ensures Pow2(r) <= size < Pow2(r + 1)
  {
    BitLength(size) - 1
  }
}
