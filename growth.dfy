/**
 * The capacity arithmetic of the dynamic array (include/dynarray.c): the
 * doubling policy of `dynarray_resize`, `clzz`, `minpow2`, and the growth
 * guard of `dynarray_next`. Sizes are `size_t` values, 64 bits wide.
 */
module Growth {
  import opened Arith

  const SIZE_BITS: nat := 64
  const SIZE_MAX: nat := 0xFFFF_FFFF_FFFF_FFFF
  /** `DYN_ARRAY_MIN_CAP`: elements allocated by the first growth. */
  const DYN_ARRAY_MIN_CAP: nat := 4

  function Pow2(k: nat): (r: nat)
    ensures r >= 1
  {
    if k == 0 then 1 else 2 * Pow2(k - 1)
  }

  ghost predicate IsPow2(n: nat) {
    exists k: nat :: Pow2(k) == n
  }

  lemma {:induction false} Pow2Monotone(a: nat, b: nat)
    requires a <= b
    ensures Pow2(a) <= Pow2(b)
  {
    if a < b {
      Pow2Monotone(a, b - 1);
    }
  }

  lemma {:induction false} Pow2Add(a: nat, b: nat)
    ensures Pow2(a + b) == Pow2(a) * Pow2(b)
  {
    if b > 0 {
      Pow2Add(a, b - 1);
      assert Pow2(a + b) == 2 * Pow2(a + b - 1);
    }
  }

  /** The powers of two at the top of a `size_t`. */
  lemma Pow2Top()
    ensures Pow2(SIZE_BITS) == SIZE_MAX + 1
    ensures Pow2(SIZE_BITS - 1) == 0x8000_0000_0000_0000
    ensures Pow2(SIZE_BITS - 4) == 0x1000_0000_0000_0000
  {
    assert Pow2(4) == 16;
    Pow2Add(4, 4);
    assert Pow2(8) == 0x100;
    Pow2Add(8, 8);
    assert Pow2(16) == 0x1_0000;
    Pow2Add(16, 16);
    assert Pow2(32) == 0x1_0000_0000;
    Pow2Add(32, 28);
    Pow2Add(16, 12);
    Pow2Add(8, 4);
    assert Pow2(12) == 0x1000;
    assert Pow2(28) == 0x1000_0000;
    assert Pow2(60) == 0x1000_0000_0000_0000;
    assert Pow2(63) == 8 * Pow2(60);
    assert Pow2(64) == 2 * Pow2(63);
  }

  /** The number of significant bits of `n`. */
  function BitLength(n: nat): nat {
    if n == 0 then 0 else 1 + BitLength(n / 2)
  }

  lemma {:induction false} BitLengthBounds(n: nat)
    requires n >= 1
    ensures BitLength(n) >= 1
    ensures Pow2(BitLength(n) - 1) <= n < Pow2(BitLength(n))
  {
    if n >= 2 {
      BitLengthBounds(n / 2);
      assert Pow2(BitLength(n)) == 2 * Pow2(BitLength(n / 2));
    }
  }

  /**
   * `clzz`, by its meaning: the number of leading zero bits of a nonzero
   * `size_t`, so that its highest set bit is bit `SIZE_BITS - 1 - z`.
   */
  function Clz(n: nat): (z: nat)
    requires 1 <= n <= SIZE_MAX
    ensures z < SIZE_BITS
    ensures Pow2(SIZE_BITS - 1 - z) <= n < Pow2(SIZE_BITS - z)
  {
    BitLengthBounds(n);
    Pow2Top();
    BitLengthAtMost(n, SIZE_BITS);
    SIZE_BITS - BitLength(n)
  }

  lemma BitLengthAtMost(n: nat, k: nat)
    requires 1 <= n < Pow2(k)
    ensures BitLength(n) <= k
  {
    BitLengthBounds(n);
    if k < BitLength(n) {
      Pow2Monotone(k, BitLength(n) - 1);
    }
  }

  /**
   * `minpow2`: the top bit of a `size_t` shifted right by the leading zeros
   * of `n` is the highest power of two not above `n`; it is the answer when it
   * equals `n` and otherwise doubles.
   */
  function MinPow2(n: nat): (r: nat)
    requires 1 <= n <= Pow2(SIZE_BITS - 1)
    ensures IsPow2(r) && n <= r < 2 * n
  {
    Pow2Top();
    var leadingZeros := Clz(n);
    var mask := Pow2(SIZE_BITS - 1 - leadingZeros);
    if mask == n then
      mask
    else
      assert 2 * mask == Pow2(SIZE_BITS - leadingZeros);
      2 * mask
  }

  /** `minpow2(n)` is the LEAST power of two that is at least `n`. */
  lemma MinPow2IsLeast(n: nat, k: nat)
    requires 1 <= n <= Pow2(SIZE_BITS - 1)
    requires n <= Pow2(k)
    ensures MinPow2(n) <= Pow2(k)
  {
    var r := MinPow2(n);
    var j: nat :| Pow2(j) == r;
    if k < j {
      Pow2Monotone(k + 1, j);
      assert false;
    }
    Pow2Monotone(j, k);
  }

  /** A power of two is its own `minpow2`. */
  lemma MinPow2OfPow2(k: nat)
    requires Pow2(k) <= Pow2(SIZE_BITS - 1)
    ensures MinPow2(Pow2(k)) == Pow2(k)
  {
    MinPow2IsLeast(Pow2(k), k);
  }

  /**
   * The byte capacity `dynarray_resize` moves to: `DYN_ARRAY_MIN_CAP`
   * elements when nothing is allocated, otherwise double.
   */
  function ResizedCap(cap: nat, size: nat): nat {
    if cap > 0 then cap * 2 else DYN_ARRAY_MIN_CAP * size
  }

  /** Growth through `dynarray_resize` alone keeps the capacity a whole number of elements. */
  lemma ResizedCapMultiple(cap: nat, size: nat)
    requires size > 0 && cap % size == 0
    ensures ResizedCap(cap, size) % size == 0
  {
    var q := cap / size;
    assert cap == q * size;
    if cap > 0 {
      assert cap * 2 == (2 * q) * size;
      DivUnique(cap * 2, size, 2 * q, 0);
    } else {
      DivUnique(DYN_ARRAY_MIN_CAP * size, size, DYN_ARRAY_MIN_CAP, 0);
    }
  }

  /** The capacity after `k` consecutive resizes of an empty array. */
  function CapAfterResizes(size: nat, k: nat): nat {
    if k == 0 then 0 else ResizedCap(CapAfterResizes(size, k - 1), size)
  }

  /**
   * Growth that only goes through `dynarray_resize` gives four elements and
   * then doubles: after `k + 1` resizes the capacity is `4 * size * 2^k`.
   */
  lemma {:induction false} ResizesDouble(size: nat, k: nat)
    requires size > 0
    ensures CapAfterResizes(size, k + 1) == DYN_ARRAY_MIN_CAP * size * Pow2(k)
  {
    if k > 0 {
      ResizesDouble(size, k - 1);
      assert CapAfterResizes(size, k) > 0;
    }
  }

  /** The guard of `dynarray_next` as written: grow only when full. */
  predicate NextGrows(cap: nat, len: nat) {
    cap <= len
  }

  /** The capacity `dynarray_next` as written leaves. */
  function NextCap(cap: nat, len: nat, size: nat): nat {
    if NextGrows(cap, len) then ResizedCap(cap, size) else cap
  }

  /**
   * After `dynarray_next` as written, the new element lies inside the
   * allocation exactly when at least one element of room was left, or the
   * array was full and one resize makes room for another element.
   */
  lemma NextFitsExactly(cap: nat, len: nat, size: nat)
    requires len <= cap && size > 0
    ensures len + size <= NextCap(cap, len, size) <==>
      size <= cap - len || (cap == len && (cap == 0 || size <= cap))
  {
  }

  /**
   * When capacity and length are both whole numbers of elements, as growth
   * through `dynarray_resize` alone keeps them, `dynarray_next` as written
   * always has room for the new element.
   */
  lemma NextFitsMultiples(cap: nat, len: nat, size: nat)
    requires len <= cap && size > 0 && cap % size == 0 && len % size == 0
    ensures len + size <= NextCap(cap, len, size)
  {
    DivBounds(cap, size);
    DivBounds(len, size);
    var d := cap / size - len / size;
    assert cap - len == d * size;
    if d >= 1 {
      MulAtLeast(d, size);
    }
    NextFitsExactly(cap, len, size);
  }

  /**
   * Growth through `dynarray_next` alone keeps length and capacity whole
   * numbers of elements and the capacity within four elements plus twice the
   * length, and the new element always fits.
   */
  lemma NextKeepsWhole(cap: nat, len: nat, size: nat)
    requires len <= cap && size > 0 && cap % size == 0 && len % size == 0
    requires cap <= 4 * size + 2 * len
    ensures NextGrows(cap, len) ==> ResizedCap(cap, size) <= 4 * size + 2 * len
    ensures len + size <= NextCap(cap, len, size)
    ensures NextCap(cap, len, size) % size == 0 && (len + size) % size == 0
    ensures NextCap(cap, len, size) <= 4 * size + 2 * (len + size)
  {
    NextFitsMultiples(cap, len, size);
    ResizedCapMultiple(cap, size);
    var q := len / size;
    assert len == q * size;
    DivUnique(len + size, size, q + 1, 0);
  }

  /**
   * The defect: an array of 12-byte elements filled by `dynarray_extend`
   * with one element holds 12 bytes in a 16-byte allocation, so the guard
   * does not fire and the next element would end at byte 24.
   */
  lemma NextOverrunsAfterExtend()
    ensures 12 <= Pow2(SIZE_BITS - 1) && MinPow2(12) == 16
    ensures !NextGrows(16, 12) && 16 < 12 + 12
  {
    Pow2Top();
    assert BitLength(12) == 4;
    assert Clz(12) == 60;
    assert Pow2(3) == 8;
  }

  /** The corrected guard: grow when less than one element of room is left. */
  predicate NextGrowsChecked(cap: nat, len: nat, size: nat) {
    cap < len + size
  }

  /** The capacity the corrected `dynarray_next` leaves. */
  function NextCapChecked(cap: nat, len: nat, size: nat): nat {
    if NextGrowsChecked(cap, len, size) then ResizedCap(cap, size) else cap
  }

  /**
   * With the corrected guard the new element always fits, provided an
   * allocation, if there is one, holds at least one element.
   */
  lemma NextCheckedFits(cap: nat, len: nat, size: nat)
    requires len <= cap && size > 0
    requires cap == 0 || size <= cap
    ensures len + size <= NextCapChecked(cap, len, size)
    ensures NextCapChecked(cap, len, size) >= cap
  {
  }

  /** For one-byte elements the two guards agree, so byte buffers never see the defect. */
  lemma GuardsAgreeForBytes(cap: nat, len: nat)
    requires len <= cap
    ensures NextGrows(cap, len) == NextGrowsChecked(cap, len, 1)
    ensures NextCap(cap, len, 1) == NextCapChecked(cap, len, 1)
  {
  }
}
