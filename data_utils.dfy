/**
 * Power-of-two sizing for the backing arrays (DataUtils.nextClosestPowerOf2).
 * A Java `int` is a `bv32` here: `>>` on `bv32` is Java's unsigned `>>>`, subtraction
 * and addition wrap, and the Java test `n < 0` is "bit 31 is set".
 */
module DataUtils {

  const MinValue: bv32 := 0x8000_0000  // Integer.MIN_VALUE
  const MaxPowerOf2: bv32 := 0x4000_0000  // 2^30, the largest positive power of two

  /** Java's signed reading of a 32-bit pattern is negative. */
  predicate IsNegative(n: bv32) {
    n & MinValue != 0
  }

  predicate IsPowerOf2(p: bv32) {
    p != 0 && p & (p - 1) == 0
  }

  /**
   * Every bit below the highest set bit of `n` is set, as ORing in shifted copies makes it:
   * `m` keeps the bits of `n` and is closed under shifting right, so `m` is all ones.
   */
  function Smear(n: bv32): (m: bv32)
    ensures m | n == m
    ensures m | (m >> 1) == m
  {
    var n1 := n | (n >> 1);
    var n2 := n1 | (n1 >> 2);
    var n4 := n2 | (n2 >> 4);
    var n8 := n4 | (n4 >> 8);
    n8 | (n8 >> 16)
  }

  /**
   * Rounds `size` up to a power of two; non-positive sizes give 2, and sizes past 2^30
   * (or Integer.MIN_VALUE) wrap to Integer.MIN_VALUE.
   */
  function NextClosestPowerOf2(size: bv32): (r: bv32)
    ensures 1 <= size <= MaxPowerOf2 ==> IsPowerOf2(r) && size <= r && r / 2 < size
    ensures size == 0 || MinValue < size ==> r == 2
    ensures MaxPowerOf2 < size <= MinValue ==> r == MinValue
  {
    var n := Smear(size - 1);
    if IsNegative(n) then 2 else n + 1
  }

  /** On powers of two up to 2^30 the rounding is the identity, so it is idempotent there. */
  lemma PowerOf2IsFixedPoint(p: bv32)
    requires IsPowerOf2(p) && p <= MaxPowerOf2
    ensures NextClosestPowerOf2(p) == p
    ensures NextClosestPowerOf2(NextClosestPowerOf2(p)) == NextClosestPowerOf2(p)
  {
  }

  /** Rounding twice is rounding once, for every size up to 2^30. */
  lemma RoundingIsIdempotent(size: bv32)
    requires 1 <= size <= MaxPowerOf2
    ensures NextClosestPowerOf2(NextClosestPowerOf2(size)) == NextClosestPowerOf2(size)
  {
    PowerOf2IsFixedPoint(NextClosestPowerOf2(size));
  }

  /** A size up to 2^30 gets a positive capacity no larger than 2^30 that fits it. */
  lemma CapacityFits(size: bv32)
    requires size <= MaxPowerOf2
    ensures size <= NextClosestPowerOf2(size) <= MaxPowerOf2
    ensures 0 < NextClosestPowerOf2(size)
  {
    if size != 0 {
      assert NextClosestPowerOf2(size) / 2 < size;
    }
  }

  /** `CapacityFits`, read as Java `int` values: the capacity is a positive array length. */
  lemma CapacityFor(size: bv32)
    requires size as int <= MaxPowerOf2 as int
    ensures 0 < NextClosestPowerOf2(size) as int <= MaxPowerOf2 as int
  {
    assert size <= MaxPowerOf2;
    CapacityFits(size);
  }

  /** The examples 1 -> 1, 3 -> 4, 4 -> 4, 0 -> 2, -5 -> 2 and 2^30 + 1 -> Integer.MIN_VALUE. */
  lemma Examples()
    ensures NextClosestPowerOf2(1) == 1
    ensures NextClosestPowerOf2(3) == 4
    ensures NextClosestPowerOf2(4) == 4
    ensures NextClosestPowerOf2(0) == 2
    ensures NextClosestPowerOf2(0xFFFF_FFFB) == 2
    ensures NextClosestPowerOf2(0x4000_0001) == MinValue
  {
  }
}
