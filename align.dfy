/** Rounding an offset up to an alignment, as Common::AlignUp does
  * (`value + (size - value % size) % size`), and the powers of two that
  * C++ alignments are. */
module Align {

  /** C++ alignments are powers of two. */
  predicate IsPowerOfTwo(n: nat)
    decreases n
  {
    n == 1 || (n >= 2 && n % 2 == 0 && IsPowerOfTwo(n / 2))
  }

  /** The smallest multiple of `size` that is at least `value`. */
  function AlignUp(value: nat, size: nat): (r: nat)
    requires size > 0
    ensures r % size == 0
    ensures value <= r < value + size
  {
    RoundingUpFacts(value, size);
    value + (size - value % size) % size
  }

  /** Euclidean quotient and remainder are determined by any decomposition. */
  lemma DivModUnique(x: int, y: int, k: int, r: int)
    requires y > 0 && x == k * y + r && 0 <= r < y
    ensures x % y == r && x / y == k
  {
    var q, m := x / y, x % y;
    assert x == q * y + m;
    var d := q - k;
    assert d * y == r - m by {
      assert q * y - k * y == d * y;
    }
    assert (d >= 1 ==> d * y >= y) && (d <= -1 ==> d * y <= -y);
  }

  lemma RoundingUpFacts(value: nat, size: nat)
    requires size > 0
    ensures var r := value + (size - value % size) % size;
      r % size == 0 && value <= r < value + size
  {
    var q, m := value / size, value % size;
    assert value == q * size + m;
    if m == 0 {
      DivModUnique(size, size, 1, 0);
    } else {
      DivModUnique(size - m, size, 0, size - m);
      assert value + (size - m) == (q + 1) * size;
      DivModUnique((q + 1) * size, size, q + 1, 0);
    }
  }

  /** Rounding up an offset that is already aligned leaves it where it is. */
  lemma AlignUpOfMultiple(value: nat, size: nat)
    requires size > 0 && value % size == 0
    ensures AlignUp(value, size) == value
  {
    DivModUnique(size, size, 1, 0);
  }

  lemma MulMonotone(a: int, b: int, s: nat)
    ensures a <= b ==> a * s <= b * s
  {
    assert b * s == a * s + (b - a) * s;
  }

  /** Rounding up never leaves a region whose end is itself aligned. */
  lemma AlignUpStaysWithin(value: nat, size: nat, end: nat)
    requires size > 0 && end % size == 0 && value <= end
    ensures AlignUp(value, size) <= end
  {
    var r := AlignUp(value, size);
    var qr, qe := r / size, end / size;
    assert r == qr * size;
    assert end == qe * size;
    assert (qe + 1) * size == end + size;
    MulMonotone(qe + 1, qr, size);
    MulMonotone(qr, qe, size);
  }

  /** A smaller power of two divides a larger one. */
  lemma {:induction false} PowerOfTwoDivides(a: nat, n: nat)
    requires IsPowerOfTwo(a) && IsPowerOfTwo(n) && a <= n
    ensures a > 0 && n % a == 0
  {
    if a == 1 {
      DivModUnique(n, 1, n, 0);
    } else {
      assert n >= 2;
      PowerOfTwoDivides(a / 2, n / 2);
      var k := (n / 2) / (a / 2);
      DivModUnique(n / 2, a / 2, k, 0);
      assert n == a * k;
      DivModUnique(n, a, k, 0);
    }
  }
}
