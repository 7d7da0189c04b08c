/**
 Rounding a byte count up to whole filesystem blocks (`roundup` in compcomp.py).
 The 4k totals of the report use it to estimate what a file occupies on disk.
 */
module Blocks {

  /** The block size `roundup` uses when called without one: 4 KiB. */
  const BlockSize: int := 4096

  /** Python's `(x + b - 1) // b * b`. For a positive divisor Python's floor
      division and Dafny's Euclidean division agree, so `/` is used directly.
      The result is the one multiple of `b` within `[x, x + b)`. */
  function RoundUp(x: int, b: int): (r: int)
    requires b > 0
    ensures r % b == 0
    ensures x <= r < x + b
  {
    var q := (x + b - 1) / b;
    MultipleHasNoRemainder(q, b);
    q * b
  }

  /** Euclidean division is unique: a quotient and an in-range remainder
      that rebuild `a` are Dafny's `/` and `%`. */
  lemma DivisionIsUnique(a: int, b: int, q: int, s: int)
    requires b > 0
    requires a == b * q + s && 0 <= s < b
    ensures a / b == q && a % b == s
  {
    var q', s' := a / b, a % b;
    assert a == b * q' + s';
    assert b * (q - q') == s' - s by {
      assert b * (q - q') == b * q - b * q';
    }
    ProductSign(b, q - q');
    ProductSign(b, q' - q);
    assert b * (q' - q) == -(b * (q - q'));
    if q - q' >= 1 {
      ProductAtLeastFactor(b, q - q');
    }
    if q' - q >= 1 {
      ProductAtLeastFactor(b, q' - q);
    }
  }

  lemma ProductSign(b: int, k: int)
    requires b > 0
    ensures b * k > 0 <==> k > 0
    ensures b * k == 0 <==> k == 0
  {
    if k > 0 {
      ProductAtLeastFactor(b, k);
    } else if k < 0 {
      ProductAtLeastFactor(b, -k);
      assert b * k == -(b * (-k));
    }
  }

  lemma ProductAtLeastFactor(b: int, k: int)
    requires b > 0 && k >= 1
    ensures b * k >= b
  {
    assert b * k == b * (k - 1) + b;
    assert b * (k - 1) >= 0;
  }

  lemma MultipleHasNoRemainder(q: int, b: int)
    requires b > 0
    ensures (q * b) % b == 0
    ensures (q * b) / b == q
  {
    DivisionIsUnique(q * b, b, q, 0);
  }

  /** A multiple of `b` lies at least `b` above any smaller multiple. */
  lemma MultiplesAreSpaced(m: int, n: int, b: int)
    requires b > 0
    requires m % b == 0 && n % b == 0
    requires m < n
    ensures m + b <= n
  {
    var p, q := m / b, n / b;
    assert m == b * p;
    assert n == b * q;
    assert b * (q - p) == n - m by {
      assert b * (q - p) == b * q - b * p;
    }
    ProductSign(b, q - p);
    ProductAtLeastFactor(b, q - p);
  }

  /** `roundup` picks the least multiple of `b` that is not below `x`. */
  lemma RoundUpIsLeast(x: int, b: int, m: int)
    requires b > 0
    requires m % b == 0 && x <= m
    ensures RoundUp(x, b) <= m
  {
    var r := RoundUp(x, b);
    if m < r {
      MultiplesAreSpaced(m, r, b);
    }
  }

  /** `roundup(x, b)` is exactly the multiple of `b` in `[x, x + b)`. */
  lemma RoundUpCharacterization(x: int, b: int, r: int)
    requires b > 0
    ensures r == RoundUp(x, b) <==> (r % b == 0 && x <= r < x + b)
  {
    if r % b == 0 && x <= r < x + b {
      var s := RoundUp(x, b);
      if r < s {
        MultiplesAreSpaced(r, s, b);
      } else if s < r {
        MultiplesAreSpaced(s, r, b);
      }
    }
  }

  /** An empty file occupies no block. */
  lemma RoundUpZero(b: int)
    requires b > 0
    ensures RoundUp(0, b) == 0
  {
    RoundUpCharacterization(0, b, 0);
  }

  /** A size that already fills whole blocks is left as it is. */
  lemma RoundUpOfMultiple(x: int, b: int)
    requires b > 0
    requires x % b == 0
    ensures RoundUp(x, b) == x
  {
    RoundUpCharacterization(x, b, x);
  }

  /** Rounding twice is rounding once. */
  lemma RoundUpIdempotent(x: int, b: int)
    requires b > 0
    ensures RoundUp(RoundUp(x, b), b) == RoundUp(x, b)
  {
    RoundUpOfMultiple(RoundUp(x, b), b);
  }

  /** A larger file never occupies fewer blocks. */
  lemma RoundUpMonotone(x: int, y: int, b: int)
    requires b > 0
    requires x <= y
    ensures RoundUp(x, b) <= RoundUp(y, b)
  {
    RoundUpIsLeast(x, b, RoundUp(y, b));
  }

  /** Rounding each part separately never gives less than rounding the whole,
      so a sum of per-file 4k sizes bounds the rounded sum of raw sizes. */
  lemma RoundUpSubadditive(x: int, y: int, b: int)
    requires b > 0
    ensures RoundUp(x + y, b) <= RoundUp(x, b) + RoundUp(y, b)
  {
    var s := RoundUp(x, b) + RoundUp(y, b);
    assert s % b == 0 by {
      var p, q := RoundUp(x, b) / b, RoundUp(y, b) / b;
      assert s == b * (p + q);
      MultipleHasNoRemainder(p + q, b);
    }
    RoundUpIsLeast(x + y, b, s);
  }
}
