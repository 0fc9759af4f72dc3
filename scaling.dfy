/**
 * The resizer's new image size: the larger side becomes `max_dim` and the
 * other side is scaled by the same ratio and truncated.  The ratio is taken
 * here as an exact rational rather than a double.
 */
module Scaling {

  /** `biggest_dim`: the width when it is strictly larger, else the height. */
  function Biggest(w: nat, h: nat): (r: nat)
    ensures r >= w && r >= h
    ensures r == w || r == h
  {
    if w > h then w else h
  }

  /** `int(max_dim / biggest_dim * x)`, computed exactly for non-negative operands. */
  function Scaled(x: nat, maxDim: nat, big: nat): nat
    requires big > 0
  {
    x * maxDim / big
  }

  /** Truncated division is determined by its bracketing multiples. */
  lemma DivUnique(n: int, d: int, q: int)
    requires d > 0
    requires q * d <= n < q * d + d
    ensures n / d == q
  {
    var q' := n / d;
    assert q' * d <= n < q' * d + d;
    if q' < q {
      MulStep(q' + 1, q, d);
    } else if q < q' {
      MulStep(q + 1, q', d);
    }
  }

  lemma MulStep(a: int, b: int, d: int)
    requires a <= b && d >= 0
    ensures a * d <= b * d
  {
    assert b * d - a * d == (b - a) * d;
  }

  /** Division by a positive number is monotone. */
  lemma DivMonotone(a: nat, b: nat, d: nat)
    requires d > 0 && a <= b
    ensures a / d <= b / d
  {
    var qa, qb := a / d, b / d;
    assert qa * d <= a;
    assert b < qb * d + d;
    if qb < qa {
      MulStep(qb + 1, qa, d);
    }
  }

  /**
   * One side scaled: never larger than before nor than `max_dim`, the
   * largest whole number not above the exact product, and exactly
   * `max_dim` for the larger side.
   */
  lemma ScaledSide(x: nat, maxDim: nat, big: nat)
    requires x <= big
    requires 0 < maxDim <= big
    ensures Scaled(x, maxDim, big) <= x
    ensures Scaled(x, maxDim, big) <= maxDim
    ensures Scaled(x, maxDim, big) * big <= x * maxDim < Scaled(x, maxDim, big) * big + big
    ensures x == big ==> Scaled(x, maxDim, big) == maxDim
    ensures maxDim == big ==> Scaled(x, maxDim, big) == x
  {
    var r := Scaled(x, maxDim, big);
    DivUnique(x * maxDim, big, r);
    MulStep(maxDim, big, x);
    assert x * maxDim <= x * big;
    DivMonotone(x * maxDim, x * big, big);
    DivUnique(x * big, big, x);
    MulStep(x, big, maxDim);
    DivMonotone(x * maxDim, big * maxDim, big);
    DivUnique(big * maxDim, big, maxDim);
    if x == big {
      assert x * maxDim == maxDim * big;
      DivUnique(x * maxDim, big, maxDim);
    }
    if maxDim == big {
      assert x * maxDim == x * big;
    }
  }

  /** Scaling keeps the order of the two sides. */
  lemma ScaledMonotone(x: nat, y: nat, maxDim: nat, big: nat)
    requires x <= y
    requires big > 0
    ensures Scaled(x, maxDim, big) <= Scaled(y, maxDim, big)
  {
    MulStep(x, y, maxDim);
    DivMonotone(x * maxDim, y * maxDim, big);
  }

  /**
   * The resize call can succeed: `max_dim` is positive and at most the
   * larger side, and neither side truncates to zero.
   */
  predicate Resizable(w: nat, h: nat, maxDim: int)
  {
    0 < maxDim <= Biggest(w, h)
    && Scaled(w, maxDim, Biggest(w, h)) > 0
    && Scaled(h, maxDim, Biggest(w, h)) > 0
  }

  /** A side survives exactly when its product with `max_dim` reaches the larger side. */
  lemma ScaledPositive(x: nat, maxDim: nat, big: nat)
    requires big > 0
    ensures Scaled(x, maxDim, big) > 0 <==> x * maxDim >= big
  {
    if x * maxDim >= big {
      DivMonotone(big, x * maxDim, big);
      DivUnique(big, big, 1);
    } else {
      DivUnique(x * maxDim, big, 0);
    }
  }

  /**
   * Resizing succeeds exactly when `max_dim` is positive, at most the larger
   * side, and large enough that the smaller side times it reaches the larger
   * side.
   */
  lemma ResizableIff(w: nat, h: nat, maxDim: int)
    ensures Resizable(w, h, maxDim) <==>
              0 < maxDim <= Biggest(w, h) && (if w > h then h else w) * maxDim >= Biggest(w, h)
  {
    if 0 < maxDim <= Biggest(w, h) {
      var big := Biggest(w, h);
      ScaledPositive(w, maxDim, big);
      ScaledPositive(h, maxDim, big);
      MulStep(w, big, maxDim);
      MulStep(h, big, maxDim);
      assert big * maxDim >= big;
    }
  }

  /** A 1000 by 1 image resized to 100 pixels would have height 0, so the resize raises. */
  lemma ThinImageNotResizable()
    ensures Biggest(1000, 1) == 1000
    ensures Scaled(1, 100, 1000) == 0
    ensures !Resizable(1000, 1, 100)
  {
    ResizableIff(1000, 1, 100);
  }
}
