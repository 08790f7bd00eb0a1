/** The bit-trick logarithms that turn a cache's line size into a shift count. */
module Logarithm {
  import opened Bits

  /** `(n & (n - 1)) == 0` on 32-bit words, where `0 - 1` wraps around. */
  predicate IsPower2(n: uint32) {
    Masked(n, Wrap32(n - 1)) == 0
  }

  ghost predicate PowerOfTwo(n: nat) {
    exists k: nat :: n == Pow2(k)
  }

  /** The test accepts exactly the powers of two, and also zero. */
  lemma IsPower2Exactly(n: uint32)
    ensures IsPower2(n) <==> n == 0 || PowerOfTwo(n)
  {
    if n > 0 {
      PowerTest(n);
    } else {
      MaskZero(Wrap32(n - 1));
      ZeroPasses();
    }
  }

  lemma ZeroPasses()
    ensures IsPower2(0)
  {
    var zero: uint32 := 0;
    MaskZero(Wrap32(zero - 1));
  }

  lemma PowerTest(n: nat)
    requires n > 0
    ensures Masked(n, n - 1) == 0 <==> PowerOfTwo(n)
  {
    if n % 2 == 1 {
      OddMasked(n);
      OddPower(n);
    } else {
      EvenMasked(n);
      PowerTest(n / 2);
      EvenPower(n);
    }
  }

  lemma OddMasked(n: nat)
    requires n % 2 == 1
    ensures Masked(n, n - 1) == 0 <==> n == 1
  {
    assert (n - 1) / 2 == n / 2 && (n - 1) % 2 == 0;
    MaskStep(n, n - 1);
    MaskSelf(n / 2);
  }

  lemma EvenMasked(n: nat)
    requires n > 0 && n % 2 == 0
    ensures Masked(n, n - 1) == 0 <==> Masked(n / 2, n / 2 - 1) == 0
  {
    assert (n - 1) / 2 == n / 2 - 1;
    MaskStep(n, n - 1);
  }

  lemma OddPower(n: nat)
    requires n % 2 == 1
    ensures PowerOfTwo(n) <==> n == 1
  {
    if n == 1 {
      assert n == Pow2(0);
    } else if PowerOfTwo(n) {
      var k: nat :| n == Pow2(k);
      PowerParity(k);
    }
  }

  lemma EvenPower(n: nat)
    requires n > 0 && n % 2 == 0
    ensures PowerOfTwo(n) <==> PowerOfTwo(n / 2)
  {
    if PowerOfTwo(n) {
      var k: nat :| n == Pow2(k);
      PowerParity(k);
      assert n / 2 == Pow2(k - 1);
    }
    if PowerOfTwo(n / 2) {
      var k: nat :| n / 2 == Pow2(k);
      assert n == Pow2(k + 1);
    }
  }

  lemma PowerParity(k: nat)
    ensures if k == 0 then Pow2(k) == 1 else Pow2(k) == 2 * Pow2(k - 1)
  {
  }

  lemma MaskSelf(n: nat)
    ensures Masked(n, n) == n
  {
    if n > 0 {
      MaskSelf(n / 2);
    }
  }

  lemma MaskStep(a: nat, b: nat)
    ensures Masked(a, b) == 2 * Masked(a / 2, b / 2) + if a % 2 == 1 && b % 2 == 1 then 1 else 0
  {
    if a == 0 && b == 0 {
      MaskZero(0);
    }
  }

  /** Position of the most significant one-bit, found by halving the window. */
  method FloorLog2(number: uint32) returns (p: int)
    ensures number == 0 ==> p == -1
    ensures number > 0 ==> 0 <= p < 32 && Pow2(p) <= number < Pow2(p + 1)
  {
    p := 0;
    var n := number;
    if n == 0 {
      return -1;
    }
    p, n := HalveWindow(number, n, p, 16, 0xffff0000, 0x1_0000, 0x1_0000_0000);
    p, n := HalveWindow(number, n, p, 8, 0x0000ff00, 0x100, 0x1_0000);
    p, n := HalveWindow(number, n, p, 4, 0x000000f0, 0x10, 0x100);
    p, n := HalveWindow(number, n, p, 2, 0x0000000c, 0x4, 0x10);
    p, n := HalveWindow(number, n, p, 1, 0x00000002, 0x2, 0x4);
    ShiftedToOne(number, p);
  }

  /** The mask that selects the upper half of a window of `2 * w` bits, for the widths in use. */
  predicate UpperHalf(w: nat, mask: nat, size: nat, window: nat) {
    || (w == 16 && mask == 0xffff0000 && size == 0x1_0000 && window == 0x1_0000_0000)
    || (w == 8 && mask == 0x0000ff00 && size == 0x100 && window == 0x1_0000)
    || (w == 4 && mask == 0x000000f0 && size == 0x10 && window == 0x100)
    || (w == 2 && mask == 0x0000000c && size == 0x4 && window == 0x10)
    || (w == 1 && mask == 0x00000002 && size == 0x2 && window == 0x4)
  }

  lemma {:induction false} UpperHalfMask(w: nat, mask: nat, size: nat, window: nat)
    requires UpperHalf(w, mask, size, window)
    ensures window == Pow2(w) * Pow2(w) && size == Pow2(w) && mask == ShiftLeft(size - 1, w)
  {
    WordSizes();
    ShiftLeftMultiplies(size - 1, w);
  }

  /** One step, `if (n & mask) { p += w; n >>= w; }`: what is left of `number` after shifting by `p` fits the
      window before and half the window after. */
  method HalveWindow(ghost number: nat, n: nat, p: nat, w: nat, mask: nat, ghost size: nat, ghost window: nat)
    returns (q: nat, m: nat)
    requires UpperHalf(w, mask, size, window)
    requires n == ShiftRight(number, p) && 1 <= n < window
    ensures q == (if n >= size then p + w else p) && m == ShiftRight(number, q) && 1 <= m < size
  {
    q, m := p, n;
    UpperHalfMask(w, mask, size, window);
    HighHalf(n, w);
    UpperMask(n, w);
    ShiftTwice(number, p, w);
    if Masked(n, mask) != 0 {
      q, m := p + w, ShiftRight(n, w);
    }
  }

  lemma {:induction false} UpperMask(n: nat, w: nat)
    requires ShiftRight(n, w) < Pow2(w)
    ensures Masked(n, ShiftLeft(Pow2(w) - 1, w)) == 0 <==> ShiftRight(n, w) == 0
  {
    ShiftedMask(n, w, Pow2(w) - 1);
    MaskKeepsShortWord(ShiftRight(n, w), w);
    ShiftLeftVanishes(ShiftRight(n, w), w);
  }

  lemma {:induction false} HighHalf(n: nat, w: nat)
    requires n < Pow2(w) * Pow2(w)
    ensures ShiftRight(n, w) < Pow2(w)
    ensures ShiftRight(n, w) == 0 <==> n < Pow2(w)
  {
    ShiftRightDivides(n, w);
    QuotientBound(n, Pow2(w));
  }

  lemma {:induction false} ShiftLeftVanishes(n: nat, k: nat)
    ensures ShiftLeft(n, k) == 0 <==> n == 0
  {
    if k > 0 {
      ShiftLeftVanishes(n, k - 1);
    }
  }

  lemma QuotientBound(n: nat, d: nat)
    requires d > 0 && n < d * d
    ensures 0 <= n / d < d
    ensures n / d == 0 <==> n < d
  {
    var q := n / d;
    assert n == d * q + n % d;
    MultipleIsLarge(d, q - d);
    MultipleIsLarge(d, q);
    assert d * (q - d) == d * q - d * d;
  }

  lemma {:induction false} ShiftTwice(n: nat, j: nat, k: nat)
    ensures ShiftRight(ShiftRight(n, j), k) == ShiftRight(n, j + k)
    decreases j
  {
    if j > 0 {
      ShiftTwice(n / 2, j - 1, k);
    }
  }

  lemma {:induction false} ShiftedToOne(n: nat, p: nat)
    requires ShiftRight(n, p) == 1
    ensures Pow2(p) <= n < Pow2(p + 1)
  {
    if p > 0 {
      ShiftedToOne(n / 2, p - 1);
    }
  }

  /** The least exponent whose power of two is not below `n`. Zero wraps to the largest word. */
  method CeilLog2(n: uint32) returns (c: int)
    ensures n > 0 ==> 0 <= c <= 32 && n <= Pow2(c) && forall d: nat :: n <= Pow2(d) ==> c <= d
    ensures n == 0 ==> c == 32
  {
    var p := FloorLog2(Wrap32(n - 1));
    c := p + 1;
    if n == 0 {
      WordSizes();
      LargestWord(p);
    } else {
      LeastExponent(n, p);
    }
  }

  lemma LargestWord(p: nat)
    requires p < 32 && Pow2(32) - 1 < Pow2(p + 1)
    ensures p == 31
  {
    if p < 31 {
      Pow2Monotone(p + 1, 32);
    }
  }

  lemma LeastExponent(n: nat, p: int)
    requires -1 <= p && n >= 1
    requires p == -1 ==> n == 1
    requires p >= 0 ==> Pow2(p) <= n - 1 < Pow2(p + 1)
    ensures n <= Pow2(p + 1) && forall d: nat :: n <= Pow2(d) ==> p + 1 <= d
  {
    forall d: nat | n <= Pow2(d)
      ensures p + 1 <= d
    {
      if d <= p {
        Pow2Monotone(d, p);
      }
    }
  }
}
