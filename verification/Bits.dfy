/** Machine words as natural numbers: powers of two, single bits, and the
    bitwise operators the modelled code applies to its words. */
module Bits {

  /** The value of a 32-bit unsigned variable. */
  type uint32 = n: int | 0 <= n < 0x1_0000_0000

  const UINT32_SPAN := 0x1_0000_0000

  /** A 32-bit result one word too small or too large, wrapped around. */
  function Wrap32(n: int): uint32
    requires -UINT32_SPAN <= n < 2 * UINT32_SPAN
  {
    if n < 0 then n + UINT32_SPAN else if n < UINT32_SPAN then n else n - UINT32_SPAN
  }

  /** The first value that a signed 32-bit variable reads as negative. */
  const INDEX_LIMIT := 0x8000_0000

  /** A 32-bit word read as a signed loop index. */
  function SignedIndex(n: uint32): int {
    if n < INDEX_LIMIT then n else n - UINT32_SPAN
  }

  function Pow2(k: nat): (p: nat)
    ensures p >= 1
  {
    if k == 0 then 1 else 2 * Pow2(k - 1)
  }

  /** Bit `k` of `a`. */
  predicate Bit(a: nat, k: nat) {
    if k == 0 then a % 2 == 1 else Bit(a / 2, k - 1)
  }

  /** The bitwise operators; `AndNot` is `a & ~b`. */
  datatype BitOp = And | Or | Xor | AndNot {
    predicate OnBits(x: bool, y: bool) {
      match this
      case And => x && y
      case Or => x || y
      case Xor => x != y
      case AndNot => x && !y
    }

    function OnWords(a: nat, b: nat): nat
      decreases a + b
    {
      if a == 0 && b == 0 then 0
      else 2 * OnWords(a / 2, b / 2) + (if OnBits(a % 2 == 1, b % 2 == 1) then 1 else 0)
    }
  }

  /** Bitwise and of two words. */
  function Masked(a: nat, mask: nat): nat {
    And.OnWords(a, mask)
  }

  /** `n << k`, in a word wide enough to hold it. */
  function ShiftLeft(n: nat, k: nat): nat {
    if k == 0 then n else 2 * ShiftLeft(n, k - 1)
  }

  /** `n >> k`. */
  function ShiftRight(n: nat, k: nat): nat {
    if k == 0 then n else ShiftRight(n / 2, k - 1)
  }

  lemma {:induction false} OperatorActsBitByBit(op: BitOp, a: nat, b: nat, k: nat)
    ensures Bit(op.OnWords(a, b), k) == op.OnBits(Bit(a, k), Bit(b, k))
    decreases k
  {
    if a == 0 && b == 0 {
      ZeroHasNoBits(k);
    } else if k > 0 {
      OperatorActsBitByBit(op, a / 2, b / 2, k - 1);
    }
  }

  lemma {:induction false} ZeroHasNoBits(k: nat)
    ensures !Bit(0, k)
  {
    if k > 0 {
      ZeroHasNoBits(k - 1);
    }
  }

  lemma {:induction false} OperatorStaysInWord(op: BitOp, a: nat, b: nat, w: nat)
    requires a < Pow2(w) && b < Pow2(w)
    ensures op.OnWords(a, b) < Pow2(w)
    decreases w
  {
    if w > 0 && !(a == 0 && b == 0) {
      OperatorStaysInWord(op, a / 2, b / 2, w - 1);
    }
  }

  /** Two words of `w` bits are equal exactly when all their bits agree. */
  lemma WordsEqualWhenBitsAgree(a: nat, b: nat, w: nat)
    requires a < Pow2(w) && b < Pow2(w)
    requires forall k :: 0 <= k < w ==> Bit(a, k) == Bit(b, k)
    ensures a == b
    decreases w
  {
    if w > 0 {
      assert Bit(a, 0) == Bit(b, 0);
      forall k | 0 <= k < w - 1
        ensures Bit(a / 2, k) == Bit(b / 2, k)
      {
        assert Bit(a, k + 1) == Bit(b, k + 1);
      }
      WordsEqualWhenBitsAgree(a / 2, b / 2, w - 1);
    }
  }

  lemma {:induction false} PowerHasOneBit(j: nat, k: nat)
    ensures Bit(Pow2(j), k) <==> j == k
  {
    if j == 0 {
      if k > 0 {
        ZeroHasNoBits(k - 1);
      }
    } else if k > 0 {
      PowerHasOneBit(j - 1, k - 1);
    }
  }

  lemma Pow2Sum(j: nat, k: nat)
    ensures Pow2(j + k) == Pow2(j) * Pow2(k)
  {
    if j > 0 {
      Pow2Sum(j - 1, k);
      Associate(2, Pow2(j - 1), Pow2(k));
    }
  }

  lemma Associate(a: int, b: int, c: int)
    ensures (a * b) * c == a * (b * c)
  {
  }

  lemma {:induction false} Pow2Monotone(j: nat, k: nat)
    requires j <= k
    ensures Pow2(j) <= Pow2(k)
    ensures j < k ==> 2 * Pow2(j) <= Pow2(k)
    decreases k
  {
    if j < k {
      Pow2Monotone(j, k - 1);
    }
  }

  /** The widths of the words in use. */
  lemma WordSizes()
    ensures Pow2(8) == 0x100 && Pow2(16) == 0x1_0000 && Pow2(32) == 0x1_0000_0000
  {
    Pow2Sum(8, 8);
    Pow2Sum(16, 16);
  }

  // ----- Shifts and masks are arithmetic -----

  lemma {:induction false} ShiftLeftMultiplies(n: nat, k: nat)
    ensures ShiftLeft(n, k) == n * Pow2(k)
  {
    if k > 0 {
      ShiftLeftMultiplies(n, k - 1);
    }
  }

  lemma {:induction false} PowerIsShiftedOne(k: nat)
    ensures ShiftLeft(1, k) == Pow2(k)
  {
    if k > 0 {
      PowerIsShiftedOne(k - 1);
    }
  }

  lemma {:induction false} ShiftRightDivides(n: nat, k: nat)
    ensures ShiftRight(n, k) == n / Pow2(k)
  {
    if k > 0 {
      ShiftRightDivides(n / 2, k - 1);
      Halve(n, Pow2(k - 1));
    }
  }

  lemma Halve(n: nat, p: nat)
    requires p >= 1
    ensures n / (2 * p) == (n / 2) / p
    ensures n % (2 * p) == 2 * ((n / 2) % p) + n % 2
  {
    var q, r := (n / 2) / p, (n / 2) % p;
    assert n == 2 * (p * q + r) + n % 2;
    assert n == (2 * p) * q + (2 * r + n % 2) by {
      Associate(2, p, q);
    }
    DivModUnique(n, 2 * p, q, 2 * r + n % 2);
  }

  lemma DivModUnique(n: int, d: int, q: int, r: int)
    requires d > 0 && 0 <= r < d && n == d * q + r
    ensures n / d == q && n % d == r
  {
    var e := n / d - q;
    assert d * e == r - n % d;
    MultipleIsLarge(d, e);
  }

  lemma MultipleIsLarge(d: int, e: int)
    requires d > 0
    ensures e >= 1 ==> d * e >= d
    ensures e <= -1 ==> d * e <= -d
  {
  }

  /** Masking with `w` one-bits is the remainder modulo `2^w`. */
  lemma {:induction false} LowMask(n: nat, w: nat)
    ensures Masked(n, Pow2(w) - 1) == n % Pow2(w)
    decreases w
  {
    if w == 0 {
      MaskZero(n);
    } else {
      var p := Pow2(w - 1);
      LowMask(n / 2, w - 1);
      OddMask(n, p - 1);
      Halve(n, p);
    }
  }

  lemma OddMask(n: nat, m: nat)
    ensures Masked(n, 2 * m + 1) == 2 * Masked(n / 2, m) + n % 2
  {
    assert (2 * m + 1) / 2 == m && (2 * m + 1) % 2 == 1;
  }

  lemma MaskZero(n: nat)
    ensures Masked(n, 0) == 0 && Masked(0, n) == 0
  {
    if n > 0 {
      MaskZero(n / 2);
    }
  }

  lemma EvenMask(n: nat, m: nat)
    ensures Masked(n, 2 * m) == 2 * Masked(n / 2, m)
  {
    assert (2 * m) / 2 == m && (2 * m) % 2 == 0;
  }

  /** Trailing zeros of a mask clear the low bits of the word. */
  lemma {:induction false} ShiftedMask(n: nat, lo: nat, m: nat)
    ensures Masked(n, ShiftLeft(m, lo)) == ShiftLeft(Masked(ShiftRight(n, lo), m), lo)
    decreases lo
  {
    if lo > 0 {
      ShiftedMask(n / 2, lo - 1, m);
      EvenMask(n, ShiftLeft(m, lo - 1));
    }
  }

  /** A mask of `w` one-bits keeps a word of at most `w` bits as it is. */
  lemma {:induction false} MaskKeepsShortWord(n: nat, w: nat)
    requires n < Pow2(w)
    ensures Masked(n, Pow2(w) - 1) == n
    decreases w
  {
    if w > 0 {
      MaskKeepsShortWord(n / 2, w - 1);
      assert (Pow2(w) - 1) / 2 == Pow2(w - 1) - 1;
    }
  }

  /** The mask with one-bits exactly in positions `lo..lo+w` selects that field. */
  lemma {:induction false} FieldMask(n: nat, lo: nat, w: nat)
    ensures Masked(n, ShiftLeft(Pow2(w) - 1, lo)) == ShiftLeft(ShiftRight(n, lo) % Pow2(w), lo)
  {
    ShiftedMask(n, lo, Pow2(w) - 1);
    LowMask(ShiftRight(n, lo), w);
  }
}
