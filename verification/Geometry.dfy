/** The parameters a cache computes from its sizes, and how an address is split with them. */
module Geometry {
  import opened Common
  import opened Bits
  import opened Logarithm
  import opened LineWalk
  import CacheModel

  /** `associativity * lineSize` in 32 bits. */
  function Divisor(lineSize: uint32, associativity: uint32): uint32 {
    Product(associativity, lineSize) % UINT32_SPAN
  }

  /** The set index mask; a quotient of 0 wraps to the largest mask. */
  function SetIndexMask(cacheSize: uint32, divisor: uint32): uint32
    requires divisor > 0
  {
    QuotientRange(cacheSize, divisor);
    Wrap32(cacheSize / divisor - 1)
  }

  function NumSets(setIndexMask: uint32): uint32 {
    Wrap32(setIndexMask + 1)
  }

  /** The assertions of the constructor. */
  predicate AssertsPass(lineSize: uint32, setIndexMask: uint32) {
    IsPower2(lineSize) && IsPower2(NumSets(setIndexMask))
  }

  /** What the constructor needs: no division by zero, its assertions, and one condition they miss. */
  predicate Usable(cacheSize: uint32, lineSize: uint32, associativity: uint32) {
    && Divisor(lineSize, associativity) > 0
    && AssertsPass(lineSize, SetIndexMask(cacheSize, Divisor(lineSize, associativity)))
    && cacheSize >= Divisor(lineSize, associativity)
  }

  lemma DivModBack(n: int, d: int)
    requires d > 0
    ensures n == (n / d) * d + n % d && 0 <= n % d < d
  {
  }

  lemma QuotientRange(n: nat, d: nat)
    requires d > 0
    ensures 0 <= n / d <= n
    ensures n / d == 0 <==> n < d
  {
    var q := n / d;
    DivModBack(n, d);
    MultipleIsLarge(d, q);
    Multiply(q, d);
  }

  lemma Multiply(q: int, d: int)
    requires d > 0
    ensures q >= 0 ==> q * d >= q
    ensures q < 0 ==> q * d <= -d
  {
  }

  lemma NumSetsIsQuotient(cacheSize: uint32, divisor: uint32)
    requires divisor > 0
    ensures 0 <= cacheSize / divisor <= cacheSize
    ensures NumSets(SetIndexMask(cacheSize, divisor)) == cacheSize / divisor
    ensures cacheSize / divisor == 0 <==> cacheSize < divisor
  {
    QuotientRange(cacheSize, divisor);
  }

  lemma PowerOf(n: uint32)
    requires IsPower2(n) && n > 0
    ensures PowerOfTwo(n)
  {
    IsPower2Exactly(n);
  }

  lemma NumSetsIsPower(mask: uint32)
    requires IsPower2(NumSets(mask)) && NumSets(mask) > 0
    ensures exists b: nat :: NumSets(mask) == Pow2(b) && mask == Pow2(b) - 1
  {
    PowerOf(NumSets(mask));
  }

  /** The set indices a flush visits, from `index` down to 0. */
  function FlushVisits(index: int): seq<int>
    decreases if index < 0 then 0 else index + 1
  {
    if index < 0 then [] else [index] + FlushVisits(index - 1)
  }

  /** The indices of a whole flush: its signed index starts one past the sets in use. */
  function FlushIndices(setIndexMask: uint32): seq<int> {
    FlushVisits(SignedIndex(NumSets(setIndexMask)))
  }

  lemma {:induction false} FlushVisitsExactly(first: int)
    ensures forall index :: index in FlushVisits(first) <==> 0 <= index <= first
    decreases if first < 0 then 0 else first + 1
  {
    if first >= 0 {
      FlushVisitsExactly(first - 1);
    }
  }

  /** A flush stays inside an array of `maxSets` sets exactly when not all of them are in use, although the
      constructor also accepts a geometry that uses all, or when it visits no set at all. It visits every
      set in use exactly when there are fewer than 2^31. */
  lemma FlushInRangeExactly(cacheSize: uint32, divisor: uint32, maxSets: nat)
    requires divisor > 0 && NumSets(SetIndexMask(cacheSize, divisor)) <= maxSets
    ensures var n, visits := cacheSize / divisor, FlushIndices(SetIndexMask(cacheSize, divisor));
            && ((forall index <- visits :: index < maxSets) <==> n < maxSets || n >= INDEX_LIMIT)
            && ((forall index | 0 <= index < n :: index in visits) <==> n < INDEX_LIMIT)
  {
    NumSetsIsQuotient(cacheSize, divisor);
    FlushRange(cacheSize / divisor, maxSets, FlushIndices(SetIndexMask(cacheSize, divisor)));
  }

  lemma FlushRange(n: uint32, maxSets: nat, visits: seq<int>)
    requires n <= maxSets && visits == FlushVisits(SignedIndex(n))
    ensures && ((forall index <- visits :: index < maxSets) <==> n < maxSets || n >= INDEX_LIMIT)
            && ((forall index | 0 <= index < n :: index in visits) <==> n < INDEX_LIMIT)
  {
    var first := SignedIndex(n);
    FlushVisitsExactly(first);
    if n < INDEX_LIMIT {
      assert first == n && first in visits;
      if forall index <- visits :: index < maxSets {
        assert first < maxSets;
      }
    } else {
      assert visits == [];
      if forall index | 0 <= index < n :: index in visits {
        assert 0 in visits;
      }
    }
  }

  /** A cache of 2^31 lines of one byte: the constructor accepts it, and a flush visits none of its sets. */
  lemma LargestCacheIsNotFlushed()
    ensures Usable(INDEX_LIMIT, 1, 1) && NumSets(SetIndexMask(INDEX_LIMIT, Divisor(1, 1))) == INDEX_LIMIT
    ensures FlushIndices(SetIndexMask(INDEX_LIMIT, Divisor(1, 1))) == []
  {
    assert Divisor(1, 1) == 1 && SetIndexMask(INDEX_LIMIT, 1) == INDEX_LIMIT - 1;
    LargestPower();
    PowersPass(INDEX_LIMIT, 31);
    PowersPass(1, 0);
  }

  lemma LargestPower()
    ensures Pow2(31) == INDEX_LIMIT && Pow2(0) == 1
  {
    WordSizes();
    assert Pow2(32) == 2 * Pow2(31);
  }

  /** One line of 64 bytes in an array of one set: the constructor accepts it, and a flush visits set 1. */
  lemma FlushLeavesFullArray()
    ensures Usable(64, 64, 1) && NumSets(SetIndexMask(64, Divisor(64, 1))) <= 1
    ensures 1 in FlushIndices(SetIndexMask(64, Divisor(64, 1)))
  {
    assert Divisor(64, 1) == 64 && SetIndexMask(64, 64) == 0 && NumSets(0) == 1;
    assert Pow2(6) == 64 && Pow2(0) == 1;
    PowersPass(64, 6);
    PowersPass(1, 0);
  }

  lemma {:induction false} PowersPass(n: uint32, k: nat)
    requires n == Pow2(k)
    ensures IsPower2(n)
  {
    IsPower2Exactly(n);
  }

  /** With the assertions passed, masking yields an index of a set for every tag exactly when the
      cache holds at least one line per way; below that the mask wraps and the assertions still pass. */
  lemma IndexInRangeExactly(cacheSize: uint32, lineSize: uint32, associativity: uint32)
    requires Divisor(lineSize, associativity) > 0
    requires AssertsPass(lineSize, SetIndexMask(cacheSize, Divisor(lineSize, associativity)))
    ensures var mask := SetIndexMask(cacheSize, Divisor(lineSize, associativity));
            (forall tag: nat :: Masked(tag, mask) < NumSets(mask)) <==> cacheSize >= Divisor(lineSize, associativity)
  {
    var divisor := Divisor(lineSize, associativity);
    var mask := SetIndexMask(cacheSize, divisor);
    NumSetsIsQuotient(cacheSize, divisor);
    if cacheSize >= divisor {
      forall tag: nat
        ensures Masked(tag, mask) < NumSets(mask)
      {
        SetIndexInRange(tag, mask);
      }
    } else {
      assert Masked(0, mask) >= 0;
    }
  }

  lemma SetIndexInRange(tag: nat, mask: uint32)
    requires IsPower2(NumSets(mask)) && NumSets(mask) > 0
    ensures Masked(tag, mask) == CacheModel.SetIndex(tag, NumSets(mask)) < NumSets(mask)
  {
    NumSetsIsPower(mask);
    var b: nat :| NumSets(mask) == Pow2(b) && mask == Pow2(b) - 1;
    LowMask(tag, b);
    DivModBack(tag, Pow2(b));
  }

  lemma NoSetsPass(mask: uint32)
    requires NumSets(mask) == 0
    ensures IsPower2(NumSets(mask)) && mask == UINT32_SPAN - 1
  {
    ZeroPasses();
  }

  /** A cache too small for one line per way passes the assertions and has no sets at all. */
  lemma TooSmallCachePasses(cacheSize: uint32, lineSize: uint32, associativity: uint32)
    requires IsPower2(lineSize) && Divisor(lineSize, associativity) > cacheSize
    ensures var mask := SetIndexMask(cacheSize, Divisor(lineSize, associativity));
            AssertsPass(lineSize, mask) && NumSets(mask) == 0 && mask == UINT32_SPAN - 1
  {
    var divisor := Divisor(lineSize, associativity);
    NumSetsIsQuotient(cacheSize, divisor);
    NoSetsPass(SetIndexMask(cacheSize, divisor));
  }

  /** The lines of a usable cache fit its size exactly when the product did not overflow. */
  lemma CapacityExactly(cacheSize: uint32, lineSize: uint32, associativity: uint32)
    requires Usable(cacheSize, lineSize, associativity)
    ensures var sets := NumSets(SetIndexMask(cacheSize, Divisor(lineSize, associativity)));
            Product(sets, Product(associativity, lineSize)) <= cacheSize
            <==> Product(associativity, lineSize) < UINT32_SPAN
  {
    var divisor := Divisor(lineSize, associativity);
    NumSetsIsQuotient(cacheSize, divisor);
    CapacityOf(cacheSize, divisor, Product(associativity, lineSize));
  }

  lemma CapacityOf(cacheSize: uint32, divisor: uint32, product: nat)
    requires 0 < divisor <= cacheSize && divisor == product % UINT32_SPAN
    ensures Product(cacheSize / divisor, product) <= cacheSize <==> product < UINT32_SPAN
  {
    var q := cacheSize / divisor;
    DivModBack(cacheSize, divisor);
    QuotientRange(cacheSize, divisor);
    if product >= UINT32_SPAN {
      MultipleIsLarge(product, q);
    } else {
      assert product == divisor;
    }
  }

  /** The tag and line offset put the address together again. */
  lemma SplitRoundTrip(layout: Layout, addr: nat)
    ensures addr == layout.Line(addr) * layout.LineSize() + Masked(addr, layout.LineSize() - 1)
    ensures 0 <= Masked(addr, layout.LineSize() - 1) < layout.LineSize()
  {
    ShiftRightDivides(addr, layout.lineShift);
    LowMask(addr, layout.lineShift);
    DivModBack(addr, layout.LineSize());
  }

  /** Masking with `~(lineSize - 1)` yields the start of the line. */
  lemma NotLineMaskClearsOffset(layout: Layout, addr: nat)
    requires layout.Valid() && addr < layout.Span()
    ensures layout.LastStart() >= 0
    ensures Masked(addr, layout.Span() - 1 - (layout.LineSize() - 1)) == layout.Start(layout.Line(addr))
  {
    layout.SpanIsLines();
    layout.NextLineCases(addr);
    FieldMask(addr, layout.lineShift, layout.width - layout.lineShift);
    assert layout.Start(layout.Lines() - 1) == layout.LastStart();
    SmallRemainder(layout.Line(addr), layout.Lines());
  }

  lemma ZeroProduct(a: uint32, b: uint32)
    ensures a == 0 || b == 0 ==> Product(a, b) == 0
  {
  }

  lemma PositiveSizes(lineSize: uint32, associativity: uint32)
    requires Divisor(lineSize, associativity) > 0
    ensures lineSize > 0 && associativity > 0
  {
    ZeroProduct(associativity, lineSize);
  }

  /** The logarithm of a line size is exact. */
  lemma ShiftOfPower(lineSize: uint32, shift: nat)
    requires IsPower2(lineSize) && Pow2(shift) <= lineSize < Pow2(shift + 1)
    ensures lineSize == Pow2(shift)
  {
    PowerOf(lineSize);
    var k: nat :| lineSize == Pow2(k);
    if k < shift {
      Pow2Monotone(k, shift);
    } else if k > shift {
      Pow2Monotone(shift + 1, k);
    }
  }

  lemma SmallRemainder(n: nat, d: nat)
    requires n < d
    ensures n % d == n
  {
    DivModUnique(n, d, 0, n);
  }
}
