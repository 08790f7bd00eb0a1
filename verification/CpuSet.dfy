/** A set of CPU numbers packed into an array of machine words. */
module CpuSet {
  import opened Bits

  /** The bits of an unsigned long, which is also the width of a size_t. */
  type WordBits = n: nat | n == 32 || n == 64 witness 64

  /** The word that holds a CPU's bit, and the mask of its bit there. */
  function Element(cpu: nat, bits: WordBits): nat { cpu / bits }

  function BitInWord(cpu: nat, bits: WordBits): nat { Masked(cpu, bits - 1) }

  function Mask(cpu: nat, bits: WordBits): nat { ShiftLeft(1, BitInWord(cpu, bits)) }

  /** The size in bytes of so many words. */
  function SizeOf(words: nat, bits: WordBits): nat { words * (bits / 8) }

  predicate AreWords(words: seq<nat>, bits: WordBits) {
    forall w <- words :: w < Pow2(bits)
  }

  /** The CPU numbers an array of words stands for. */
  predicate Member(words: seq<nat>, bits: WordBits, cpu: nat) {
    Element(cpu, bits) < |words| && Bit(words[Element(cpu, bits)], BitInWord(cpu, bits))
  }

  ghost function Members(words: seq<nat>, bits: WordBits): set<nat> {
    set cpu | 0 <= cpu < 8 * SizeOf(|words|, bits) && Member(words, bits, cpu)
  }

  lemma LowBits(cpu: nat, bits: WordBits)
    ensures BitInWord(cpu, bits) == cpu % bits
  {
    if bits == 32 {
      assert Pow2(5) == 32;
      LowMask(cpu, 5);
    } else {
      assert Pow2(6) == 64;
      LowMask(cpu, 6);
    }
  }

  lemma {:induction false} PositionFacts(cpu: nat, bits: WordBits)
    ensures cpu == Element(cpu, bits) * bits + BitInWord(cpu, bits)
    ensures BitInWord(cpu, bits) < bits
    ensures Mask(cpu, bits) == Pow2(BitInWord(cpu, bits)) < Pow2(bits)
  {
    LowBits(cpu, bits);
    DivisionByWord(cpu, bits);
    var k := BitInWord(cpu, bits);
    PowerIsShiftedOne(k);
    Pow2Monotone(k, bits);
  }

  lemma DivisionByWord(n: nat, bits: WordBits)
    ensures n == n / bits * bits + n % bits && n % bits < bits
  {
  }

  /** Every bit of every word is some CPU's. */
  lemma PositionOf(element: nat, k: nat, bits: WordBits)
    requires k < bits
    ensures Element(element * bits + k, bits) == element && BitInWord(element * bits + k, bits) == k
  {
    LowBits(element * bits + k, bits);
    if bits == 32 {
      assert (element * 32 + k) / 32 == element;
    } else {
      assert (element * 64 + k) / 64 == element;
    }
  }

  lemma SamePosition(cpu: nat, other: nat, bits: WordBits)
    ensures cpu == other <==>
            Element(cpu, bits) == Element(other, bits) && BitInWord(cpu, bits) == BitInWord(other, bits)
  {
    PositionFacts(cpu, bits);
    PositionFacts(other, bits);
  }

  lemma InSizeExactly(cpu: nat, words: nat, bits: WordBits)
    ensures cpu < 8 * SizeOf(words, bits) <==> Element(cpu, bits) < words
  {
  }

  lemma MembersExactly(words: seq<nat>, bits: WordBits, cpu: nat)
    ensures cpu in Members(words, bits) <==> Member(words, bits, cpu)
  {
    InSizeExactly(cpu, |words|, bits);
  }

  // ----- One CPU -----

  /** Combining one word with the CPU's mask changes that CPU's bit only. */
  lemma {:induction false} CombinedWithMask(op: BitOp, word: nat, cpu: nat, bits: WordBits)
    requires word < Pow2(bits) && (op == Or || op == AndNot)
    ensures op.OnWords(word, Mask(cpu, bits)) < Pow2(bits)
    ensures forall k: nat :: Bit(op.OnWords(word, Mask(cpu, bits)), k)
              <==> if k == BitInWord(cpu, bits) then op == Or else Bit(word, k)
  {
    PositionFacts(cpu, bits);
    OperatorStaysInWord(op, word, Mask(cpu, bits), bits);
    forall k: nat
      ensures Bit(op.OnWords(word, Mask(cpu, bits)), k) == op.OnBits(Bit(word, k), k == BitInWord(cpu, bits))
    {
      OperatorActsBitByBit(op, word, Mask(cpu, bits), k);
      PowerHasOneBit(BitInWord(cpu, bits), k);
    }
  }

  lemma UpdatedMembers(op: BitOp, words: seq<nat>, cpu: nat, bits: WordBits, after: seq<nat>)
    requires AreWords(words, bits) && (op == Or || op == AndNot)
    requires Element(cpu, bits) < |words|
    requires after == words[Element(cpu, bits) := op.OnWords(words[Element(cpu, bits)], Mask(cpu, bits))]
    ensures AreWords(after, bits)
    ensures Members(after, bits) == if op == Or then Members(words, bits) + {cpu} else Members(words, bits) - {cpu}
  {
    var e := Element(cpu, bits);
    assert words[e] in words;
    CombinedWithMask(op, words[e], cpu, bits);
    UpdatedAreWords(words, e, after[e], bits);
    forall other: nat
      ensures other in Members(after, bits) <==> if other == cpu then op == Or else other in Members(words, bits)
    {
      UpdatedMember(words, after, cpu, bits, op == Or, other);
    }
    OneMemberChanged(Members(words, bits), Members(after, bits), cpu, op == Or);
  }

  lemma {:induction false} UpdatedAreWords(words: seq<nat>, e: nat, word: nat, bits: WordBits)
    requires AreWords(words, bits) && e < |words| && word < Pow2(bits)
    ensures AreWords(words[e := word], bits)
  {
    var after := words[e := word];
    forall i | 0 <= i < |after|
      ensures after[i] < Pow2(bits)
    {
      assert i != e ==> after[i] == words[i] && words[i] in words;
    }
  }

  lemma UpdatedMember(words: seq<nat>, after: seq<nat>, cpu: nat, bits: WordBits, insert: bool, other: nat)
    requires Element(cpu, bits) < |words| == |after|
    requires after == words[Element(cpu, bits) := after[Element(cpu, bits)]]
    requires var e := Element(cpu, bits);
             forall k: nat :: Bit(after[e], k) <==> if k == BitInWord(cpu, bits) then insert else Bit(words[e], k)
    ensures other in Members(after, bits) <==> if other == cpu then insert else other in Members(words, bits)
  {
    MembersExactly(after, bits, other);
    MembersExactly(words, bits, other);
    SamePosition(cpu, other, bits);
  }

  lemma OneMemberChanged(members: set<nat>, after: set<nat>, cpu: nat, insert: bool)
    requires forall other: nat :: other in after <==> if other == cpu then insert else other in members
    ensures after == if insert then members + {cpu} else members - {cpu}
  {
  }

  /** The numbers a set of so many bytes has room for; the product wraps around in a size_t. */
  function Room(setSize: nat, bits: WordBits): nat { (8 * setSize) % Pow2(bits) }

  lemma {:induction false} RoomExactly(setSize: nat, bits: WordBits)
    ensures Room(setSize, bits) <= 8 * setSize
    ensures Room(setSize, bits) == 8 * setSize <==> 8 * setSize < Pow2(bits)
  {
    RemainderExactly(8 * setSize, Pow2(bits));
  }

  lemma RemainderExactly(n: nat, d: nat)
    requires d > 0
    ensures 0 <= n % d <= n && (n % d == n <==> n < d)
  {
    if n < d {
      DivModUnique(n, d, 0, n);
    } else {
      assert n % d < d;
    }
  }

  lemma {:induction false} RoomIsInBuffer(cpu: nat, setSize: nat, words: nat, bits: WordBits)
    requires cpu < Room(setSize, bits) && setSize <= SizeOf(words, bits)
    ensures Element(cpu, bits) < words
  {
    RoomExactly(setSize, bits);
    InSizeExactly(cpu, words, bits);
  }

  /** CPU_SET_S: inserts a CPU number the set has room for, and ignores any other. */
  method Insert(cpu: nat, setSize: nat, cpus: array<nat>, bits: WordBits)
    requires setSize <= SizeOf(cpus.Length, bits) && AreWords(cpus[..], bits)
    modifies cpus
    ensures AreWords(cpus[..], bits)
    ensures Members(cpus[..], bits) == old(Members(cpus[..], bits)) + if cpu < Room(setSize, bits) then {cpu} else {}
  {
    if cpu < Room(setSize, bits) {
      RoomIsInBuffer(cpu, setSize, cpus.Length, bits);
      ghost var before := cpus[..];
      var e := Element(cpu, bits);
      cpus[e] := Or.OnWords(cpus[e], Mask(cpu, bits));
      UpdatedMembers(Or, before, cpu, bits, cpus[..]);
    }
  }

  /** CPU_CLR_S: removes a CPU number the set has room for, and ignores any other. */
  method Remove(cpu: nat, setSize: nat, cpus: array<nat>, bits: WordBits)
    requires setSize <= SizeOf(cpus.Length, bits) && AreWords(cpus[..], bits)
    modifies cpus
    ensures AreWords(cpus[..], bits)
    ensures Members(cpus[..], bits) == old(Members(cpus[..], bits)) - if cpu < Room(setSize, bits) then {cpu} else {}
  {
    if cpu < Room(setSize, bits) {
      RoomIsInBuffer(cpu, setSize, cpus.Length, bits);
      ghost var before := cpus[..];
      var e := Element(cpu, bits);
      cpus[e] := AndNot.OnWords(cpus[e], Mask(cpu, bits));
      UpdatedMembers(AndNot, before, cpu, bits, cpus[..]);
    }
  }

  /** CPU_ISSET_S: membership, false for numbers the set has no room for. */
  method Contains(cpu: nat, setSize: nat, cpus: array<nat>, bits: WordBits) returns (found: bool)
    requires setSize <= SizeOf(cpus.Length, bits) && AreWords(cpus[..], bits)
    ensures found <==> cpu < Room(setSize, bits) && cpu in Members(cpus[..], bits)
  {
    MembersExactly(cpus[..], bits, cpu);
    if cpu < Room(setSize, bits) {
      RoomIsInBuffer(cpu, setSize, cpus.Length, bits);
      MaskTestsBit(cpus[Element(cpu, bits)], cpu, bits);
      found := Masked(cpus[Element(cpu, bits)], Mask(cpu, bits)) != 0;
    } else {
      found := false;
    }
  }

  lemma {:induction false} MaskTestsBit(word: nat, cpu: nat, bits: WordBits)
    ensures Masked(word, Mask(cpu, bits)) != 0 <==> Bit(word, BitInWord(cpu, bits))
  {
    PositionFacts(cpu, bits);
    var k := BitInWord(cpu, bits);
    var m := Masked(word, Pow2(k));
    OperatorActsBitByBit(And, word, Pow2(k), k);
    PowerHasOneBit(k, k);
    if Bit(m, k) {
      ZeroHasNoBits(k);
    } else {
      NoBitsInMask(word, k);
    }
  }

  lemma {:induction false} NoBitsInMask(word: nat, k: nat)
    requires !Bit(word, k)
    ensures Masked(word, Pow2(k)) == 0
    decreases k
  {
    if k == 0 {
      MaskZero(word / 2);
    } else {
      NoBitsInMask(word / 2, k - 1);
    }
  }

  // ----- Whole sets -----

  ghost function Combined(op: BitOp, a: set<nat>, b: set<nat>): set<nat> {
    match op
    case And => a * b
    case Or => a + b
    case Xor => (a - b) + (b - a)
    case AndNot => a - b
  }

  /** The words after combining the first `n`. */
  function CombinedWords(op: BitOp, dst: seq<nat>, a: seq<nat>, b: seq<nat>, n: nat): seq<nat>
    requires n <= |dst| && n <= |a| && n <= |b|
  {
    seq(|dst|, i requires 0 <= i < |dst| => if i < n then op.OnWords(a[i], b[i]) else dst[i])
  }

  ghost function Below(members: set<nat>, n: nat): set<nat> {
    set cpu | cpu in members && cpu < n
  }

  ghost function From(members: set<nat>, n: nat): set<nat> {
    members - Below(members, n)
  }

  /** Combining words combines the sets below the last combined word and leaves the rest. */
  lemma WordwiseIsSetwise(op: BitOp, dst: seq<nat>, a: seq<nat>, b: seq<nat>, n: nat, bits: WordBits)
    requires n <= |dst| && n <= |a| && n <= |b| && AreWords(dst, bits) && AreWords(a, bits) && AreWords(b, bits)
    ensures var c, whole := CombinedWords(op, dst, a, b, n), 8 * SizeOf(n, bits);
            && AreWords(c, bits)
            && Below(Members(c, bits), whole) == Below(Combined(op, Members(a, bits), Members(b, bits)), whole)
            && From(Members(c, bits), whole) == From(Members(dst, bits), whole)
  {
    var c, whole := CombinedWords(op, dst, a, b, n), 8 * SizeOf(n, bits);
    CombinedAreWords(op, dst, a, b, n, bits);
    forall cpu: nat
      ensures cpu in Members(c, bits) <==>
              cpu in if cpu < whole then Combined(op, Members(a, bits), Members(b, bits)) else Members(dst, bits)
    {
      CombinedMember(op, dst, a, b, n, bits, cpu);
    }
    ChangedBelow(Members(c, bits), Combined(op, Members(a, bits), Members(b, bits)), Members(dst, bits), whole);
  }

  lemma ChangedBelow(after: set<nat>, combined: set<nat>, before: set<nat>, n: nat)
    requires forall cpu: nat :: cpu in after <==> cpu in if cpu < n then combined else before
    ensures Below(after, n) == Below(combined, n) && From(after, n) == From(before, n)
  {
  }

  lemma CombinedAreWords(op: BitOp, dst: seq<nat>, a: seq<nat>, b: seq<nat>, n: nat, bits: WordBits)
    requires n <= |dst| && n <= |a| && n <= |b| && AreWords(dst, bits) && AreWords(a, bits) && AreWords(b, bits)
    ensures AreWords(CombinedWords(op, dst, a, b, n), bits)
  {
    forall i | 0 <= i < |dst|
      ensures CombinedWords(op, dst, a, b, n)[i] < Pow2(bits)
    {
      if i < n {
        CombinedIsWord(op, a, b, i, bits);
      } else {
        assert dst[i] in dst;
      }
    }
  }

  lemma {:induction false} CombinedIsWord(op: BitOp, a: seq<nat>, b: seq<nat>, i: nat, bits: WordBits)
    requires i < |a| && i < |b| && AreWords(a, bits) && AreWords(b, bits)
    ensures op.OnWords(a[i], b[i]) < Pow2(bits)
  {
    assert a[i] in a && b[i] in b;
    OperatorStaysInWord(op, a[i], b[i], bits);
  }

  lemma CombinedMember(op: BitOp, dst: seq<nat>, a: seq<nat>, b: seq<nat>, n: nat, bits: WordBits, cpu: nat)
    requires n <= |dst| && n <= |a| && n <= |b|
    ensures cpu in Members(CombinedWords(op, dst, a, b, n), bits) <==>
            cpu in if cpu < 8 * SizeOf(n, bits) then Combined(op, Members(a, bits), Members(b, bits))
                   else Members(dst, bits)
  {
    MembersExactly(a, bits, cpu);
    MembersExactly(b, bits, cpu);
    MembersExactly(dst, bits, cpu);
    MembersExactly(CombinedWords(op, dst, a, b, n), bits, cpu);
    InSizeExactly(cpu, n, bits);
    var i := Element(cpu, bits);
    if i < n {
      OperatorActsBitByBit(op, a[i], b[i], BitInWord(cpu, bits));
    }
  }

  /** The number of whole words in a set of so many bytes. */
  function WholeWords(setSize: nat, bits: WordBits): nat { setSize / (bits / 8) }

  lemma WholeWordsExactly(setSize: nat, bits: WordBits)
    ensures SizeOf(WholeWords(setSize, bits), bits) <= setSize
    ensures SizeOf(WholeWords(setSize, bits), bits) == setSize <==> setSize % (bits / 8) == 0
    ensures forall words: nat :: setSize <= SizeOf(words, bits) ==> WholeWords(setSize, bits) <= words
    ensures forall words: nat ::
              setSize <= SizeOf(words, bits) && setSize % (bits / 8) != 0 ==> WholeWords(setSize, bits) < words
  {
    if bits == 32 {
      assert setSize == setSize / 4 * 4 + setSize % 4;
    } else {
      assert setSize == setSize / 8 * 8 + setSize % 8;
    }
  }

  /** Buffers of words that hold so many bytes. */
  predicate AreBuffers(dst: seq<nat>, a: seq<nat>, b: seq<nat>, setSize: nat, bits: WordBits) {
    && AreWords(dst, bits) && AreWords(a, bits) && AreWords(b, bits)
    && setSize <= SizeOf(|dst|, bits) && setSize <= SizeOf(|a|, bits) && setSize <= SizeOf(|b|, bits)
  }

  /** __CPU_OP_S: combines two sets word by word; the destination may be either source. The bytes beyond the
      last whole word are not combined. */
  method Combine(op: BitOp, setSize: nat, dst: array<nat>, src1: array<nat>, src2: array<nat>, bits: WordBits)
    requires AreBuffers(dst[..], src1[..], src2[..], setSize, bits)
    modifies dst
    ensures AreWords(dst[..], bits) && WholeWords(setSize, bits) <= dst.Length
    ensures WholeWords(setSize, bits) <= src1.Length && WholeWords(setSize, bits) <= src2.Length
    ensures dst[..] == CombinedWords(op, old(dst[..]), old(src1[..]), old(src2[..]), WholeWords(setSize, bits))
    ensures var whole := 8 * SizeOf(WholeWords(setSize, bits), bits);
            && Below(Members(dst[..], bits), whole)
               == Below(Combined(op, old(Members(src1[..], bits)), old(Members(src2[..], bits))), whole)
            && From(Members(dst[..], bits), whole) == From(old(Members(dst[..], bits)), whole)
  {
    WholeWordsExactly(setSize, bits);
    ghost var d, a, b := dst[..], src1[..], src2[..];
    var n, max := 0, WholeWords(setSize, bits);
    while n < max
      invariant 0 <= n <= max
      invariant forall k | n <= k < max :: src1[k] == a[k] && src2[k] == b[k]
      invariant forall k | 0 <= k < n :: dst[k] == op.OnWords(a[k], b[k])
      invariant forall k | n <= k < dst.Length :: dst[k] == d[k]
    {
      dst[n] := op.OnWords(src1[n], src2[n]);
      n := n + 1;
    }
    assert dst[..] == CombinedWords(op, d, a, b, max);
    WordwiseIsSetwise(op, d, a, b, max, bits);
  }

  /** Combining covers all numbers below eight times the size, whatever the sets, exactly when the size is a
      multiple of the word size. */
  lemma CombineCoversExactly(op: BitOp, setSize: nat, bits: WordBits)
    ensures (forall dst, a, b | AreBuffers(dst, a, b, setSize, bits) :: Covers(op, dst, a, b, setSize, bits))
            <==> setSize % (bits / 8) == 0
  {
    WholeWordsExactly(setSize, bits);
    if setSize % (bits / 8) == 0 {
      forall dst, a, b | AreBuffers(dst, a, b, setSize, bits)
        ensures Covers(op, dst, a, b, setSize, bits)
      {
        WordwiseIsSetwise(op, dst, a, b, WholeWords(setSize, bits), bits);
      }
    } else {
      var n := WholeWords(setSize, bits);
      var zeros, dst := seq(n + 1, _ => 0), seq(n + 1, _ => 1);
      PartialWordFails(op, setSize, bits, zeros, dst);
    }
  }

  /** The combination of two sets, on all numbers below eight times the size. */
  ghost predicate Covers(op: BitOp, dst: seq<nat>, a: seq<nat>, b: seq<nat>, setSize: nat, bits: WordBits)
    requires AreBuffers(dst, a, b, setSize, bits)
  {
    WholeWordsExactly(setSize, bits);
    var c := CombinedWords(op, dst, a, b, WholeWords(setSize, bits));
    Below(Members(c, bits), 8 * setSize) == Below(Combined(op, Members(a, bits), Members(b, bits)), 8 * setSize)
  }

  /** Two empty sets combined into one whose last word is started but not whole leave a member there. */
  lemma PartialWordFails(op: BitOp, setSize: nat, bits: WordBits, zeros: seq<nat>, dst: seq<nat>)
    requires setSize % (bits / 8) != 0
    requires |zeros| == |dst| == WholeWords(setSize, bits) + 1
    requires (forall word <- zeros :: word == 0) && forall word <- dst :: word == 1
    ensures AreBuffers(dst, zeros, zeros, setSize, bits) && !Covers(op, dst, zeros, zeros, setSize, bits)
  {
    var n := WholeWords(setSize, bits);
    WordIsLarge(bits);
    PartialSize(setSize, bits);
    var cpu := 8 * SizeOf(n, bits);
    assert dst[n] in dst;
    StaysMember(op, bits, zeros, dst, n);
    EmptyWords(zeros, bits);
    assert cpu in Below(Members(CombinedWords(op, dst, zeros, zeros, n), bits), 8 * setSize);
    assert cpu !in Combined(op, {}, {});
  }

  lemma StaysMember(op: BitOp, bits: WordBits, zeros: seq<nat>, dst: seq<nat>, n: nat)
    requires |zeros| == |dst| == n + 1 && dst[n] == 1
    ensures 8 * SizeOf(n, bits) in Members(CombinedWords(op, dst, zeros, zeros, n), bits)
  {
    var cpu := 8 * SizeOf(n, bits);
    FirstOfWord(n, bits);
    MembersExactly(dst, bits, cpu);
    CombinedMember(op, dst, zeros, zeros, n, bits, cpu);
  }

  lemma FirstOfWord(n: nat, bits: WordBits)
    ensures Element(8 * SizeOf(n, bits), bits) == n && BitInWord(8 * SizeOf(n, bits), bits) == 0
  {
    PositionOf(n, 0, bits);
    assert 8 * SizeOf(n, bits) == n * bits + 0;
  }

  lemma PartialSize(setSize: nat, bits: WordBits)
    requires setSize % (bits / 8) != 0
    ensures var n := WholeWords(setSize, bits);
            setSize <= SizeOf(n + 1, bits) && 8 * SizeOf(n, bits) == n * bits < 8 * setSize
  {
    if bits == 32 {
      assert setSize == setSize / 4 * 4 + setSize % 4;
    } else {
      assert setSize == setSize / 8 * 8 + setSize % 8;
    }
  }

  lemma EmptyWords(zeros: seq<nat>, bits: WordBits)
    requires forall word <- zeros :: word == 0
    ensures Members(zeros, bits) == {}
  {
    forall cpu: nat
      ensures cpu !in Members(zeros, bits)
    {
      MembersExactly(zeros, bits, cpu);
      ZeroHasNoBits(BitInWord(cpu, bits));
      assert Element(cpu, bits) < |zeros| ==> zeros[Element(cpu, bits)] in zeros;
    }
  }

  /** CPU_ZERO_S. */
  method Clear(cpus: array<nat>, bits: WordBits)
    modifies cpus
    ensures AreWords(cpus[..], bits) && Members(cpus[..], bits) == {}
  {
    forall i | 0 <= i < cpus.Length {
      cpus[i] := 0;
    }
    EmptyWords(cpus[..], bits);
  }

  /** CPU_EQUAL_S compares the words, which decides equality of the sets. */
  lemma EqualWordsExactly(a: seq<nat>, b: seq<nat>, bits: WordBits)
    requires |a| == |b| && AreWords(a, bits) && AreWords(b, bits)
    ensures a == b <==> Members(a, bits) == Members(b, bits)
  {
    if Members(a, bits) == Members(b, bits) {
      forall i | 0 <= i < |a|
        ensures a[i] == b[i]
      {
        assert a[i] in a && b[i] in b;
        forall k | 0 <= k < bits
          ensures Bit(a[i], k) == Bit(b[i], k)
        {
          BitIsMember(a, bits, i, k);
          BitIsMember(b, bits, i, k);
        }
        WordsEqualWhenBitsAgree(a[i], b[i], bits);
      }
    }
  }

  lemma {:induction false} BitIsMember(words: seq<nat>, bits: WordBits, i: nat, k: nat)
    requires i < |words| && k < bits
    ensures Bit(words[i], k) <==> i * bits + k in Members(words, bits)
  {
    PositionOf(i, k, bits);
    MembersExactly(words, bits, i * bits + k);
  }

  // ----- How much to allocate -----

  /** The sum of two words in a size_t. */
  function Plus(a: nat, b: nat, bits: WordBits): nat
    requires a < Pow2(bits) && b < Pow2(bits)
  {
    if a + b < Pow2(bits) then a + b else a + b - Pow2(bits)
  }

  /** CPU_ALLOC_SIZE. */
  function AllocSize(count: nat, bits: WordBits): nat
    requires count < Pow2(bits)
  {
    WordIsLarge(bits);
    SizeOf(Element(Plus(count, bits - 1, bits), bits), bits)
  }

  lemma {:induction false} PowerAboveExponent(k: nat)
    ensures k < Pow2(k)
  {
    if k > 0 {
      PowerAboveExponent(k - 1);
    }
  }

  lemma {:induction false} WordIsLarge(bits: WordBits)
    ensures bits < Pow2(bits)
  {
    PowerAboveExponent(bits);
  }

  /** The size is the least multiple of the word size with room for `count` numbers, exactly when
      rounding up does not wrap around. */
  lemma {:induction false} AllocSizeExactly(count: nat, bits: WordBits)
    requires count < Pow2(bits)
    ensures 8 * AllocSize(count, bits) >= count <==> count + (bits - 1) < Pow2(bits)
    ensures count + (bits - 1) < Pow2(bits) ==>
              forall words: nat :: 8 * SizeOf(words, bits) >= count ==> AllocSize(count, bits) <= SizeOf(words, bits)
  {
    AllocSizeValue(count, bits);
    RoundUp(count, bits);
  }

  lemma {:induction false} AllocSizeValue(count: nat, bits: WordBits)
    requires count < Pow2(bits)
    ensures AllocSize(count, bits) ==
            if count + (bits - 1) < Pow2(bits) then SizeOf(Element(count + (bits - 1), bits), bits) else 0
    ensures count + (bits - 1) >= Pow2(bits) ==> count > 0
  {
    WordIsLarge(bits);
    if count + (bits - 1) >= Pow2(bits) {
      TooSmall(count + (bits - 1) - Pow2(bits), bits);
    }
  }

  lemma RoundUp(count: nat, bits: WordBits)
    ensures var size := SizeOf(Element(count + (bits - 1), bits), bits);
            8 * size >= count && forall words: nat :: 8 * SizeOf(words, bits) >= count ==> size <= SizeOf(words, bits)
  {
    forall words: nat | 8 * SizeOf(words, bits) >= count
      ensures SizeOf(Element(count + (bits - 1), bits), bits) <= SizeOf(words, bits)
    {
      RoundUpIsLeast(count, bits, words);
    }
    RoundUpSuffices(count, bits);
  }

  lemma RoundUpSuffices(count: nat, bits: WordBits)
    ensures 8 * SizeOf(Element(count + (bits - 1), bits), bits) >= count
  {
    if bits == 32 {
      assert (count + 31) / 32 * 32 >= count;
    } else {
      assert (count + 63) / 64 * 64 >= count;
    }
  }

  lemma RoundUpIsLeast(count: nat, bits: WordBits, words: nat)
    requires 8 * SizeOf(words, bits) >= count
    ensures SizeOf(Element(count + (bits - 1), bits), bits) <= SizeOf(words, bits)
  {
    if bits == 32 {
      assert (count + 31) / 32 <= words;
    } else {
      assert (count + 63) / 64 <= words;
    }
  }

  lemma TooSmall(sum: nat, bits: WordBits)
    requires sum < bits
    ensures SizeOf(Element(sum, bits), bits) == 0
  {
  }
}
