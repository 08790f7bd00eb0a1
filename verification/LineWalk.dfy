/** How an access walks over cache lines: which lines the address loop of a multi-line access
    visits, when that loop ends, and when the visited lines are the lines of the accessed bytes. */
module LineWalk {
  import opened Bits

  /** Addresses have `width` bits and lines are `2^lineShift` bytes. A line size is a 32-bit number
      and an address is at least that wide, so an address space holds several lines. */
  datatype Layout = Layout(width: nat, lineShift: nat) {
    predicate Valid() {
      lineShift < 32 <= width
    }

    /** One past the largest address. */
    function Span(): nat { Pow2(width) }

    function LineSize(): nat { Pow2(lineShift) }

    /** Number of lines in the address space. */
    function Lines(): nat
      requires Valid()
    {
      Pow2(width - lineShift)
    }

    /** The line holding an address: its tag. */
    function Line(addr: nat): nat { ShiftRight(addr, lineShift) }

    /** First address of a line. */
    function Start(line: nat): nat { ShiftLeft(line, lineShift) }

    /** Sum of two addresses in a word of `width` bits. */
    function Plus(a: nat, b: nat): nat {
      if a + b < Span() then a + b else a + b - Span()
    }

    /** Start of the line after the one holding `addr`. */
    function NextLine(addr: nat): nat {
      Plus(Start(Line(addr)), LineSize())
    }

    /** The first address of the last line. */
    function LastStart(): int { Span() - LineSize() }

    /** The loop of an access of `size` bytes at `addr` ends. */
    predicate LoopEnds(addr: nat, size: nat) {
      Plus(addr, size) <= LastStart()
    }

    /** The value of the loop's address after `n` rounds. */
    function Rounds(addr: nat, n: nat): nat
      decreases n
    {
      if n == 0 then addr else Rounds(NextLine(addr), n - 1)
    }

    /** The lines visited from `addr` until an address at or above `high` is reached. */
    function Visited(addr: nat, high: nat): (lines: seq<nat>)
      requires Valid() && addr < Span() && high <= LastStart()
      ensures |lines| >= 1
      decreases if addr >= LastStart() then 1 else 0, Span() - addr
    {
      NextLineCases(addr);
      [Line(addr)] + if NextLine(addr) < high then Visited(NextLine(addr), high) else []
    }

    // ----- Lines tile the address space -----

    static lemma StartSum(line: nat, n: nat, k: nat)
      ensures ShiftLeft(line + n, k) == ShiftLeft(line, k) + ShiftLeft(n, k)
    {
      if k > 0 {
        StartSum(line, n, k - 1);
      }
    }

    lemma NextStart(line: nat)
      ensures Start(line + 1) == Start(line) + LineSize()
    {
      StartSum(line, 1, lineShift);
      PowerIsShiftedOne(lineShift);
    }

    static lemma {:induction false} PowerShifted(j: nat, k: nat)
      ensures ShiftLeft(Pow2(j), k) == Pow2(j + k)
    {
      if k > 0 {
        PowerShifted(j, k - 1);
      }
    }

    lemma StartMonotone(a: nat, b: nat)
      requires a < b
      ensures Start(a) + LineSize() <= Start(b)
    {
      StartSum(a + 1, b - a - 1, lineShift);
      NextStart(a);
    }

    /** An address lies in exactly one line. */
    lemma LineOf(addr: nat, line: nat)
      ensures Line(addr) == line <==> Start(line) <= addr < Start(line) + LineSize()
    {
      LineHolds(addr, lineShift);
      NextStart(Line(addr));
      if Line(addr) < line {
        StartMonotone(Line(addr), line);
      } else if line < Line(addr) {
        StartMonotone(line, Line(addr));
      }
    }

    static lemma {:induction false} LineHolds(addr: nat, k: nat)
      ensures ShiftLeft(ShiftRight(addr, k), k) <= addr < ShiftLeft(ShiftRight(addr, k), k) + Pow2(k)
    {
      if k > 0 {
        LineHolds(addr / 2, k - 1);
      }
    }

    lemma LineMonotone(a: nat, b: nat)
      requires a <= b
      ensures Line(a) <= Line(b)
    {
      LineOf(a, Line(a));
      LineOf(b, Line(b));
      if Line(b) < Line(a) {
        StartMonotone(Line(b), Line(a));
      }
    }

    lemma SpanIsLines()
      requires Valid()
      ensures Start(Lines()) == Span() && Lines() >= 2 && Start(Lines() - 1) == LastStart()
      ensures Span() >= 0x1_0000_0000 && LineSize() < Span()
    {
      PowerShifted(width - lineShift, lineShift);
      Pow2Monotone(0, width - lineShift);
      Pow2Monotone(lineShift, width);
      SpanIsLarge();
      NextStart(Lines() - 1);
    }

    lemma SpanIsLarge()
      requires Valid()
      ensures Span() >= 0x1_0000_0000
    {
      WordSizes();
      Pow2Monotone(32, width);
    }

    /** The next line starts further up, except after the last line, where it is address 0. */
    lemma NextLineCases(addr: nat)
      requires Valid() && addr < Span()
      ensures Line(addr) < Lines()
      ensures addr >= LastStart() <==> Line(addr) == Lines() - 1
      ensures 0 <= NextLine(addr) <= LastStart()
      ensures if addr >= LastStart() then NextLine(addr) == 0
              else addr < NextLine(addr) == Start(Line(addr) + 1) && Line(NextLine(addr)) == Line(addr) + 1
    {
      SpanIsLines();
      var line := Line(addr);
      LineOf(addr, line);
      LineOf(addr, Lines() - 1);
      NextStart(line);
      if line >= Lines() {
        if line > Lines() {
          StartMonotone(Lines(), line);
        }
      } else if line < Lines() - 1 {
        StartMonotone(line, Lines() - 1);
        LineOf(Start(line + 1), line + 1);
      }
    }

    // ----- When the loop ends -----

    /** The loop reaches an address at or above its bound exactly when the bound is not inside the
        last line; otherwise every round leaves the address below it, and the loop never ends. */
    lemma {:induction false} LoopEndsExactly(addr: nat, size: nat)
      requires Valid() && addr < Span() && size < 0x1_0000_0000
      ensures LoopEnds(addr, size) <==> exists n: nat :: n >= 1 && Rounds(addr, n) >= Plus(addr, size)
    {
      var high := Plus(addr, size);
      if LoopEnds(addr, size) {
        RoundsOfVisit(addr, high);
        assert Rounds(addr, |Visited(addr, high)|) >= high;
      } else {
        forall n: nat | n >= 1
          ensures Rounds(addr, n) < high
        {
          RoundsStayBelowLastLine(addr, n);
        }
      }
    }

    lemma {:induction false} RoundsOfVisit(addr: nat, high: nat)
      requires Valid() && addr < Span() && high <= LastStart()
      ensures Rounds(addr, |Visited(addr, high)|) >= high
      decreases if addr >= LastStart() then 1 else 0, Span() - addr
    {
      NextLineCases(addr);
      if NextLine(addr) < high {
        RoundsOfVisit(NextLine(addr), high);
      } else {
        assert Rounds(addr, 1) == Rounds(NextLine(addr), 0);
      }
    }

    lemma {:induction false} RoundsStayBelowLastLine(addr: nat, n: nat)
      requires Valid() && addr < Span() && n >= 1
      ensures Rounds(addr, n) <= LastStart()
      decreases n
    {
      NextLineCases(addr);
      if n == 1 {
        assert Rounds(addr, 1) == Rounds(NextLine(addr), 0);
      } else {
        RoundsStayBelowLastLine(NextLine(addr), n - 1);
      }
    }

    // ----- Which lines are visited -----

    /** `n` consecutive lines from `line` on, wrapping around at the end of the address space. */
    function Consecutive(line: nat, n: nat): seq<nat>
      requires Valid()
      decreases n
    {
      if n == 0 then [] else [line] + Consecutive(if line == Lines() - 1 then 0 else line + 1, n - 1)
    }

    lemma {:induction false} ConsecutiveLength(line: nat, n: nat)
      requires Valid()
      ensures |Consecutive(line, n)| == n
      decreases n
    {
      if n > 0 {
        ConsecutiveLength(if line == Lines() - 1 then 0 else line + 1, n - 1);
      }
    }

    lemma WrapStep(line: nat, k: nat)
      requires Valid() && line < Lines() && k >= 1
      ensures ((if line == Lines() - 1 then 0 else line + 1) + (k - 1)) % Lines() == (line + k) % Lines()
    {
      if line == Lines() - 1 {
        var n := Lines();
        DivModUnique(n + (k - 1), n, 1 + (k - 1) / n, (k - 1) % n);
      }
    }

    /** The k-th of consecutive lines, counted from 0, is `k` lines on. */
    lemma {:induction false} ConsecutiveAt(line: nat, n: nat, k: nat)
      requires Valid() && line < Lines() && k < n
      ensures |Consecutive(line, n)| == n
      ensures Consecutive(line, n)[k] == (line + k) % Lines()
      decreases n
    {
      ConsecutiveLength(line, n);
      if k == 0 {
        DivModUnique(line, Lines(), 0, line);
      } else {
        ConsecutiveAt(if line == Lines() - 1 then 0 else line + 1, n - 1, k - 1);
        WrapStep(line, k);
      }
    }

    /** Up to as many consecutive lines as there are, no line occurs twice. */
    lemma {:induction false} ConsecutiveDistinct(line: nat, n: nat, j: nat, k: nat)
      requires Valid() && line < Lines() && j < k < n <= Lines()
      ensures |Consecutive(line, n)| == n
      ensures Consecutive(line, n)[j] != Consecutive(line, n)[k]
    {
      ConsecutiveAt(line, n, j);
      ConsecutiveAt(line, n, k);
      NearbyRemainders(line + j, line + k, Lines());
    }

    static lemma NearbyRemainders(a: nat, b: nat, d: nat)
      requires a < b < a + d
      ensures a % d != b % d
    {
      var e := b / d - a / d;
      if a % d == b % d {
        assert d * e == d * (b / d) - d * (a / d);
        assert d * e == b - a;
        MultipleIsLarge(d, e);
      }
    }

    /** How many lines hold a byte of the access; an empty access still looks up one line. */
    function LineCount(addr: nat, size: nat): nat {
      if size == 0 then 1
      else
        LineMonotone(addr, addr + size - 1);
        Line(addr + size - 1) - Line(addr) + 1
    }

    /** An access that starts before the last line must end there at the latest; one that starts in
        the last line must reach the end of the address space. */
    predicate Covered(addr: nat, size: nat) {
      if addr < LastStart() then addr + size <= LastStart() else addr + size >= Span()
    }

    /** A loop that ends visits the lines of the accessed bytes, each once and in ascending
        order, exactly when the access is covered. */
    lemma {:induction false} VisitsTheAccessedLines(addr: nat, size: nat)
      requires Valid() && addr < Span() && size < 0x1_0000_0000 && LoopEnds(addr, size)
      ensures Visited(addr, Plus(addr, size)) == Consecutive(Line(addr), LineCount(addr, size))
              <==> Covered(addr, size)
    {
      if !Covered(addr, size) {
        UncoveredDiffers(addr, size);
      } else if addr < LastStart() {
        CoveredBeforeLastLine(addr, size);
      } else {
        CoveredAcrossTheEnd(addr, size);
      }
    }

    /** A covered access visits each line of its bytes once: the k-th visit is `k` lines after the first. */
    lemma {:induction false} CoveredVisitsAscend(addr: nat, size: nat)
      requires Valid() && addr < Span() && size < 0x1_0000_0000 && LoopEnds(addr, size) && Covered(addr, size)
      ensures var lines := Visited(addr, Plus(addr, size));
              && |lines| == LineCount(addr, size) <= Lines()
              && (forall k | 0 <= k < |lines| :: lines[k] == (Line(addr) + k) % Lines())
              && (forall j, k | 0 <= j < k < |lines| :: lines[j] != lines[k])
    {
      var lines, n := Visited(addr, Plus(addr, size)), LineCount(addr, size);
      VisitsTheAccessedLines(addr, size);
      NextLineCases(addr);
      ConsecutiveLength(Line(addr), n);
      CoveredLineCount(addr, size);
      forall k | 0 <= k < |lines|
        ensures lines[k] == (Line(addr) + k) % Lines()
      {
        ConsecutiveAt(Line(addr), n, k);
      }
      forall j, k | 0 <= j < k < |lines|
        ensures lines[j] != lines[k]
      {
        ConsecutiveDistinct(Line(addr), n, j, k);
      }
    }

    lemma CoveredLineCount(addr: nat, size: nat)
      requires Valid() && addr < Span() && size < 0x1_0000_0000 && LoopEnds(addr, size) && Covered(addr, size)
      ensures LineCount(addr, size) <= Lines()
    {
      SpanIsLines();
      NextLineCases(addr);
      if size > 0 {
        if addr + size <= Span() {
          NextLineCases(addr + size - 1);
        } else {
          LineAfterWrap(addr + size - 1 - Span());
          NextLineCases(addr + size - 1 - Span());
        }
      }
    }

    /** Number of lines from line `q` to the line of the last byte below `high`. */
    function ReachedCount(q: nat, high: nat): nat {
      if high == 0 || Line(high - 1) <= q then 1 else Line(high - 1) - q + 1
    }

    /** Before the last line, the visited lines are consecutive. */
    lemma {:induction false} VisitedAscends(addr: nat, high: nat)
      requires Valid() && addr < LastStart() && high <= LastStart()
      ensures Visited(addr, high) == Consecutive(Line(addr), ReachedCount(Line(addr), high))
      decreases Span() - addr
    {
      var q := Line(addr);
      NextLineCases(addr);
      if NextLine(addr) < high {
        LineOf(NextLine(addr), q + 1);
        LineMonotone(NextLine(addr), high - 1);
        VisitedAscends(NextLine(addr), high);
      } else {
        if high > 0 {
          LineMonotone(high - 1, NextLine(addr) - 1);
          NextStart(q);
          LineOf(NextLine(addr) - 1, q);
        }
        assert Consecutive(if q == Lines() - 1 then 0 else q + 1, 0) == [];
      }
    }

    lemma {:induction false} CoveredBeforeLastLine(addr: nat, size: nat)
      requires Valid() && addr < LastStart() && addr + size <= LastStart()
      ensures Visited(addr, Plus(addr, size)) == Consecutive(Line(addr), LineCount(addr, size))
    {
      VisitedAscends(addr, addr + size);
      if size > 0 {
        LineMonotone(addr, addr + size - 1);
      } else if addr > 0 {
        LineMonotone(addr - 1, addr);
      }
      assert ReachedCount(Line(addr), addr + size) == LineCount(addr, size);
    }

    lemma {:induction false} CoveredAcrossTheEnd(addr: nat, size: nat)
      requires Valid() && LastStart() <= addr < Span() && size < 0x1_0000_0000
      requires addr + size >= Span() && LoopEnds(addr, size)
      ensures Visited(addr, Plus(addr, size)) == Consecutive(Line(addr), LineCount(addr, size))
    {
      SpanIsLines();
      NextLineCases(addr);
      var high := addr + size - Span();
      LineOf(0, 0);
      StartSum(0, 0, lineShift);
      if high == 0 {
        NextLineCases(addr + size - 1);
        assert Consecutive(0, 0) == [];
      } else {
        VisitedAscends(0, high);
        LineMonotone(0, high - 1);
        LineAfterWrap(high - 1);
      }
    }

    lemma LineAfterWrap(addr: nat)
      requires Valid()
      ensures Line(Span() + addr) == Lines() + Line(addr)
    {
      SpanIsLines();
      StartSum(Lines(), Line(addr), lineShift);
      LineOf(addr, Line(addr));
      LineOf(Span() + addr, Lines() + Line(addr));
    }

    /** The visited lines of a covered access are the lines of its bytes. */
    lemma {:induction false} VisitsLinesOfBytes(addr: nat, size: nat, line: nat)
      requires Valid() && addr < Span() && size < 0x1_0000_0000 && LoopEnds(addr, size) && Covered(addr, size)
      requires size > 0
      ensures line in Visited(addr, Plus(addr, size)) <==> exists b | 0 <= b < size :: line == Line(Plus(addr, b))
    {
      var lines := Visited(addr, Plus(addr, size));
      CoveredVisitsAscend(addr, size);
      if line in lines {
        var k :| 0 <= k < |lines| && lines[k] == line;
        var b := ByteOfLine(addr, size, k);
        LineOfByte(addr, size, b);
      }
      if b :| 0 <= b < size && line == Line(Plus(addr, b)) {
        LineOfByte(addr, size, b);
        LineMonotone(addr, addr + b);
        LineMonotone(addr + b, addr + size - 1);
        assert lines[Line(addr + b) - Line(addr)] == line;
      }
    }

    /** The line of a byte, with or without wrapping around. */
    lemma {:induction false} LineOfByte(addr: nat, size: nat, b: nat)
      requires Valid() && addr < Span() && b < size < 0x1_0000_0000
      ensures Plus(addr, b) < Span() && Line(Plus(addr, b)) == Line(addr + b) % Lines()
    {
      SpanIsLines();
      var line := Line(Plus(addr, b));
      NextLineCases(Plus(addr, b));
      if addr + b >= Span() {
        LineAfterWrap(addr + b - Span());
        DivModUnique(Line(addr + b), Lines(), 1, line);
      } else {
        DivModUnique(line, Lines(), 0, line);
      }
    }

    /** A byte of the k-th line. */
    lemma {:induction false} ByteOfLine(addr: nat, size: nat, k: nat) returns (b: nat)
      requires size > 0 && k < LineCount(addr, size)
      ensures b < size && Line(addr + b) == Line(addr) + k
    {
      if k == 0 {
        b := 0;
      } else {
        var line := Line(addr) + k;
        LineOf(addr, Line(addr));
        LineOf(addr + size - 1, Line(addr + size - 1));
        StartMonotone(Line(addr), line);
        if line < Line(addr + size - 1) {
          StartMonotone(line, Line(addr + size - 1));
        }
        b := Start(line) - addr;
        LineOf(Start(line), line);
      }
    }

    /** An uncovered access either looks up one line where it holds bytes of several, because its
        wrapped end lies below its start, or is the empty access at the start of the last line,
        which goes on to look up line 0. */
    lemma {:induction false} UncoveredDiffers(addr: nat, size: nat)
      requires Valid() && addr < Span() && size < 0x1_0000_0000 && LoopEnds(addr, size)
      requires !Covered(addr, size)
      ensures |Visited(addr, Plus(addr, size))| != LineCount(addr, size)
      ensures Visited(addr, Plus(addr, size)) != Consecutive(Line(addr), LineCount(addr, size))
    {
      SpanIsLines();
      NextLineCases(addr);
      ConsecutiveLength(Line(addr), LineCount(addr, size));
      if addr < LastStart() {
        LineMonotone(Span() - 1, addr + size - 1);
        NextLineCases(Span() - 1);
      }
    }
  }
}
