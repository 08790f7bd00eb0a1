/** What holds of every run of a cache. */
module CacheTheorems {
  import opened Common
  import opened CacheModel

  // ----- Sets do not influence each other -----

  /** The events that concern set `i` of `numSets`: lookups of its lines, and flushes. */
  function Restrict(es: seq<Event>, i: nat, numSets: nat): seq<Event>
    requires numSets > 0
  {
    if es == [] then []
    else (if es[0].Touch? && SetIndex(es[0].line, numSets) != i then [] else [es[0]]) + Restrict(es[1..], i, numSets)
  }

  /** The outcomes of the lookups of lines of set `i`. */
  function OutcomesOf(log: seq<Outcome>, i: nat, numSets: nat): seq<Outcome>
    requires numSets > 0
  {
    if log == [] then []
    else (if SetIndex(log[0].line, numSets) != i then [] else [log[0]]) + OutcomesOf(log[1..], i, numSets)
  }

  /** Contents and outcomes of a set are those of running only its own events on it alone. */
  lemma {:induction false} SetIndependence(sets: Sets, es: seq<Event>, i: nat)
    requires i < |sets|
    ensures After(sets, es)[i] == sets[i].After(Restrict(es, i, |sets|))
    ensures OutcomesOf(Log(sets, es), i, |sets|) == sets[i].Log(Restrict(es, i, |sets|))
    decreases |es|
  {
    if es != [] {
      var e, rest := es[0], es[1..];
      SetIndependence(Apply(sets, e), rest, i);
      var mine := Restrict(rest, i, |sets|);
      if e.Touch? {
        var first := Outcome(e.line, Hits(sets, e.line));
        assert ([first] + Log(Apply(sets, e), rest))[1..] == Log(Apply(sets, e), rest);
        if SetIndex(e.line, |sets|) == i {
          assert ([e] + mine)[1..] == mine;
        } else {
          assert [] + mine == mine;
        }
      } else {
        assert ([e] + mine)[1..] == mine;
        assert [] + Log(Apply(sets, e), rest) == Log(Apply(sets, e), rest);
      }
    }
  }

  // ----- Lookups -----

  /** The outcome of a lookup in a run is whether its line is in its set at that moment. */
  lemma {:induction false} OutcomeIsPresence(sets: Sets, es: seq<Event>, k: nat)
    requires forall e <- es :: e.Touch?
    requires k < |es|
    ensures |Log(sets, es)| == |es|
    ensures Log(sets, es)[k] == Outcome(es[k].line, Hits(After(sets, es[..k]), es[k].line))
    decreases |es|
  {
    var next := Apply(sets, es[0]);
    if |es| > 1 {
      OutcomeIsPresence(next, es[1..], if k > 0 then k - 1 else 0);
    }
    if k > 0 {
      assert es[..k][1..] == es[1..][..k - 1];
    }
  }

  /** After an allocating lookup its line is present; a lookup that hits, or does not allocate, changes
      nothing. */
  lemma LookupEffect(sets: Sets, line: Tag, allocates: bool)
    requires forall s <- sets :: |s.Queue()| >= 1
    ensures var after := Apply(sets, Touch(line, allocates));
            && (allocates ==> Hits(after, line))
            && (Hits(sets, line) || !allocates ==> after == sets)
            && forall i | 0 <= i < |sets| && i != SetIndex(line, |sets|) :: after[i] == sets[i]
  {
    var i := SetIndex(line, |sets|);
    assert sets[i] in sets;
    if !sets[i].Find(line) {
      var q := sets[i].Replace(line).Queue();
      assert q[|q| - 1] == line;
    }
  }

  /** Stores of a cache that does not allocate on stores leave the sets alone; all other accesses leave
      the line of a single-line access present. */
  lemma PolicyDecides(c: Config, s: State, addr: nat, kind: Kind)
    requires forall m <- s.sets :: |m.Queue()| >= 1
    requires c.Accepts(AccessSingleLine(addr, kind))
    ensures var after := c.Step(s, AccessSingleLine(addr, kind)).sets;
            if kind == Store && c.policy == StoreNoAllocate then after == s.sets else Hits(after, c.layout.Line(addr))
  {
    var e := Touch(c.layout.Line(addr), c.Allocates(kind));
    LookupEffect(s.sets, e.line, e.allocates);
    assert After(s.sets, [e]) == After(Apply(s.sets, e), []);
  }

  /** Single-line accesses to the starts of the given lines. */
  function Singles(c: Config, lines: seq<Tag>, kind: Kind): seq<Operation> {
    if lines == [] then [] else [AccessSingleLine(c.layout.Start(lines[0]), kind)] + Singles(c, lines[1..], kind)
  }

  predicate AllTrue(results: seq<bool>) {
    forall r <- results :: r
  }

  /** A multi-line access has the effect on the sets of one single-line access per visited line, in
      order, and hits when they all do; but it counts once. */
  lemma {:induction false} AccessIsManySingles(c: Config, s: State, addr: nat, size: nat, kind: Kind)
    requires c.Accepts(Access(addr, size, kind))
    ensures var lines := c.layout.Visited(addr, c.layout.Plus(addr, size));
            var singles := Singles(c, lines, kind);
            var op := Access(addr, size, kind);
            && (forall single <- singles :: c.Accepts(single))
            && c.Run(s, singles).sets == c.Step(s, op).sets
            && c.Result(s, op) == AllTrue(c.Results(s, singles))
            && c.Step(s, op).stats == s.stats.Bump(kind, c.Result(s, op))
  {
    var lines := c.layout.Visited(addr, c.layout.Plus(addr, size));
    VisitedLinesExist(c, addr, c.layout.Plus(addr, size));
    SinglesAccepted(c, lines, kind);
    SinglesStep(c, s, lines, kind);
  }

  /** A covered access that is not empty looks up exactly the lines of its bytes. */
  lemma {:induction false} AccessLooksUpItsBytes(c: Config, addr: nat, size: nat, kind: Kind, line: Tag)
    requires c.Accepts(Access(addr, size, kind)) && c.layout.Covered(addr, size) && size > 0
    ensures (exists e <- c.Events(Access(addr, size, kind)) :: e.Touch? && e.line == line)
            <==> exists b | 0 <= b < size :: line == c.layout.Line(c.layout.Plus(addr, b))
  {
    var lines := c.layout.Visited(addr, c.layout.Plus(addr, size));
    var es := c.Events(Access(addr, size, kind));
    c.layout.VisitsLinesOfBytes(addr, size, line);
    assert forall k | 0 <= k < |lines| :: es[k].line == lines[k] && es[k] in es;
  }

  predicate Exist(c: Config, lines: seq<Tag>)
    requires c.layout.Valid()
  {
    forall line <- lines :: line < c.layout.Lines()
  }

  lemma ExistStep(c: Config, lines: seq<Tag>)
    requires c.layout.Valid() && lines != [] && Exist(c, lines)
    ensures lines[0] < c.layout.Lines() && Exist(c, lines[1..])
  {
    assert lines[0] in lines;
    assert forall line <- lines[1..] :: line in lines;
  }

  lemma {:induction false} VisitedLinesExist(c: Config, addr: nat, high: nat)
    requires c.layout.Valid() && addr < c.layout.Span() && high <= c.layout.LastStart()
    ensures Exist(c, c.layout.Visited(addr, high))
    decreases if addr >= c.layout.LastStart() then 1 else 0, c.layout.Span() - addr
  {
    c.layout.NextLineCases(addr);
    if c.layout.NextLine(addr) < high {
      VisitedLinesExist(c, c.layout.NextLine(addr), high);
    }
  }

  lemma StartIsAccepted(c: Config, line: nat, kind: Kind)
    requires c.layout.Valid() && line < c.layout.Lines()
    ensures c.Accepts(AccessSingleLine(c.layout.Start(line), kind))
    ensures c.layout.Line(c.layout.Start(line)) == line
  {
    c.layout.SpanIsLines();
    c.layout.StartMonotone(line, c.layout.Lines());
    c.layout.LineOf(c.layout.Start(line), line);
  }

  lemma {:induction false} SinglesAccepted(c: Config, lines: seq<Tag>, kind: Kind)
    requires c.layout.Valid() && Exist(c, lines)
    ensures forall single <- Singles(c, lines, kind) :: c.Accepts(single)
  {
    if lines != [] {
      ExistStep(c, lines);
      StartIsAccepted(c, lines[0], kind);
      SinglesAccepted(c, lines[1..], kind);
    }
  }

  lemma {:induction false} RunFirst(c: Config, s: State, op: Operation, rest: seq<Operation>)
    requires c.Accepts(op) && op.Counted() && forall o <- rest :: c.Accepts(o)
    ensures forall o <- [op] + rest :: c.Accepts(o)
    ensures c.Run(s, [op] + rest) == c.Run(c.Step(s, op), rest)
    ensures AllTrue(c.Results(s, [op] + rest)) <==> c.Result(s, op) && AllTrue(c.Results(c.Step(s, op), rest))
  {
    assert ([op] + rest)[1..] == rest;
    FirstResult(c.Result(s, op), c.Results(c.Step(s, op), rest));
  }

  lemma {:induction false} SinglesStep(c: Config, s: State, lines: seq<Tag>, kind: Kind)
    requires c.layout.Valid() && Exist(c, lines)
    requires forall single <- Singles(c, lines, kind) :: c.Accepts(single)
    ensures var singles := Singles(c, lines, kind);
            var events := Touches(lines, c.Allocates(kind));
            && c.Run(s, singles).sets == After(s.sets, events)
            && AllTrue(c.Results(s, singles)) == AllHit(Log(s.sets, events))
    decreases |lines|
  {
    if lines != [] {
      var op, e := AccessSingleLine(c.layout.Start(lines[0]), kind), Touch(lines[0], c.Allocates(kind));
      ExistStep(c, lines);
      SingleStep(c, s, lines[0], kind);
      SinglesAccepted(c, lines[1..], kind);
      SinglesStep(c, c.Step(s, op), lines[1..], kind);
      RunFirst(c, s, op, Singles(c, lines[1..], kind));
      TouchesFirst(lines[0], lines[1..], e.allocates);
      assert [lines[0]] + lines[1..] == lines;
      FirstTouch(s.sets, e.line, e.allocates, Touches(lines[1..], e.allocates));
    }
  }

  lemma SingleStep(c: Config, s: State, line: Tag, kind: Kind)
    requires c.layout.Valid() && line < c.layout.Lines()
    ensures var op := AccessSingleLine(c.layout.Start(line), kind);
            && c.Accepts(op)
            && c.Step(s, op).sets == Apply(s.sets, Touch(line, c.Allocates(kind)))
            && c.Result(s, op) == Hits(s.sets, line)
  {
    StartIsAccepted(c, line, kind);
    var e := Touch(line, c.Allocates(kind));
    FirstTouch(s.sets, e.line, e.allocates, []);
    assert [e] + [] == [e];
  }

  lemma FirstResult(first: bool, rest: seq<bool>)
    ensures AllTrue([first] + rest) <==> first && AllTrue(rest)
  {
    var all := [first] + rest;
    assert all[0] in all;
    assert forall r <- rest :: r in all;
  }

  // ----- A set is a FIFO queue -----

  predicate NoFlush(es: seq<Event>) {
    forall e <- es :: e.Touch?
  }

  /** The lines that misses install during a run, in order. */
  function Installed(s: SetModel, es: seq<Event>): seq<Tag>
    decreases |es|
  {
    if es == [] then []
    else (if es[0].Touch? && es[0].allocates && !s.Find(es[0].line) then [es[0].line] else [])
         + Installed(s.Apply(es[0]), es[1..])
  }

  /** After any run without a flush, a set holds the most recent entries of its old contents
      followed by the installed lines: as many as it has slots, oldest first. */
  lemma {:induction false} FifoContents(s: SetModel, es: seq<Event>)
    requires NoFlush(es) && |s.Queue()| >= 1
    ensures |s.After(es).Queue()| == |s.Queue()|
    ensures s.After(es).Queue() == (s.Queue() + Installed(s, es))[|Installed(s, es)|..]
  {
    FifoSoFar(s, es, s.After(es), Installed(s, es));
  }

  /** The last slots' worth of what a set has ever held. */
  function Newest(q: seq<Tag>, installed: seq<Tag>): seq<Tag> {
    (q + installed)[|installed|..]
  }

  lemma {:induction false} FifoSoFar(s: SetModel, es: seq<Event>, end: SetModel, installed: seq<Tag>)
    requires NoFlush(es) && |s.Queue()| >= 1 && end == s.After(es) && installed == Installed(s, es)
    ensures end.Queue() == Newest(s.Queue(), installed)
    decreases |es|
  {
    if es == [] {
      assert s.Queue() + [] == s.Queue();
    } else {
      var next, later := FirstEvent(s, es, end, installed);
      FifoSoFar(next, es[1..], end, later);
    }
  }

  /** The first event of a run, seen through the set it leads to and what is installed later. */
  lemma {:induction false} FirstEvent(s: SetModel, es: seq<Event>, end: SetModel, installed: seq<Tag>)
    returns (next: SetModel, later: seq<Tag>)
    requires es != [] && NoFlush(es) && |s.Queue()| >= 1 && end == s.After(es) && installed == Installed(s, es)
    ensures end == next.After(es[1..]) && later == Installed(next, es[1..])
    ensures |next.Queue()| == |s.Queue()| && Newest(next.Queue(), later) == Newest(s.Queue(), installed)
  {
    next := s.Apply(es[0]);
    later := Installed(next, es[1..]);
    if es[0].allocates && !s.Find(es[0].line) {
      assert next.Queue() == (s.Queue() + [es[0].line])[1..];
      PushOneByOne(s.Queue(), es[0].line, later);
    } else {
      assert installed == later;
    }
  }

  lemma PushOneByOne(q: seq<Tag>, line: Tag, later: seq<Tag>)
    requires |q| >= 1
    ensures Newest((q + [line])[1..], later) == Newest(q, [line] + later)
  {
    assert (q + [line])[1..] + later == (q + ([line] + later))[1..];
  }

  /** A line just installed survives exactly one replacement less than the set has slots, as long as
      it is not installed again. */
  lemma {:induction false} InstalledLineSurvives(s: SetModel, line: Tag, es: seq<Event>)
    requires NoFlush(es) && |s.Queue()| >= 1 && !s.Find(line)
    requires line !in Installed(s.Replace(line), es)
    ensures s.Replace(line).After(es).Find(line) <==> |Installed(s.Replace(line), es)| < |s.Queue()|
  {
    var now := s.Replace(line);
    var q, r := now.Queue(), Installed(now, es);
    FifoContents(now, es);
    var all, end := q + r, now.After(es).Queue();
    LastSlotIsNewest(s, line);
    assert forall k | 0 <= k < |end| :: end[k] == all[k + |r|];
    if |r| < |q| {
      assert end[|q| - 1 - |r|] == line;
    } else {
      assert forall k | 0 <= k < |end| :: end[k] in r;
    }
    assert now.After(es).Find(line) <==> line in end;
  }

  lemma LastSlotIsNewest(s: SetModel, line: Tag)
    requires |s.Queue()| >= 1
    ensures var q := s.Replace(line).Queue();
            |q| == |s.Queue()| && q[|q| - 1] == line
  {
  }

  // ----- FIFO is conservative -----

  predicate AllIn(xs: seq<Tag>, lines: set<Tag>) {
    forall x <- xs :: x in lines
  }

  /** Only allocating lookups, of the given lines. */
  predicate AllocatingIn(es: seq<Event>, lines: set<Tag>) {
    forall e <- es :: e.Touch? && e.allocates && e.line in lines
  }

  /** The lines of the lookups that missed. */
  function Misses(log: seq<Outcome>): seq<Tag> {
    if log == [] then []
    else (if log[0].hit then [] else [log[0].line]) + Misses(log[1..])
  }

  lemma {:induction false} MissesAreInstalled(s: SetModel, es: seq<Event>)
    requires forall e <- es :: e.Touch? && e.allocates
    ensures Misses(s.Log(es)) == Installed(s, es)
    decreases |es|
  {
    if es != [] {
      var next := s.Apply(es[0]);
      MissesAreInstalled(next, es[1..]);
      var log := next.Log(es[1..]);
      assert ([Outcome(es[0].line, s.Find(es[0].line))] + log)[1..] == log;
    }
  }

  lemma DistinctFitInSet(xs: seq<Tag>, lines: set<Tag>)
    requires Distinct(xs) && AllIn(xs, lines)
    ensures |xs| <= |lines|
  {
    if xs != [] {
      DistinctFitInSet(xs[1..], lines - {xs[0]});
    }
  }

  lemma {:induction false} InstalledStep(s: SetModel, missed: seq<Tag>, es: seq<Event>)
    requires es != [] && es[0].Touch? && es[0].allocates
    ensures if s.Find(es[0].line)
            then Installed(s, es) == Installed(s, es[1..])
            else missed + Installed(s, es) == missed + [es[0].line] + Installed(s.Replace(es[0].line), es[1..])
  {
  }

  /** While the newest slots are the lines missed so far, a line that misses is a new one. */
  lemma {:induction false} MissedLinesAreDistinct(s: SetModel, older: seq<Tag>, missed: seq<Tag>,
                                                  es: seq<Event>, lines: set<Tag>, all: seq<Tag>)
    requires AllocatingIn(es, lines) && all == missed + Installed(s, es)
    requires s.Queue() == older + missed
    requires Distinct(missed) && AllIn(missed, lines)
    requires |lines| <= |older| + |missed|
    ensures Distinct(all) && AllIn(all, lines)
    decreases |es|
  {
    if es == [] {
      assert missed + [] == missed;
    } else {
      var line := es[0].line;
      assert es[0] in es;
      InstalledStep(s, missed, es);
      if s.Find(line) {
        MissedLinesAreDistinct(s, older, missed, es[1..], lines, all);
      } else {
        MoreMissed(s, older, missed, line, lines);
        MissedLinesAreDistinct(s.Replace(line), older[1..], missed + [line], es[1..], lines, all);
      }
    }
  }

  lemma MoreMissed(s: SetModel, older: seq<Tag>, missed: seq<Tag>, line: Tag, lines: set<Tag>)
    requires s.Queue() == older + missed
    requires Distinct(missed) && AllIn(missed, lines)
    requires |lines| <= |older| + |missed| && line in lines && !s.Find(line)
    ensures Distinct(missed + [line]) && AllIn(missed + [line], lines)
    ensures |older| >= 1 && s.Replace(line).Queue() == older[1..] + (missed + [line])
  {
    assert line !in s.Queue();
    assert forall k | 0 <= k < |missed| :: missed[k] == s.Queue()[|older| + k];
    DistinctFitInSet(missed + [line], lines);
    assert (s.Queue() + [line])[1..] == older[1..] + (missed + [line]);
  }

  /** From any contents, allocating lookups in one set that touch no more distinct lines than the set
      has slots miss at most once per line, whatever happens in the other sets. */
  lemma {:induction false} FifoMissBound(sets: Sets, es: seq<Event>, i: nat, lines: set<Tag>)
    requires i < |sets|
    requires |lines| <= |sets[i].Queue()|
    requires AllocatingIn(Restrict(es, i, |sets|), lines)
    ensures var misses := Misses(OutcomesOf(Log(sets, es), i, |sets|));
            Distinct(misses) && |misses| <= |lines|
  {
    var mine := Restrict(es, i, |sets|);
    SetIndependence(sets, es, i);
    MissesAreInstalled(sets[i], mine);
    var misses := Installed(sets[i], mine);
    assert [] + misses == misses;
    assert sets[i].Queue() + [] == sets[i].Queue();
    MissedLinesAreDistinct(sets[i], sets[i].Queue(), [], mine, lines, misses);
    DistinctFitInSet(misses, lines);
  }

  /** In a new cache, allocating lookups in one set that touch no more distinct lines than the associativity
      miss at most once per line. */
  lemma {:induction false} NewCacheMissBound(n: nat, direct: bool, associativity: nat, es: seq<Event>, i: nat,
                                             lines: set<Tag>)
    requires i < n && (direct ==> associativity == 1) && |lines| <= associativity
    requires AllocatingIn(Restrict(es, i, n), lines)
    ensures var misses := Misses(OutcomesOf(Log(NewSets(n, direct, associativity), es), i, n));
            Distinct(misses) && |misses| <= |lines|
  {
    var sets := NewSets(n, direct, associativity);
    NewSetsAreCold(n, direct, associativity);
    assert sets[i] in sets;
    FifoMissBound(sets, es, i, lines);
  }

  // ----- What a tag says -----

  /** Nonzero tags occur once, in the set their line belongs to. */
  predicate WellPlaced(s: SetModel, i: nat, numSets: nat, ways: nat)
    requires numSets > 0
  {
    var q := s.Queue();
    && |q| == ways
    && (forall k | 0 <= k < |q| && q[k] != 0 :: SetIndex(q[k], numSets) == i)
    && (forall j, k | 0 <= j < k < |q| && q[j] != 0 :: q[j] != q[k])
  }

  predicate AllWellPlaced(sets: Sets, ways: nat) {
    forall i | 0 <= i < |sets| :: WellPlaced(sets[i], i, |sets|, ways)
  }

  /** Every reachable cache is well placed. */
  lemma {:induction false} ReachableWellPlaced(sets: Sets, ways: nat, es: seq<Event>)
    requires ways >= 1 && AllWellPlaced(sets, ways)
    ensures AllWellPlaced(After(sets, es), ways)
    decreases |es|
  {
    if es != [] {
      var next := Apply(sets, es[0]);
      forall i | 0 <= i < |next|
        ensures WellPlaced(next[i], i, |next|, ways)
      {
        if es[0].Flush? || SetIndex(es[0].line, |sets|) == i {
          ApplyWellPlaced(sets[i], i, |sets|, ways, es[0]);
        }
      }
      ReachableWellPlaced(next, ways, es[1..]);
    }
  }

  lemma ApplyWellPlaced(s: SetModel, i: nat, numSets: nat, ways: nat, e: Event)
    requires numSets > 0 && ways >= 1 && WellPlaced(s, i, numSets, ways)
    requires e.Touch? ==> SetIndex(e.line, numSets) == i
    ensures WellPlaced(s.Apply(e), i, numSets, ways)
  {
    var q := s.Queue();
    if e.Touch? && e.allocates && !s.Find(e.line) {
      assert s.Apply(e).Queue() == q[1..] + [e.line];
    }
  }

  lemma ColdIsWellPlaced(sets: Sets, ways: nat)
    requires Cold(sets) && forall s <- sets :: |s.Queue()| == ways
    ensures AllWellPlaced(sets, ways)
  {
    forall i | 0 <= i < |sets|
      ensures WellPlaced(sets[i], i, |sets|, ways)
    {
      assert sets[i] in sets;
      assert sets[i] == sets[i].Flush();
    }
  }

  /** After any run of operations on a new cache, no nonzero tag occurs twice in a set, every nonzero
      tag is in the set of its line, and outside set 0 the tag 0 is no line's. */
  lemma {:induction false} EveryRunIsWellPlaced(c: Config, s: State, ops: seq<Operation>, ways: nat)
    requires ways >= 1 && Cold(s.sets) && forall m <- s.sets :: |m.Queue()| == ways
    requires forall op <- ops :: c.Accepts(op)
    ensures AllWellPlaced(c.Run(s, ops).sets, ways) && |c.Run(s, ops).sets| == |s.sets|
    ensures SetIndex(0, |s.sets|) == 0
  {
    RunIsOneEventRun(c, s, ops);
    ColdIsWellPlaced(s.sets, ways);
    ReachableWellPlaced(s.sets, ways, c.AllEvents(ops));
    assert SetIndex(0, |s.sets|) == 0;
  }

  /** Starting cold, the slots hold the installed lines after zeros. */
  lemma {:induction false} ColdContents(s: SetModel, es: seq<Event>)
    requires s == s.Flush() && |s.Queue()| >= 1 && NoFlush(es)
    ensures s.After(es).Queue() == (Zeros(|s.Queue()|) + Installed(s, es))[|Installed(s, es)|..]
  {
    FifoContents(s, es);
    assert s.Queue() == Zeros(|s.Queue()|);
  }

  lemma {:induction false} InstalledWereTouched(s: SetModel, es: seq<Event>)
    ensures forall line <- Installed(s, es) :: Touch(line, true) in es
    decreases |es|
  {
    if es != [] {
      InstalledWereTouched(s.Apply(es[0]), es[1..]);
    }
  }

  lemma {:induction false} RestrictKeeps(es: seq<Event>, i: nat, numSets: nat)
    requires numSets > 0
    ensures forall e :: e in Restrict(es, i, numSets) <==> e in es && (e.Touch? ==> SetIndex(e.line, numSets) == i)
  {
    if es != [] {
      RestrictKeeps(es[1..], i, numSets);
    }
  }

  /** The part of a run after its last flush. */
  function SinceFlush(es: seq<Event>): (rest: seq<Event>)
    ensures NoFlush(rest)
  {
    if NoFlush(es) then es else SinceFlush(es[1..])
  }

  /** A cold cache that is flushed behaves as if the run had started at the last flush. */
  lemma {:induction false} OnlySinceFlushMatters(sets: Sets, es: seq<Event>)
    requires Cold(sets)
    ensures After(sets, es) == After(sets, SinceFlush(es))
  {
    if !NoFlush(es) {
      OnlySinceFlushMatters(sets, es[1..]);
      if es[0].Flush? {
        assert Apply(sets, Flush) == sets;
      } else {
        FlushErases(sets, Apply(sets, es[0]), es[1..]);
      }
    }
  }

  lemma {:induction false} FlushErases(s: Sets, t: Sets, es: seq<Event>)
    requires Apply(s, Flush) == Apply(t, Flush) && !NoFlush(es)
    ensures After(s, es) == After(t, es)
    decreases |es|
  {
    if !es[0].Flush? {
      FlushForgets(s, [es[0]]);
      FlushForgets(t, [es[0]]);
      assert After(s, [es[0]]) == Apply(s, es[0]) && After(t, [es[0]]) == Apply(t, es[0]);
      FlushErases(Apply(s, es[0]), Apply(t, es[0]), es[1..]);
    }
  }

  /** No phantom hits: after any run on a cold cache, a line other than 0 hits only if an allocating
      lookup touched it since the last flush. */
  lemma {:induction false} HitWasTouched(sets: Sets, es: seq<Event>, line: Tag)
    requires Cold(sets) && forall s <- sets :: |s.Queue()| >= 1
    requires line != 0 && Hits(After(sets, es), line)
    ensures Touch(line, true) in SinceFlush(es)
  {
    OnlySinceFlushMatters(sets, es);
    var i := SetIndex(line, |sets|);
    var mine := Restrict(SinceFlush(es), i, |sets|);
    SetIndependence(sets, SinceFlush(es), i);
    RestrictKeeps(SinceFlush(es), i, |sets|);
    assert sets[i] in sets;
    ColdContents(sets[i], mine);
    InstalledWereTouched(sets[i], mine);
    assert line in sets[i].After(mine).Queue();
  }

  /** Line 0 is the exception: its tag also marks empty slots, so after any run on a cold cache that has
      not installed it since the last flush, it hits exactly while its set still has an empty slot. */
  lemma {:induction false} LineZeroHitsWhileSlotsAreEmpty(sets: Sets, es: seq<Event>)
    requires Cold(sets) && |sets[0].Queue()| >= 1
    requires 0 !in Installed(sets[0], Restrict(SinceFlush(es), 0, |sets|))
    ensures Hits(After(sets, es), 0)
            <==> |Installed(sets[0], Restrict(SinceFlush(es), 0, |sets|))| < |sets[0].Queue()|
  {
    OnlySinceFlushMatters(sets, es);
    var mine := Restrict(SinceFlush(es), 0, |sets|);
    SetIndependence(sets, SinceFlush(es), 0);
    RestrictKeeps(SinceFlush(es), 0, |sets|);
    EmptySlotsLeft(sets[0], mine);
    assert SetIndex(0, |sets|) == 0;
    assert Hits(After(sets, es), 0) <==> 0 in sets[0].After(mine).Queue();
  }

  lemma {:induction false} EmptySlotsLeft(s: SetModel, es: seq<Event>)
    requires s == s.Flush() && |s.Queue()| >= 1 && NoFlush(es) && 0 !in Installed(s, es)
    ensures 0 in s.After(es).Queue() <==> |Installed(s, es)| < |s.Queue()|
  {
    var ways, r, end := |s.Queue()|, Installed(s, es), s.After(es).Queue();
    ColdContents(s, es);
    FifoContents(s, es);
    assert forall k | 0 <= k < ways :: end[k] == (Zeros(ways) + r)[k + |r|];
    if |r| < ways {
      assert end[0] == 0;
    }
  }

  /** The first lookup on a cold cache hits exactly for line 0. */
  lemma FirstLookup(sets: Sets, line: Tag)
    requires Cold(sets) && forall s <- sets :: |s.Queue()| >= 1
    ensures Hits(sets, line) <==> line == 0
  {
    var s := sets[SetIndex(line, |sets|)];
    assert s == s.Flush() && s in sets;
    assert s.Queue()[0] == 0;
  }

  // ----- A flushed cache is a new cache -----

  lemma {:induction false} FlushForgets(sets: Sets, es: seq<Event>)
    ensures Apply(After(sets, es), Flush) == Apply(sets, Flush)
    decreases |es|
  {
    if es != [] {
      FlushForgets(Apply(sets, es[0]), es[1..]);
      var one, two := Apply(Apply(sets, es[0]), Flush), Apply(sets, Flush);
      forall i | 0 <= i < |sets|
        ensures one[i] == two[i]
      {
        FlushForgetsOne(sets[i], es[0]);
      }
      assert one == two;
    }
  }

  lemma FlushForgetsOne(s: SetModel, e: Event)
    ensures s.Apply(e).Flush() == s.Flush()
  {
  }

  /** After a flush, whatever came before, the sets are those of the new cache and later results are
      the new cache's; the flush itself leaves the statistics alone. */
  lemma {:induction false} FlushRestoresNewCache(c: Config, blank: State, before: seq<Operation>, later: seq<Operation>)
    requires Cold(blank.sets)
    requires forall op <- before :: c.Accepts(op)
    requires forall op <- later :: c.Accepts(op)
    requires c.Accepts(FlushAll)
    ensures var used := c.Run(blank, before);
            var flushed := c.Step(used, FlushAll);
            && flushed.sets == blank.sets
            && flushed.stats == used.stats
            && c.Results(flushed, later) == c.Results(blank, later)
            && c.Run(flushed, later).sets == c.Run(blank, later).sets
  {
    var used := c.Run(blank, before);
    RunIsOneEventRun(c, blank, before);
    FlushForgets(blank.sets, c.AllEvents(before));
    assert Apply(blank.sets, Flush) == blank.sets;
    var flushed := c.Step(used, FlushAll);
    assert After(used.sets, [Flush]) == After(Apply(used.sets, Flush), []);
    ResultsIgnoreStats(c, flushed, blank, later);
  }

  lemma {:induction false} ResultsIgnoreStats(c: Config, s: State, t: State, ops: seq<Operation>)
    requires s.sets == t.sets
    requires forall op <- ops :: c.Accepts(op)
    ensures c.Results(s, ops) == c.Results(t, ops)
    ensures c.Run(s, ops).sets == c.Run(t, ops).sets
    decreases |ops|
  {
    if ops != [] {
      ResultsIgnoreStats(c, c.Step(s, ops[0]), c.Step(t, ops[0]), ops[1..]);
    }
  }

  lemma {:induction false} AfterConcat(sets: Sets, xs: seq<Event>, ys: seq<Event>)
    ensures After(sets, xs + ys) == After(After(sets, xs), ys)
    decreases |xs|
  {
    if xs == [] {
      assert [] + ys == ys;
    } else {
      AfterConcat(Apply(sets, xs[0]), xs[1..], ys);
      assert (xs + ys)[1..] == xs[1..] + ys;
    }
  }

  /** The sets after a run of operations are those after the run of their line lookups. */
  lemma {:induction false} RunIsOneEventRun(c: Config, s: State, ops: seq<Operation>)
    requires forall op <- ops :: c.Accepts(op)
    ensures c.Run(s, ops).sets == After(s.sets, c.AllEvents(ops))
    decreases |ops|
  {
    if ops != [] {
      RunIsOneEventRun(c, c.Step(s, ops[0]), ops[1..]);
      AfterConcat(s.sets, c.Events(ops[0]), c.AllEvents(ops[1..]));
    }
  }

  // ----- One slot per set: two implementations of the same cache -----

  predicate SameSlots(direct: Sets, robin: Sets) {
    && |direct| == |robin|
    && forall i | 0 <= i < |direct| ::
         direct[i].Direct? && robin[i] == Robin([direct[i].tag])
  }

  lemma {:induction false} SameLookups(direct: Sets, robin: Sets, es: seq<Event>)
    requires SameSlots(direct, robin)
    ensures SameSlots(After(direct, es), After(robin, es))
    ensures Log(direct, es) == Log(robin, es)
    decreases |es|
  {
    if es != [] {
      SameAfterOne(direct, robin, es[0]);
      SameLookups(Apply(direct, es[0]), Apply(robin, es[0]), es[1..]);
    }
  }

  lemma SameAfterOne(direct: Sets, robin: Sets, e: Event)
    requires SameSlots(direct, robin)
    ensures SameSlots(Apply(direct, e), Apply(robin, e))
    ensures e.Touch? ==> Hits(direct, e.line) == Hits(robin, e.line)
  {
    var d, r := Apply(direct, e), Apply(robin, e);
    forall i | 0 <= i < |d|
      ensures d[i].Direct? && r[i] == Robin([d[i].tag])
    {
      SameSlot(direct[i].tag, e);
    }
  }

  lemma SameSlot(tag: Tag, e: Event)
    ensures var d := Direct(tag).Apply(e);
            d.Direct? && Robin([tag]).Apply(e) == Robin([d.tag])
  {
    if e.Touch? {
      assert ([tag] + [e.line])[1..] == [e.line];
    } else {
      assert Zeros(1) == [0];
    }
  }

  /** A direct-mapped cache and a round-robin cache with one slot per set give the same results and
      the same statistics on every run of accesses, flushes and resets. */
  lemma {:induction false} DirectMappedIsOneWay(c: Config, direct: State, robin: State, ops: seq<Operation>)
    requires SameSlots(direct.sets, robin.sets) && direct.stats == robin.stats
    requires forall op <- ops :: c.Accepts(op)
    ensures c.Results(direct, ops) == c.Results(robin, ops)
    ensures c.Run(direct, ops).stats == c.Run(robin, ops).stats
    ensures SameSlots(c.Run(direct, ops).sets, c.Run(robin, ops).sets)
    decreases |ops|
  {
    if ops != [] {
      SameLookups(direct.sets, robin.sets, c.Events(ops[0]));
      DirectMappedIsOneWay(c, c.Step(direct, ops[0]), c.Step(robin, ops[0]), ops[1..]);
    }
  }

  // ----- The counters count -----

  predicate HasReset(ops: seq<Operation>) {
    exists k | 0 <= k < |ops| :: ops[k].ResetStats?
  }

  /** Accesses of a kind and outcome since the last reset of a run. */
  function Tally(c: Config, s: State, ops: seq<Operation>, kind: Kind, hit: bool): nat
    requires forall op <- ops :: c.Accepts(op)
    decreases |ops|
  {
    if ops == [] then 0
    else
      (if ops[0].Counted() && ops[0].kind == kind && c.Result(s, ops[0]) == hit && !HasReset(ops[1..]) then 1 else 0)
      + Tally(c, c.Step(s, ops[0]), ops[1..], kind, hit)
  }

  /** Access calls of a kind since the last reset. */
  function Calls(ops: seq<Operation>, kind: Kind): nat {
    if ops == [] then 0
    else (if ops[0].Counted() && ops[0].kind == kind && !HasReset(ops[1..]) then 1 else 0) + Calls(ops[1..], kind)
  }

  /** A counter after `n` increments. */
  function Advance(count: nat, n: nat): nat
    decreases n
  {
    if n == 0 then count else Advance(Next(count), n - 1)
  }

  lemma {:induction false} AdvanceWraps(count: nat, n: nat)
    requires count < COUNTER_SPAN
    ensures Advance(count, n) == Wrap64(count + n)
    decreases n
  {
    if n > 0 {
      AdvanceWraps(Next(count), n - 1);
      WrapFirst(count + 1, n - 1);
    } else {
      assert Wrap64(count) == count;
    }
  }

  /** Each counter has advanced once per access of its kind and outcome since the last reset. */
  lemma {:induction false} CountersCount(c: Config, s: State, ops: seq<Operation>, kind: Kind, hit: bool)
    requires forall op <- ops :: c.Accepts(op)
    ensures c.Run(s, ops).stats.Get(kind, hit)
            == Advance(if HasReset(ops) then 0 else s.stats.Get(kind, hit), Tally(c, s, ops, kind, hit))
    decreases |ops|
  {
    if ops != [] {
      var next := CountStep(c, s, ops, kind, hit);
      CountersCount(c, next, ops[1..], kind, hit);
      HasResetFirst(ops);
    }
  }

  /** The first operation of a run, seen through the state it leads to. */
  lemma {:induction false} CountStep(c: Config, s: State, ops: seq<Operation>, kind: Kind, hit: bool)
    returns (next: State)
    requires ops != [] && forall op <- ops :: c.Accepts(op)
    ensures c.Run(s, ops) == c.Run(next, ops[1..])
    ensures var n, later := Tally(c, s, ops, kind, hit), Tally(c, next, ops[1..], kind, hit);
            if HasReset(ops[1..]) then n == later
            else if ops[0].ResetStats? then next.stats == NO_STATS && n == later
            else Advance(s.stats.Get(kind, hit), n) == Advance(next.stats.Get(kind, hit), later)
  {
    var counted;
    next, counted := CountFirst(c, s, ops, kind, hit);
    AdvanceMore(s.stats.Get(kind, hit), next.stats.Get(kind, hit), Tally(c, next, ops[1..], kind, hit));
  }

  lemma {:induction false} AdvanceMore(count: nat, next: nat, n: nat)
    ensures next == Next(count) ==> Advance(count, 1 + n) == Advance(next, n)
  {
  }

  /** The first operation, seen through the state it leads to and whether it is counted. */
  lemma {:induction false} CountFirst(c: Config, s: State, ops: seq<Operation>, kind: Kind, hit: bool)
    returns (next: State, counted: bool)
    requires ops != [] && forall op <- ops :: c.Accepts(op)
    ensures c.Run(s, ops) == c.Run(next, ops[1..])
    ensures Tally(c, s, ops, kind, hit)
            == (if counted && !HasReset(ops[1..]) then 1 else 0) + Tally(c, next, ops[1..], kind, hit)
    ensures ops[0].ResetStats? ==> !counted && next.stats == NO_STATS
    ensures !ops[0].ResetStats? ==>
              next.stats.Get(kind, hit) == if counted then Next(s.stats.Get(kind, hit)) else s.stats.Get(kind, hit)
  {
    var op := ops[0];
    next := c.Step(s, op);
    counted := op.Counted() && op.kind == kind && c.Result(s, op) == hit;
    if op.Counted() {
      StepCounts(s.stats, op.kind, c.Result(s, op), kind, hit);
    }
  }

  lemma StepCounts(stats: Stats, kind: Kind, hit: bool, k: Kind, h: bool)
    ensures stats.Bump(kind, hit).Get(k, h)
            == if kind == k && hit == h then Next(stats.Get(k, h)) else stats.Get(k, h)
  {
  }

  lemma HasResetFirst(ops: seq<Operation>)
    requires ops != []
    ensures HasReset(ops) <==> ops[0].ResetStats? || HasReset(ops[1..])
  {
    if HasReset(ops[1..]) {
      var k :| 0 <= k < |ops[1..]| && ops[1..][k].ResetStats?;
      assert ops[k + 1].ResetStats?;
    }
    if k :| 0 <= k < |ops| && ops[k].ResetStats? && k > 0 {
      assert ops[1..][k - 1].ResetStats?;
    }
  }

  lemma {:induction false} TalliesAreCalls(c: Config, s: State, ops: seq<Operation>, kind: Kind)
    requires forall op <- ops :: c.Accepts(op)
    ensures Tally(c, s, ops, kind, true) + Tally(c, s, ops, kind, false) == Calls(ops, kind)
    decreases |ops|
  {
    if ops != [] {
      TalliesAreCalls(c, c.Step(s, ops[0]), ops[1..], kind);
    }
  }

  /** On every run from construction, hits plus misses of a kind is the number of access calls of the
      kind since construction or the last reset, in 64-bit arithmetic. */
  lemma {:induction false} HitsAndMissesAreCalls(c: Config, sets: Sets, ops: seq<Operation>, kind: Kind)
    requires forall op <- ops :: c.Accepts(op)
    ensures var st := c.Run(State(sets, NO_STATS), ops).stats;
            Wrap64(st.Get(kind, true) + st.Get(kind, false)) == Wrap64(Calls(ops, kind))
  {
    var s := State(sets, NO_STATS);
    CountersCount(c, s, ops, kind, true);
    CountersCount(c, s, ops, kind, false);
    TalliesAreCalls(c, s, ops, kind);
    SumOfCounters(Tally(c, s, ops, kind, true), Tally(c, s, ops, kind, false));
  }

  /** Each counter is the number of accesses of its kind and outcome since construction or the last reset,
      modulo 2^64. */
  lemma {:induction false} CountersAreTallies(c: Config, sets: Sets, ops: seq<Operation>, kind: Kind, hit: bool)
    requires forall op <- ops :: c.Accepts(op)
    ensures var s := State(sets, NO_STATS);
            c.Run(s, ops).stats.Get(kind, hit) == Tally(c, s, ops, kind, hit) % 0x1_0000_0000_0000_0000
  {
    CountersCount(c, State(sets, NO_STATS), ops, kind, hit);
    AdvanceFromZero(Tally(c, State(sets, NO_STATS), ops, kind, hit));
    WrapIsModulo(Tally(c, State(sets, NO_STATS), ops, kind, hit));
  }

  lemma {:induction false} AdvanceFromZero(n: nat)
    ensures Advance(0, n) == Wrap64(n)
  {
    AdvanceWraps(0, n);
  }

  lemma WrapIsModulo(n: nat)
    ensures Wrap64(n) == n % 0x1_0000_0000_0000_0000
  {
  }

  /** The sum of the hit counters is the number of hits of both kinds since construction or the last reset,
      and the sum of the miss counters the number of misses. */
  lemma {:induction false} SumsAreTallies(c: Config, sets: Sets, ops: seq<Operation>, hit: bool)
    requires forall op <- ops :: c.Accepts(op)
    ensures var s := State(sets, NO_STATS);
            c.Run(s, ops).stats.Sum(hit)
            == (Tally(c, s, ops, Load, hit) + Tally(c, s, ops, Store, hit)) % 0x1_0000_0000_0000_0000
  {
    var st, n := Outcomes(c, sets, ops, hit);
    WrapIsModulo(n);
  }

  lemma {:induction false} Outcomes(c: Config, sets: Sets, ops: seq<Operation>, hit: bool)
    returns (st: Stats, n: nat)
    requires forall op <- ops :: c.Accepts(op)
    ensures var s := State(sets, NO_STATS);
            && st == c.Run(s, ops).stats
            && n == Tally(c, s, ops, Load, hit) + Tally(c, s, ops, Store, hit)
    ensures st.Sum(hit) == Wrap64(n)
  {
    var loads, stores;
    st, loads := KindTally(c, sets, ops, Load, hit);
    st, stores := KindTally(c, sets, ops, Store, hit);
    n := loads + stores;
    SumOfTwo(st, hit, loads, stores);
  }

  lemma SumOfTwo(st: Stats, hit: bool, loads: nat, stores: nat)
    requires st.Get(Load, hit) == Wrap64(loads) && st.Get(Store, hit) == Wrap64(stores)
    ensures st.Sum(hit) == Wrap64(loads + stores)
  {
    WrapSum(loads, stores);
  }

  lemma {:induction false} KindTally(c: Config, sets: Sets, ops: seq<Operation>, kind: Kind, hit: bool)
    returns (st: Stats, n: nat)
    requires forall op <- ops :: c.Accepts(op)
    ensures var s := State(sets, NO_STATS);
            st == c.Run(s, ops).stats && n == Tally(c, s, ops, kind, hit)
    ensures st.Get(kind, hit) == Wrap64(n)
  {
    var s := State(sets, NO_STATS);
    st, n := c.Run(s, ops).stats, Tally(c, s, ops, kind, hit);
    CountersCount(c, s, ops, kind, hit);
    AdvanceFromZero(n);
  }

  /** Below 2^64 calls no counter wraps around: hits plus misses of a kind are its calls. */
  lemma {:induction false} SmallCountsAreExact(c: Config, sets: Sets, ops: seq<Operation>, kind: Kind)
    requires forall op <- ops :: c.Accepts(op)
    requires Calls(ops, kind) < 0x1_0000_0000_0000_0000
    ensures var s := State(sets, NO_STATS);
            var st := c.Run(s, ops).stats;
            && st.Get(kind, true) == Tally(c, s, ops, kind, true)
            && st.Get(kind, false) == Tally(c, s, ops, kind, false)
            && st.Get(kind, true) + st.Get(kind, false) == Calls(ops, kind)
  {
    var s := State(sets, NO_STATS);
    TalliesAreCalls(c, s, ops, kind);
    CountersAreTallies(c, sets, ops, kind, true);
    CountersAreTallies(c, sets, ops, kind, false);
    SmallModulo(Tally(c, s, ops, kind, true));
    SmallModulo(Tally(c, s, ops, kind, false));
  }

  lemma SmallModulo(n: nat)
    ensures n < 0x1_0000_0000_0000_0000 ==> n % 0x1_0000_0000_0000_0000 == n
  {
  }

  // ----- Resets -----

  function WithoutResets(ops: seq<Operation>): seq<Operation> {
    if ops == [] then [] else (if ops[0].ResetStats? then [] else [ops[0]]) + WithoutResets(ops[1..])
  }

  /** Resets of the statistics change no set and no result. */
  lemma {:induction false} ResetsAreInvisible(c: Config, s: State, t: State, ops: seq<Operation>)
    requires s.sets == t.sets && forall op <- ops :: c.Accepts(op)
    ensures forall op <- WithoutResets(ops) :: c.Accepts(op)
    ensures c.Run(s, ops).sets == c.Run(t, WithoutResets(ops)).sets
    ensures c.Results(s, ops) == c.Results(t, WithoutResets(ops))
    decreases |ops|
  {
    if ops != [] {
      var op, rest := ops[0], ops[1..];
      if op.ResetStats? {
        ResetsAreInvisible(c, c.Step(s, op), t, rest);
        assert [] + WithoutResets(rest) == WithoutResets(rest);
      } else {
        ResetsAreInvisible(c, c.Step(s, op), c.Step(t, op), rest);
        assert ([op] + WithoutResets(rest))[1..] == WithoutResets(rest);
      }
    }
  }

  lemma {:induction false} SumOfCounters(a: nat, b: nat)
    ensures Wrap64(Advance(0, a) + Advance(0, b)) == Wrap64(a + b)
  {
    AdvanceWraps(0, a);
    AdvanceWraps(0, b);
    WrapSum(a, b);
  }

  /** The total of all hits and the total of all misses, each a 64-bit sum over both kinds, add up to the
      number of all access calls since construction or the last reset. */
  lemma {:induction false} TotalsAreCalls(c: Config, sets: Sets, ops: seq<Operation>)
    requires forall op <- ops :: c.Accepts(op)
    ensures var st := c.Run(State(sets, NO_STATS), ops).stats;
            Wrap64(st.Sum(true) + st.Sum(false)) == Wrap64(Calls(ops, Load) + Calls(ops, Store))
  {
    var st, hits, misses := AllOutcomes(c, sets, ops);
    WrapSum(hits, misses);
  }

  lemma {:induction false} AllOutcomes(c: Config, sets: Sets, ops: seq<Operation>)
    returns (st: Stats, hits: nat, misses: nat)
    requires forall op <- ops :: c.Accepts(op)
    ensures st == c.Run(State(sets, NO_STATS), ops).stats
    ensures st.Sum(true) == Wrap64(hits) && st.Sum(false) == Wrap64(misses)
    ensures hits + misses == Calls(ops, Load) + Calls(ops, Store)
  {
    st, hits := Outcomes(c, sets, ops, true);
    st, misses := Outcomes(c, sets, ops, false);
    TalliesAreCalls(c, State(sets, NO_STATS), ops, Load);
    TalliesAreCalls(c, State(sets, NO_STATS), ops, Store);
  }

  lemma WrapSum(a: nat, b: nat)
    ensures Wrap64(Wrap64(a) + Wrap64(b)) == Wrap64(a + b)
  {
  }
}
