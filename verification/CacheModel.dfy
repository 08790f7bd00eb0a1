/** What a cache simulator computes, on values: sets of tags, the effect of one line lookup, runs of
    lookups and flushes, and the counted operations of a cache. */
module CacheModel {
  import opened LineWalk

  /** A tag is a line number; 0 also marks an empty slot. */
  type Tag = nat

  /** The two kinds of set: one slot, or a round-robin set read as a queue, oldest slot first. */
  datatype SetModel = Direct(tag: Tag) | Robin(queue: seq<Tag>) {

    function Queue(): seq<Tag> {
      match this
      case Direct(tag) => [tag]
      case Robin(queue) => queue
    }

    predicate Find(tag: Tag) {
      match this
      case Direct(t) => t == tag
      case Robin(queue) => tag in queue
    }

    function Replace(tag: Tag): SetModel {
      match this
      case Direct(_) => Direct(tag)
      case Robin(queue) => Robin((queue + [tag])[1..])
    }

    function Flush(): SetModel {
      match this
      case Direct(_) => Direct(0)
      case Robin(queue) => Robin(Zeros(|queue|))
    }

    /** One event on this set alone. */
    function Apply(e: Event): SetModel {
      match e
      case Touch(line, allocates) => if Find(line) || !allocates then this else Replace(line)
      case Flush => Flush()
    }

    function After(es: seq<Event>): SetModel
      decreases |es|
    {
      if es == [] then this else Apply(es[0]).After(es[1..])
    }

    /** The lookups of a run on this set alone, with their outcomes. */
    function Log(es: seq<Event>): seq<Outcome>
      decreases |es|
    {
      if es == [] then []
      else (if es[0].Touch? then [Outcome(es[0].line, Find(es[0].line))] else []) + Apply(es[0]).Log(es[1..])
    }
  }

  function Zeros(n: nat): seq<Tag> {
    seq(n, _ => 0)
  }

  /** A lookup of one line, allocating on a miss or not; or a flush of the whole cache. */
  datatype Event = Touch(line: Tag, allocates: bool) | Flush

  datatype Outcome = Outcome(line: Tag, hit: bool)

  /** The sets of a cache; a line belongs to the set numbered by its remainder. */
  type Sets = s: seq<SetModel> | |s| > 0 witness [Direct(0)]

  function SetIndex(line: Tag, numSets: nat): nat
    requires numSets > 0
  {
    line % numSets
  }

  function Apply(sets: Sets, e: Event): Sets {
    match e
    case Touch(line, _) =>
      var i := SetIndex(line, |sets|);
      sets[i := sets[i].Apply(e)]
    case Flush => seq(|sets|, i requires 0 <= i < |sets| => sets[i].Flush())
  }

  function After(sets: Sets, es: seq<Event>): (after: Sets)
    ensures |after| == |sets|
    decreases |es|
  {
    if es == [] then sets else After(Apply(sets, es[0]), es[1..])
  }

  function Log(sets: Sets, es: seq<Event>): seq<Outcome>
    decreases |es|
  {
    if es == [] then []
    else (if es[0].Touch? then [Outcome(es[0].line, Hits(sets, es[0].line))] else [])
         + Log(Apply(sets, es[0]), es[1..])
  }

  predicate Hits(sets: Sets, line: Tag) {
    sets[SetIndex(line, |sets|)].Find(line)
  }

  predicate AllHit(log: seq<Outcome>) {
    forall o <- log :: o.hit
  }

  lemma {:induction false} FirstTouch(sets: Sets, tag: Tag, allocates: bool, rest: seq<Event>)
    ensures var es := [Touch(tag, allocates)] + rest;
            && After(sets, es) == After(Apply(sets, es[0]), rest)
            && (AllHit(Log(sets, es)) <==> Hits(sets, tag) && AllHit(Log(Apply(sets, es[0]), rest)))
  {
    var es := [Touch(tag, allocates)] + rest;
    assert es[1..] == rest;
    var log := Log(Apply(sets, es[0]), rest);
    assert Log(sets, es) == [Outcome(tag, Hits(sets, tag))] + log;
    assert forall o <- log :: o in Log(sets, es);
    assert Log(sets, es)[0] in Log(sets, es);
  }

  /** What the set type makes of a blank set once its associativity is chosen. */
  function EmptySet(direct: bool, associativity: nat): SetModel {
    if direct then Direct(0) else Robin(Zeros(associativity))
  }

  /** The sets of a new cache. */
  function NewSets(n: nat, direct: bool, associativity: nat): (sets: seq<SetModel>)
    ensures |sets| == n && forall s <- sets :: s == EmptySet(direct, associativity)
  {
    seq(n, i requires 0 <= i < n => EmptySet(direct, associativity))
  }

  /** A new cache is cold, and each of its sets has as many slots as its associativity. */
  lemma NewSetsAreCold(n: nat, direct: bool, associativity: nat)
    requires n > 0 && direct ==> associativity == 1
    ensures n > 0 ==> Cold(NewSets(n, direct, associativity))
    ensures forall m <- NewSets(n, direct, associativity) ::
              |m.Queue()| == associativity && (m.Direct? <==> direct) && forall t <- m.Queue() :: t == 0
  {
    var empty := EmptySet(direct, associativity);
    assert Zeros(|Zeros(associativity)|) == Zeros(associativity);
    assert empty == empty.Flush();
    assert forall i | 0 <= i < n :: NewSets(n, direct, associativity)[i] == empty;
  }

  /** All slots empty. */
  predicate Cold(sets: Sets) {
    forall i | 0 <= i < |sets| :: sets[i] == sets[i].Flush()
  }

  // ----- Counted operations -----

  datatype Kind = Load | Store

  datatype StoreAllocation = StoreAllocate | StoreNoAllocate

  datatype Operation =
    | Access(addr: nat, size: nat, kind: Kind)
    | AccessSingleLine(addr: nat, kind: Kind)
    | FlushAll
    | ResetStats
  {
    predicate Counted() {
      Access? || AccessSingleLine?
    }
  }

  /** Hit and miss counters per kind of access: 64-bit words. */
  datatype Stats = Stats(loadHits: nat, loadMisses: nat, storeHits: nat, storeMisses: nat) {
    function Get(kind: Kind, hit: bool): nat {
      match kind
      case Load => if hit then loadHits else loadMisses
      case Store => if hit then storeHits else storeMisses
    }

    /** The hits or the misses of both kinds. */
    function Sum(hit: bool): nat {
      Wrap64(Get(Load, hit) + Get(Store, hit))
    }

    function Bump(kind: Kind, hit: bool): Stats {
      match kind
      case Load => if hit then this.(loadHits := Next(loadHits)) else this.(loadMisses := Next(loadMisses))
      case Store => if hit then this.(storeHits := Next(storeHits)) else this.(storeMisses := Next(storeMisses))
    }
  }

  const NO_STATS := Stats(0, 0, 0, 0)

  const COUNTER_SPAN := 0x1_0000_0000_0000_0000

  function Wrap64(n: nat): nat {
    n % COUNTER_SPAN
  }

  function Next(counter: nat): nat {
    Wrap64(counter + 1)
  }

  lemma WrapFirst(a: nat, b: nat)
    ensures Wrap64(Wrap64(a) + b) == Wrap64(a + b)
  {
  }

  /** `flushable` says that the array of sets is larger than the number of sets in use, and that these are
      few enough for a signed loop index. */
  datatype Config = Config(layout: Layout, policy: StoreAllocation, flushable: bool) {

    /** Loads always allocate on a miss, stores optionally. */
    predicate Allocates(kind: Kind) {
      kind == Load || policy == StoreAllocate
    }

    /** The operation's addresses are words and its address loop ends; a flush, which starts one set past
        the ones in use, has that set and reaches the others. */
    predicate Accepts(op: Operation) {
      && layout.Valid()
      && match op
         case Access(addr, size, _) => addr < layout.Span() && size < 0x1_0000_0000 && layout.LoopEnds(addr, size)
         case AccessSingleLine(addr, _) => addr < layout.Span()
         case FlushAll => flushable
         case ResetStats => true
    }

    function Events(op: Operation): seq<Event>
      requires Accepts(op)
    {
      match op
      case Access(addr, size, kind) => Touches(layout.Visited(addr, layout.Plus(addr, size)), Allocates(kind))
      case AccessSingleLine(addr, kind) => [Touch(layout.Line(addr), Allocates(kind))]
      case FlushAll => [Flush]
      case ResetStats => []
    }

    function Step(s: State, op: Operation): State
      requires Accepts(op)
    {
      var sets := After(s.sets, Events(op));
      var stats :=
        if op.Counted() then s.stats.Bump(op.kind, Result(s, op))
        else if op.ResetStats? then NO_STATS
        else s.stats;
      State(sets, stats)
    }

    /** Whether every line of the operation hits. */
    predicate Result(s: State, op: Operation)
      requires Accepts(op)
    {
      AllHit(Log(s.sets, Events(op)))
    }

    function Run(s: State, ops: seq<Operation>): State
      requires forall op <- ops :: Accepts(op)
      decreases |ops|
    {
      if ops == [] then s else Run(Step(s, ops[0]), ops[1..])
    }

    /** The results of the counted operations of a run. */
    function Results(s: State, ops: seq<Operation>): seq<bool>
      requires forall op <- ops :: Accepts(op)
      decreases |ops|
    {
      if ops == [] then []
      else (if ops[0].Counted() then [Result(s, ops[0])] else []) + Results(Step(s, ops[0]), ops[1..])
    }

    /** The line lookups and flushes of a run. */
    function AllEvents(ops: seq<Operation>): seq<Event>
      requires forall op <- ops :: Accepts(op)
      decreases |ops|
    {
      if ops == [] then [] else Events(ops[0]) + AllEvents(ops[1..])
    }
  }

  datatype State = State(sets: Sets, stats: Stats)

  function Touches(lines: seq<Tag>, allocates: bool): seq<Event> {
    seq(|lines|, i requires 0 <= i < |lines| => Touch(lines[i], allocates))
  }

  lemma TouchesFirst(line: Tag, lines: seq<Tag>, allocates: bool)
    ensures Touches([line] + lines, allocates) == [Touch(line, allocates)] + Touches(lines, allocates)
  {
  }
}
