/** The cache class: an array of sets, address splitting and the access counters. */
module Cache {
  import opened Bits
  import opened Logarithm
  import opened LineWalk
  import opened Geometry
  import opened CacheModel
  import opened CacheSets

  function TypeIndex(kind: Kind): nat {
    if kind.Load? then 0 else 1
  }

  function HitIndex(hit: bool): nat {
    if hit then 1 else 0
  }

  /** The sets use memory inside `repr`, each its own. */
  ghost predicate Separate(sets: seq<CacheSet>, repr: set<object>) {
    && (forall i | 0 <= i < |sets| :: sets[i].Footprint() <= repr)
    && forall i, j | 0 <= i < j < |sets| :: sets[i].Footprint() !! sets[j].Footprint()
  }

  ghost predicate AllValid(sets: seq<CacheSet>, repr: set<object>)
    requires Separate(sets, repr)
    reads repr
  {
    forall i | 0 <= i < |sets| :: sets[i].Valid()
  }

  ghost function ModelsOf(sets: seq<CacheSet>, repr: set<object>): (models: seq<SetModel>)
    requires Separate(sets, repr) && AllValid(sets, repr)
    reads repr
    ensures |models| == |sets| && forall i | 0 <= i < |sets| :: models[i] == sets[i].Model()
  {
    seq(|sets|, i requires 0 <= i < |sets| && Separate(sets, repr) && AllValid(sets, repr) reads repr =>
      sets[i].Model())
  }

  method ReplaceAt(sets: seq<CacheSet>, ghost repr: set<object>, i: nat, tag: Tag)
    requires i < |sets| && Separate(sets, repr) && AllValid(sets, repr)
    modifies sets[i].Footprint()
    ensures AllValid(sets, repr)
    ensures ModelsOf(sets, repr) == old(ModelsOf(sets, repr))[i := old(ModelsOf(sets, repr))[i].Replace(tag)]
  {
    sets[i].Replace(tag);
    assert forall k | 0 <= k < |sets| && k != i :: unchanged(sets[k].Footprint());
  }

  method FlushAt(sets: seq<CacheSet>, ghost repr: set<object>, i: nat)
    requires i < |sets| && Separate(sets, repr) && AllValid(sets, repr)
    modifies sets[i].Footprint()
    ensures AllValid(sets, repr)
    ensures ModelsOf(sets, repr) == old(ModelsOf(sets, repr))[i := old(ModelsOf(sets, repr))[i].Flush()]
  {
    sets[i].Flush();
    assert forall k | 0 <= k < |sets| && k != i :: unchanged(sets[k].Footprint());
  }

  /** A blank set, not yet configured, of the given type. */
  ghost predicate Unconfigured(s: CacheSet, direct: bool, maxAssociativity: uint32)
    reads s.Footprint()
  {
    s.Blank() && s.DirectSet? == direct && (s.RobinSet? ==> s.robin.tags.Length == maxAssociativity <= INDEX_LIMIT)
  }

  /** The assertion of the set type about its associativity. */
  predicate Admitted(direct: bool, associativity: uint32, maxAssociativity: uint32) {
    if direct then associativity == 1 else associativity <= maxAssociativity
  }

  /** No division by zero, the assertions made on the way, and slots that a signed index reaches. */
  predicate Constructible(cacheSize: uint32, lineSize: uint32, associativity: uint32, maxSets: nat,
                          direct: bool, maxAssociativity: uint32) {
    && Divisor(lineSize, associativity) > 0
    && var mask := SetIndexMask(cacheSize, Divisor(lineSize, associativity));
    && AssertsPass(lineSize, mask) && NumSets(mask) <= maxSets
    && (NumSets(mask) > 0 ==> Admitted(direct, associativity, maxAssociativity))
    && (direct || 1 <= maxAssociativity <= INDEX_LIMIT)
  }

  /** The default-constructed array of sets. */
  method BlankSets(maxSets: nat, direct: bool, maxAssociativity: uint32)
    returns (sets: seq<CacheSet>, ghost repr: set<object>)
    requires direct || 1 <= maxAssociativity <= INDEX_LIMIT
    ensures |sets| == maxSets && fresh(repr) && Separate(sets, repr) && AllValid(sets, repr)
    ensures forall i | 0 <= i < |sets| :: Unconfigured(sets[i], direct, maxAssociativity)
  {
    sets, repr := [], {};
    while |sets| < maxSets
      invariant |sets| <= maxSets && fresh(repr) && Separate(sets, repr) && AllValid(sets, repr)
      invariant forall i | 0 <= i < |sets| :: Unconfigured(sets[i], direct, maxAssociativity)
    {
      if direct {
        var d := new DirectMapped();
        sets, repr := sets + [DirectSet(d)], repr + {d};
      } else {
        var r := new RoundRobin(maxAssociativity, maxAssociativity);
        sets, repr := sets + [RobinSet(r)], repr + {r, r.tags};
      }
    }
  }

  method SetAssociativityAt(sets: seq<CacheSet>, ghost repr: set<object>, i: nat, associativity: uint32,
                            ghost direct: bool, ghost maxAssociativity: uint32)
    requires i < |sets| && Separate(sets, repr) && AllValid(sets, repr)
    requires Unconfigured(sets[i], direct, maxAssociativity)
    requires associativity >= 1 && Admitted(direct, associativity, maxAssociativity)
    modifies sets[i].Footprint()
    ensures AllValid(sets, repr)
    ensures ModelsOf(sets, repr) == old(ModelsOf(sets, repr))[i := EmptySet(direct, associativity)]
    ensures forall k | 0 <= k < |sets| && k != i :: sets[k].Blank() == old(sets[k].Blank())
  {
    sets[i].SetAssociativity(associativity);
    assert forall k | 0 <= k < |sets| && k != i :: unchanged(sets[k].Footprint());
  }

  /** Sets the associativity of the first `numSets` sets. */
  method SetAssociativities(sets: seq<CacheSet>, ghost repr: set<object>, numSets: nat, associativity: uint32,
                            ghost direct: bool, ghost maxAssociativity: uint32)
    requires numSets <= |sets| && Separate(sets, repr) && AllValid(sets, repr)
    requires forall k | 0 <= k < |sets| :: Unconfigured(sets[k], direct, maxAssociativity)
    requires associativity >= 1 && (numSets > 0 ==> Admitted(direct, associativity, maxAssociativity))
    modifies repr
    ensures AllValid(sets, repr)
    ensures forall k | 0 <= k < numSets :: ModelsOf(sets, repr)[k] == EmptySet(direct, associativity)
  {
    var i := 0;
    while i < numSets
      invariant 0 <= i <= numSets && AllValid(sets, repr)
      invariant forall k | i <= k < |sets| :: Unconfigured(sets[k], direct, maxAssociativity)
      invariant forall k | 0 <= k < i :: ModelsOf(sets, repr)[k] == EmptySet(direct, associativity)
    {
      SetAssociativityAt(sets, repr, i, associativity, direct, maxAssociativity);
      i := i + 1;
    }
  }

  /** The array of sets with the first `numSets` configured. */
  method ConfiguredSets(maxSets: nat, numSets: nat, associativity: uint32, direct: bool, maxAssociativity: uint32)
    returns (sets: seq<CacheSet>, ghost repr: set<object>)
    requires numSets <= maxSets && (direct || 1 <= maxAssociativity <= INDEX_LIMIT)
    requires associativity >= 1 && (numSets > 0 ==> Admitted(direct, associativity, maxAssociativity))
    ensures |sets| == maxSets && fresh(repr) && Separate(sets, repr) && AllValid(sets, repr)
    ensures ModelsOf(sets, repr)[..numSets] == NewSets(numSets, direct, associativity)
  {
    sets, repr := BlankSets(maxSets, direct, maxAssociativity);
    SetAssociativities(sets, repr, numSets, associativity, direct, maxAssociativity);
  }

  method ClearCounters(access: array2<nat>)
    requires access.Length0 == 2 && access.Length1 == 2
    modifies access
    ensures forall t, h | 0 <= t < 2 && 0 <= h < 2 :: access[t, h] == 0
  {
    var accessType := 0;
    while accessType < 2
      invariant 0 <= accessType <= 2
      invariant forall t | 0 <= t < accessType :: access[t, 0] == 0 && access[t, 1] == 0
    {
      access[accessType, 0] := 0;
      access[accessType, 1] := 0;
      accessType := accessType + 1;
    }
  }

  /** The arrays of a new cache: its sets and its counters. */
  method CacheArrays(maxSets: nat, numSets: nat, associativity: uint32, direct: bool, maxAssociativity: uint32)
    returns (sets: seq<CacheSet>, ghost repr: set<object>, counters: array2<nat>)
    requires numSets <= maxSets && (direct || 1 <= maxAssociativity <= INDEX_LIMIT)
    requires associativity >= 1 && (numSets > 0 ==> Admitted(direct, associativity, maxAssociativity))
    ensures |sets| == maxSets && fresh(repr) && Separate(sets, repr) && AllValid(sets, repr)
    ensures fresh(counters) && counters !in repr && counters.Length0 == 2 && counters.Length1 == 2
    ensures counters[0, 0] == counters[0, 1] == counters[1, 0] == counters[1, 1] == 0
    ensures ModelsOf(sets, repr)[..numSets] == NewSets(numSets, direct, associativity)
    ensures numSets > 0 ==> Cold(NewSets(numSets, direct, associativity))
    ensures forall m <- NewSets(numSets, direct, associativity) ::
              |m.Queue()| == associativity && (m.Direct? <==> direct) && forall t <- m.Queue() :: t == 0
  {
    sets, repr := ConfiguredSets(maxSets, numSets, associativity, direct, maxAssociativity);
    counters := new nat[2, 2];
    ClearCounters(counters);
    NewSetsAreCold(numSets, direct, associativity);
  }

  /** The computed parameters belong to the layout, and there is a power of two of sets. */
  predicate GoodGeometry(layout: Layout, lineShift: nat, lineSize: uint32, setIndexMask: uint32) {
    && layout.Valid() && lineShift == layout.lineShift && lineSize == layout.LineSize()
    && IsPower2(NumSets(setIndexMask)) && 0 < NumSets(setIndexMask)
  }

  /** The computed parameters: the shift of the line size and the set index mask. */
  method ComputeGeometry(cacheSize: uint32, lineSize: uint32, associativity: uint32, ghost width: nat)
    returns (shift: nat, mask: uint32)
    requires Divisor(lineSize, associativity) > 0 && width >= 32
    requires AssertsPass(lineSize, SetIndexMask(cacheSize, Divisor(lineSize, associativity)))
    ensures mask == SetIndexMask(cacheSize, Divisor(lineSize, associativity)) && associativity >= 1
    ensures NumSets(mask) == cacheSize / Divisor(lineSize, associativity)
    ensures NumSets(mask) > 0 <==> GoodGeometry(Layout(width, shift), shift, lineSize, mask)
  {
    PositiveSizes(lineSize, associativity);
    NumSetsIsQuotient(cacheSize, Divisor(lineSize, associativity));
    shift := FloorLog2(lineSize);
    ShiftOfPower(lineSize, shift);
    ShiftIsSmall(shift);
    mask := SetIndexMask(cacheSize, Divisor(lineSize, associativity));
  }

  class Cache {
    const config: Config
    const cacheSize: uint32
    const lineSize: uint32
    const associativity: uint32
    const lineShift: nat
    const setIndexMask: uint32
    const sets: seq<CacheSet>
    ghost const repr: set<object>
    const access: array2<nat>
    var numberOfFlushes: uint32
    var numberOfResets: uint32

    ghost function Footprint(): set<object> {
      {this, access} + repr
    }

    /** The facts about the constant parts: the geometry is usable, and the sets and the counters do
        not share memory. */
    ghost predicate Wired() {
      && GoodGeometry(config.layout, lineShift, lineSize, setIndexMask)
      && NumSets(setIndexMask) <= |sets|
      && (config.flushable <==> NumSets(setIndexMask) < |sets| && NumSets(setIndexMask) < INDEX_LIMIT)
      && access.Length0 == 2 && access.Length1 == 2
      && this !in repr && access !in repr && Separate(sets, repr)
    }

    ghost predicate Valid()
      reads Footprint()
    {
      Wired() && AllValid(sets, repr)
    }

    /** The sets in use. */
    ghost function SetModels(): Sets
      requires Valid()
      reads Footprint()
    {
      ModelsOf(sets, repr)[..NumSets(setIndexMask)]
    }

    /** The sets beyond them. */
    ghost function SpareModels(): seq<SetModel>
      requires Valid()
      reads Footprint()
    {
      ModelsOf(sets, repr)[NumSets(setIndexMask)..]
    }

    ghost function Counters(): Stats
      requires Valid()
      reads Footprint()
    {
      Stats(access[0, 1], access[0, 0], access[1, 1], access[1, 0])
    }

    ghost function Model(): State
      requires Valid()
      reads Footprint()
    {
      State(SetModels(), Counters())
    }

    /** Every set has as many slots as the associativity, all of them empty, and the counters are zero. */
    ghost predicate IsNew(direct: bool, associativity: nat)
      requires Valid()
      reads Footprint()
    {
      && SetModels() == NewSets(NumSets(setIndexMask), direct, associativity)
      && (forall m <- SetModels() ::
            |m.Queue()| == associativity && (m.Direct? <==> direct) && forall t <- m.Queue() :: t == 0)
      && Cold(SetModels()) && Counters() == NO_STATS
    }

    /** `direct` and `maxAssociativity` choose the set type, `maxSets` and `policy` are the other
        template parameters, and `width` is the number of bits of an address. The assertions let a cache
        pass that is too small for one line per way: it has no sets. */
    constructor (cacheSize: uint32, lineSize: uint32, associativity: uint32,
                 width: nat, policy: StoreAllocation, maxSets: nat, direct: bool, maxAssociativity: uint32)
      requires Constructible(cacheSize, lineSize, associativity, maxSets, direct, maxAssociativity) && width >= 32
      ensures fresh(repr) && fresh(access)
      ensures Valid() <==> NumSets(setIndexMask) > 0
      ensures this.cacheSize == cacheSize && this.lineSize == lineSize && this.associativity == associativity
      ensures setIndexMask == SetIndexMask(cacheSize, Divisor(lineSize, associativity)) && |sets| == maxSets
      ensures config.layout.width == width && config.policy == policy
      ensures config.flushable <==> NumSets(setIndexMask) < maxSets && NumSets(setIndexMask) < INDEX_LIMIT
      ensures Valid() ==> IsNew(direct, associativity)
      ensures NumSets(setIndexMask) == cacheSize / Divisor(lineSize, associativity)
    {
      this.cacheSize := cacheSize;
      this.lineSize := lineSize;
      this.associativity := associativity;
      var shift, mask := ComputeGeometry(cacheSize, lineSize, associativity, width);
      var ss, footprint, counters :=
        CacheArrays(maxSets, NumSets(mask), associativity, direct, maxAssociativity);
      lineShift := shift;
      config := Config(Layout(width, shift), policy, NumSets(mask) < maxSets && NumSets(mask) < INDEX_LIMIT);
      setIndexMask := mask;
      access, sets, repr := counters, ss, footprint;
    }

    /** Counts one access. */
    method Count(kind: Kind, hit: bool)
      requires Valid()
      modifies access
      ensures Valid() && SetModels() == old(SetModels()) && SpareModels() == old(SpareModels())
      ensures Counters() == old(Counters()).Bump(kind, hit)
    {
      access[TypeIndex(kind), HitIndex(hit)] := Next(access[TypeIndex(kind), HitIndex(hit)]);
      assert ModelsOf(sets, repr) == old(ModelsOf(sets, repr));
    }

    /** Tag and set index of an address. */
    method SplitAddress(addr: nat) returns (tag: Tag, setIndex: nat)
      requires Valid()
      ensures tag == config.layout.Line(addr) && setIndex == SetIndex(tag, |SetModels()|) < NumSets(setIndexMask)
    {
      tag := ShiftRight(addr, lineShift);
      setIndex := Masked(tag, setIndexMask);
      SetIndexInRange(tag, setIndexMask);
    }

    /** Tag, set index and offset in the line: together they determine the address. */
    method SplitAddressInLine(addr: nat) returns (tag: Tag, setIndex: nat, lineIndex: nat)
      requires Valid()
      ensures addr == tag * lineSize + lineIndex && lineIndex < lineSize
      ensures setIndex == tag % NumSets(setIndexMask) < NumSets(setIndexMask)
    {
      var lineMask := lineSize - 1;
      lineIndex := Masked(addr, lineMask);
      tag, setIndex := SplitAddress(addr);
      SplitRoundTrip(config.layout, addr);
    }

    /** Start of the next line, by masking off the offset. */
    method NextLineAddress(addr: nat, notLineMask: nat) returns (next: nat)
      requires Valid() && addr < config.layout.Span()
      requires notLineMask == config.layout.Span() - 1 - (lineSize - 1)
      ensures next == config.layout.NextLine(addr)
    {
      NotLineMaskClearsOffset(config.layout, addr);
      next := config.layout.Plus(Masked(addr, notLineMask), lineSize);
    }

    /** Looks up one line and, on a miss that allocates, installs it. */
    method LookUp(tag: Tag, setIndex: nat, allocates: bool) returns (hit: bool)
      requires Valid() && setIndex == SetIndex(tag, |SetModels()|) < |SetModels()|
      modifies repr
      ensures Valid() && Counters() == old(Counters()) && SpareModels() == old(SpareModels())
      ensures hit == Hits(old(SetModels()), tag)
      ensures SetModels() == Apply(old(SetModels()), Touch(tag, allocates))
    {
      hit := sets[setIndex].Find(tag);
      if !hit && allocates {
        ReplaceAt(sets, repr, setIndex, tag);
      }
    }

    /** Looks up the line of an address and finds the start of the next one. */
    method VisitLine(a: nat, notLineMask: nat, allocates: bool) returns (hit: bool, next: nat)
      requires Valid() && a < config.layout.Span()
      requires notLineMask == config.layout.Span() - 1 - (lineSize - 1)
      modifies repr
      ensures Valid() && Counters() == old(Counters()) && SpareModels() == old(SpareModels())
      ensures hit == Hits(old(SetModels()), config.layout.Line(a))
      ensures SetModels() == Apply(old(SetModels()), Touch(config.layout.Line(a), allocates))
      ensures next == config.layout.NextLine(a)
    {
      var tag, setIndex := SplitAddress(a);
      hit := LookUp(tag, setIndex, allocates);
      next := NextLineAddress(a, notLineMask);
    }

    /** A cache access to the bytes from `addr` on; whether all accessed lines hit. */
    method Access(addr: nat, size: nat, kind: Kind) returns (allHit: bool)
      requires Valid() && config.Accepts(CacheModel.Access(addr, size, kind))
      modifies Footprint()
      ensures Valid() && Model() == config.Step(old(Model()), CacheModel.Access(addr, size, kind))
      ensures SpareModels() == old(SpareModels())
      ensures allHit == config.Result(old(Model()), CacheModel.Access(addr, size, kind))
      ensures numberOfFlushes == old(numberOfFlushes) && numberOfResets == old(numberOfResets)
    {
      var layout := config.layout;
      var highAddr := layout.Plus(addr, size);
      allHit := true;
      layout.SpanIsLines();
      var notLineMask := layout.Span() - 1 - (lineSize - 1);
      var a := addr;
      var allocates := config.Allocates(kind);
      ghost var all := Touches(layout.Visited(addr, highAddr), allocates);
      AccessStep(config, Model(), addr, size, kind, all);
      ghost var left := all;
      var more := true;
      while more
        invariant Valid() && Counters() == old(Counters()) && SpareModels() == old(SpareModels())
        invariant numberOfFlushes == old(numberOfFlushes) && numberOfResets == old(numberOfResets)
        invariant 0 <= a < layout.Span() && 0 <= highAddr <= layout.LastStart()
        invariant left == if more then Touches(layout.Visited(a, highAddr), allocates) else []
        invariant After(SetModels(), left) == After(old(SetModels()), all)
        invariant AllHit(Log(old(SetModels()), all)) == (allHit && AllHit(Log(SetModels(), left)))
        decreases more, if a >= layout.LastStart() then 1 else 0, layout.Span() - a
      {
        layout.NextLineCases(a);
        TouchesStep(layout, a, highAddr, allocates);
        ghost var before := SetModels();
        ghost var tag := layout.Line(a);
        var localHit;
        localHit, a := VisitLine(a, notLineMask, allocates);
        allHit := allHit && localHit;
        more := a < highAddr;
        ghost var rest := if more then Touches(layout.Visited(a, highAddr), allocates) else [];
        FirstTouch(before, tag, allocates, rest);
        left := rest;
      }
      Count(kind, allHit);
    }

    /** A cache access at `addr` that does not look beyond its line. */
    method AccessSingleLine(addr: nat, kind: Kind) returns (hit: bool)
      requires Valid() && config.Accepts(CacheModel.AccessSingleLine(addr, kind))
      modifies Footprint()
      ensures Valid() && Model() == config.Step(old(Model()), CacheModel.AccessSingleLine(addr, kind))
      ensures SpareModels() == old(SpareModels())
      ensures hit == config.Result(old(Model()), CacheModel.AccessSingleLine(addr, kind))
      ensures numberOfFlushes == old(numberOfFlushes) && numberOfResets == old(numberOfResets)
    {
      var tag, setIndex := SplitAddress(addr);
      SingleLineStep(config, Model(), addr, kind);
      hit := LookUp(tag, setIndex, config.Allocates(kind));
      Count(kind, hit);
    }

    /** Empties the sets, the one past those in use first; with 2^31 sets the signed index starts out
        negative and nothing is emptied. */
    method Flush()
      requires Valid() && (config.Accepts(FlushAll) || NumSets(setIndexMask) >= INDEX_LIMIT)
      modifies Footprint()
      ensures Valid()
      ensures Model() == if config.Accepts(FlushAll) then config.Step(old(Model()), FlushAll) else old(Model())
      ensures SpareModels() == if config.Accepts(FlushAll) then old(SpareModels())[0 := old(SpareModels())[0].Flush()]
                               else old(SpareModels())
      ensures numberOfFlushes == Wrap32(old(numberOfFlushes) + 1) && numberOfResets == old(numberOfResets)
    {
      ghost var before, spare := SetModels(), SpareModels();
      var index := SignedIndex(NumSets(setIndexMask));
      while index >= 0
        invariant index <= NumSets(setIndexMask) && (index >= 0 ==> config.flushable)
        invariant if config.flushable then index >= -1 else index < 0
        invariant Valid() && Counters() == old(Counters())
        invariant numberOfFlushes == old(numberOfFlushes) && numberOfResets == old(numberOfResets)
        invariant |SetModels()| == |before| && forall k | 0 <= k < |before| ::
                    SetModels()[k] == if config.flushable && k > index then before[k].Flush() else before[k]
        invariant SpareModels() == if config.flushable && index < |before| then spare[0 := spare[0].Flush()] else spare
      {
        FlushSet(index);
        index := index - 1;
      }
      FlushStep(config, old(Model()), SetModels());
      numberOfFlushes := Wrap32(numberOfFlushes + 1);
    }

    /** Empties one of the sets in use or the one past them. */
    method FlushSet(index: nat)
      requires Valid() && index < |sets| && index <= NumSets(setIndexMask)
      modifies repr
      ensures Valid() && Counters() == old(Counters())
      ensures var models := old(SetModels());
              SetModels() == if index < |models| then models[index := models[index].Flush()] else models
      ensures var spare := old(SpareModels());
              SpareModels() == if index == |SetModels()| then spare[0 := spare[0].Flush()] else spare
    {
      FlushAt(sets, repr, index);
    }

    method ResetStats()
      requires Valid()
      modifies this, access
      ensures Valid() && Model() == config.Step(old(Model()), CacheModel.ResetStats)
      ensures SpareModels() == old(SpareModels())
      ensures numberOfFlushes == old(numberOfFlushes) && numberOfResets == Wrap32(old(numberOfResets) + 1)
    {
      ClearCounters(access);
      numberOfResets := Wrap32(numberOfResets + 1);
      assert SetModels() == old(SetModels()) && SpareModels() == old(SpareModels());
    }

    /** Sum of the counters of all kinds of access, in 64 bits. */
    method SumAccess(hit: bool) returns (sum: nat)
      requires Valid()
      ensures sum == Counters().Sum(hit)
    {
      sum := 0;
      ghost var first := 0;
      var accessType := 0;
      while accessType < 2
        invariant 0 <= accessType <= 2
        invariant accessType >= 1 ==> first == Wrap64(access[0, HitIndex(hit)])
        invariant sum == if accessType == 0 then 0
                         else if accessType == 1 then first
                         else Wrap64(first + access[1, HitIndex(hit)])
      {
        sum := Wrap64(sum + access[accessType, HitIndex(hit)]);
        if accessType == 0 {
          first := sum;
        }
        accessType := accessType + 1;
      }
      WrapFirst(access[0, HitIndex(hit)], access[1, HitIndex(hit)]);
    }
  }

  lemma {:induction false} FlushStep(c: Config, s: State, sets: Sets)
    requires |sets| == |s.sets| && (c.flushable ==> c.layout.Valid())
    requires forall k | 0 <= k < |sets| :: sets[k] == if c.flushable then s.sets[k].Flush() else s.sets[k]
    ensures State(sets, s.stats) == if c.flushable then c.Step(s, FlushAll) else s
  {
    if c.flushable {
      assert sets == Apply(s.sets, CacheModel.Flush);
      assert After(s.sets, [CacheModel.Flush]) == After(Apply(s.sets, CacheModel.Flush), []);
    } else {
      assert sets == s.sets;
    }
  }

  lemma {:induction false} AccessStep(c: Config, s: State, addr: nat, size: nat, kind: Kind, events: seq<Event>)
    requires c.Accepts(CacheModel.Access(addr, size, kind))
    requires events == Touches(c.layout.Visited(addr, c.layout.Plus(addr, size)), c.Allocates(kind))
    ensures var op := CacheModel.Access(addr, size, kind);
            && c.Result(s, op) == AllHit(Log(s.sets, events))
            && c.Step(s, op) == State(After(s.sets, events), s.stats.Bump(kind, AllHit(Log(s.sets, events))))
  {
  }

  lemma {:induction false} TouchesStep(layout: Layout, a: nat, high: nat, allocates: bool)
    requires layout.Valid() && a < layout.Span() && high <= layout.LastStart()
    ensures layout.NextLine(a) < layout.Span()
    ensures var next := layout.NextLine(a);
            var rest := if next < high then Touches(layout.Visited(next, high), allocates) else [];
            Touches(layout.Visited(a, high), allocates) == [Touch(layout.Line(a), allocates)] + rest
  {
    layout.NextLineCases(a);
    var later := if layout.NextLine(a) < high then layout.Visited(layout.NextLine(a), high) else [];
    assert layout.Visited(a, high) == [layout.Line(a)] + later;
    TouchesFirst(layout.Line(a), later, allocates);
  }

  lemma SingleLineStep(c: Config, s: State, addr: nat, kind: Kind)
    requires c.Accepts(CacheModel.AccessSingleLine(addr, kind))
    ensures var op, line := CacheModel.AccessSingleLine(addr, kind), c.layout.Line(addr);
            && c.Result(s, op) == Hits(s.sets, line)
            && c.Step(s, op)
               == State(Apply(s.sets, Touch(line, c.Allocates(kind))), s.stats.Bump(kind, Hits(s.sets, line)))
  {
    var line, allocates := c.layout.Line(addr), c.Allocates(kind);
    FirstTouch(s.sets, line, allocates, []);
    assert [Touch(line, allocates)] + [] == [Touch(line, allocates)];
  }

  lemma {:induction false} ShiftIsSmall(shift: nat)
    requires Pow2(shift) < UINT32_SPAN
    ensures shift < 32
  {
    WordSizes();
    if shift >= 32 {
      Pow2Monotone(32, shift);
    }
  }
}
