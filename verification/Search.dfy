/** The documentation search: ranks of the matched documents, their combination over all searched
    words, the filter for required and forbidden words, and the sort of what is reported. */
module Search {
  import opened Common
  import Profile

  // ----- The index, already decoded -----

  /** A document an indexed word occurs in. The stored frequency has its priority in bit 0. */
  datatype Occurrence = Occurrence(name: string, url: string, freq: nat)

  datatype Entry = Entry(word: string, occurrences: seq<Occurrence>)

  /** The entries of each hash key. */
  type Index = map<int, seq<Entry>>

  datatype DocInfo = DocInfo(name: string, url: string, freq: nat, hi: bool, rank: real)

  datatype WordStat = WordStat(word: string, matchedWord: string, full: bool, docs: seq<DocInfo>)

  /** The hash key of a word, from its first two bytes; -1 for a word without one. */
  function ComputeIndex(word: string): int {
    if |word| < 2 || word[0] as int == 0 || word[1] as int == 0 then -1
    else word[0] as int * 256 + word[1] as int
  }

  /** The key is made of the first two bytes, high byte first; words without two nonzero bytes have none. */
  lemma KeyHoldsTwoBytes(word: string)
    requires forall c <- word :: c as int < 256
    ensures ComputeIndex(word) != -1 <==> |word| >= 2 && word[0] != 0 as char && word[1] != 0 as char
    ensures ComputeIndex(word) != -1 ==>
              ComputeIndex(word) / 256 == word[0] as int && ComputeIndex(word) % 256 == word[1] as int
  {
    if |word| >= 2 {
      assert word[1] in word;
    }
  }

  predicate Matches(word: string, w: string) {
    word <= w
  }

  /** A string PHP takes for false: it ends the list of indexed words, and the query. */
  predicate Falsy(s: string) {
    s == "" || s == "0"
  }

  /** The entries that match a word as a prefix, up to the false word that ends the list. */
  function Matching(entries: seq<Entry>, word: string): seq<Entry> {
    if entries == [] || Falsy(entries[0].word) then []
    else (if Matches(word, entries[0].word) then [entries[0]] else []) + Matching(entries[1..], word)
  }

  function Matched(index: Index, word: string): seq<Entry> {
    var key := ComputeIndex(word);
    if key != -1 && key in index then Matching(index[key], word) else []
  }

  /** Whole-word matches count twice. */
  function Multiplier(word: string, e: Entry): nat {
    if |e.word| == |word| then 2 else 1
  }

  // ----- Ranks -----

  datatype Totals = Totals(hi: nat, freqHi: nat, freqLo: nat) {

    function Freq(): nat { Product(hi + 1, freqLo) + freqHi }

    predicate NoFreq() { freqHi == 0 && freqLo == 0 }

    /** Counts one occurrence with its raw frequency. */
    function Add(freq: nat, multiplier: nat): Totals {
      if freq % 2 == 1 then Totals(hi + 1, freqHi + Product(freq, multiplier), freqLo)
      else Totals(hi, freqHi, freqLo + Product(freq, multiplier))
    }

    function AddAll(os: seq<Occurrence>, multiplier: nat): Totals
      decreases |os|
    {
      if os == [] then this else Add(os[0].freq, multiplier).AddAll(os[1..], multiplier)
    }

    function AddEntries(word: string, es: seq<Entry>): Totals
      decreases |es|
    {
      if es == [] then this else AddAll(es[0].occurrences, Multiplier(word, es[0])).AddEntries(word, es[1..])
    }

    /** The numerator of an occurrence's rank: high-priority documents start above all others. */
    function Share(freq: nat, multiplier: nat): nat {
      Product(freq / 2, multiplier) + if freq % 2 == 1 then freqLo else 0
    }

    /** The rank; a division by zero yields PHP's false, which counts as zero. */
    function Rank(freq: nat, multiplier: nat): real {
      if Freq() == 0 then 0.0 else Share(freq, multiplier) as real / Freq() as real
    }

    function Ranked(o: Occurrence, multiplier: nat): DocInfo {
      DocInfo(o.name, o.url, o.freq / 2, o.freq % 2 == 1, Rank(o.freq, multiplier))
    }

    function RankedAll(os: seq<Occurrence>, multiplier: nat): seq<DocInfo> {
      seq(|os|, i requires 0 <= i < |os| => Ranked(os[i], multiplier))
    }

    function Stat(word: string, e: Entry): WordStat {
      WordStat(word, e.word, |e.word| == |word|, RankedAll(e.occurrences, Multiplier(word, e)))
    }

    function Stats(word: string, es: seq<Entry>): seq<WordStat> {
      seq(|es|, i requires 0 <= i < |es| => Stat(word, es[i]))
    }
  }

  const NO_TOTALS := Totals(0, 0, 0)

  /** What one search counts in its first pass. */
  function SearchTotals(index: Index, word: string): Totals {
    NO_TOTALS.AddEntries(word, Matched(index, word))
  }

  /** What one search adds to the results. */
  function Found(index: Index, word: string): seq<WordStat> {
    SearchTotals(index, word).Stats(word, Matched(index, word))
  }

  /** Appends the matches of a word with their ranks to the results. */
  method SearchWord(index: Index, word: string, statsList: seq<WordStat>) returns (results: seq<WordStat>)
    ensures results == statsList + Found(index, word)
  {
    results := statsList;
    var key := ComputeIndex(word);
    if key != -1 && key in index {
      var matched := CollectMatches(word, index[key]);
      var totals := CountTotals(word, matched);
      var count := 0;
      while count < |matched|
        invariant 0 <= count <= |matched|
        invariant results == statsList + totals.Stats(word, matched)[..count]
      {
        var stat := RankDocs(word, matched[count], totals);
        assert stat == totals.Stats(word, matched)[count];
        results := results + [stat];
        count := count + 1;
      }
    }
  }

  /** The words of a hash list that match, up to the false one. */
  method CollectMatches(word: string, entries: seq<Entry>) returns (matched: seq<Entry>)
    ensures matched == Matching(entries, word)
  {
    matched := [];
    var i := 0;
    while i < |entries| && !Falsy(entries[i].word)
      invariant 0 <= i <= |entries|
      invariant matched + Matching(entries[i..], word) == Matching(entries, word)
    {
      assert entries[i..][1..] == entries[i + 1..];
      if Matches(word, entries[i].word) {
        matched := matched + [entries[i]];
      }
      i := i + 1;
    }
  }

  /** The first pass: the totals over all documents of all matched words. */
  method CountTotals(word: string, matched: seq<Entry>) returns (totals: Totals)
    ensures totals == NO_TOTALS.AddEntries(word, matched)
  {
    totals := NO_TOTALS;
    var count := 0;
    while count < |matched|
      invariant 0 <= count <= |matched|
      invariant totals.AddEntries(word, matched[count..]) == NO_TOTALS.AddEntries(word, matched)
    {
      assert matched[count..][1..] == matched[count + 1..];
      totals := CountDocs(matched[count].occurrences, Multiplier(word, matched[count]), totals);
      count := count + 1;
    }
  }

  method CountDocs(docs: seq<Occurrence>, multiplier: nat, before: Totals) returns (totals: Totals)
    ensures totals == before.AddAll(docs, multiplier)
  {
    var totalHi: nat, totalFreqHi: nat, totalFreqLo: nat := before.hi, before.freqHi, before.freqLo;
    var i := 0;
    while i < |docs|
      invariant 0 <= i <= |docs|
      invariant Totals(totalHi, totalFreqHi, totalFreqLo).AddAll(docs[i..], multiplier)
                == before.AddAll(docs, multiplier)
    {
      assert docs[i..][1..] == docs[i + 1..];
      var freq := docs[i].freq;
      if freq % 2 == 1 {
        totalHi := totalHi + 1;
        totalFreqHi := totalFreqHi + Product(freq, multiplier);
      } else {
        totalFreqLo := totalFreqLo + Product(freq, multiplier);
      }
      i := i + 1;
    }
    totals := Totals(totalHi, totalFreqHi, totalFreqLo);
  }

  /** The second pass over the documents of one matched word. */
  method RankDocs(word: string, entry: Entry, totals: Totals) returns (stat: WordStat)
    ensures stat == totals.Stat(word, entry)
  {
    var multiplier := Multiplier(word, entry);
    var docs: seq<DocInfo> := [];
    var i := 0;
    while i < |entry.occurrences|
      invariant 0 <= i <= |entry.occurrences|
      invariant docs == totals.RankedAll(entry.occurrences[..i], multiplier)
    {
      docs := docs + [totals.Ranked(entry.occurrences[i], multiplier)];
      i := i + 1;
    }
    assert entry.occurrences[..i] == entry.occurrences;
    stat := WordStat(word, entry.word, |entry.word| == |word|, docs);
  }

  // ----- What a search finds -----

  /** Words are listed under their hash key. */
  predicate WellIndexed(index: Index) {
    forall key <- index :: forall e <- index[key] :: ComputeIndex(e.word) == key
  }

  lemma {:induction false} MatchingExactly(entries: seq<Entry>, word: string)
    requires forall e <- entries :: !Falsy(e.word)
    ensures forall e :: e in Matching(entries, word) <==> e in entries && word <= e.word
  {
    if entries != [] {
      assert entries[0] in entries;
      MatchingExactly(entries[1..], word);
      assert forall e :: e in entries <==> e == entries[0] || e in entries[1..];
    }
  }

  /** The members of xs stand in ys, in the same order, at the given places. */
  predicate StandsAt<T(==)>(xs: seq<T>, ys: seq<T>, places: seq<nat>) {
    && |places| == |xs|
    && (forall i | 0 <= i < |xs| :: places[i] < |ys| && xs[i] == ys[places[i]])
    && forall i, j | 0 <= i < j < |xs| :: places[i] < places[j]
  }

  lemma Shift<T>(xs: seq<T>, ys: seq<T>, rest: seq<nat>) returns (places: seq<nat>)
    requires ys != [] && StandsAt(xs, ys[1..], rest)
    ensures StandsAt(xs, ys, places) && 0 !in places
    ensures forall k: nat | k > 0 :: k in places <==> k - 1 in rest
  {
    places := seq(|rest|, i requires 0 <= i < |rest| => rest[i] + 1);
    forall k: nat | k > 0
      ensures k in places <==> k - 1 in rest
    {
      if k in places {
        var i :| 0 <= i < |places| && places[i] == k;
        assert rest[i] == k - 1;
      }
      if k - 1 in rest {
        var i :| 0 <= i < |rest| && rest[i] == k - 1;
        assert places[i] == k;
      }
    }
  }

  lemma Prepend<T>(xs: seq<T>, ys: seq<T>, places: seq<nat>)
    requires ys != [] && StandsAt(xs, ys, places) && 0 !in places
    ensures StandsAt([ys[0]] + xs, ys, [0] + places)
    ensures forall k :: k in [0] + places <==> k == 0 || k in places
  {
    var longer, all := [ys[0]] + xs, [0] + places;
    assert forall i | 0 < i < |longer| :: longer[i] == xs[i - 1] && all[i] == places[i - 1];
    assert forall i | 0 <= i < |places| :: places[i] in places;
  }

  /** The matches stand in the list once each and in its order: exactly the entries that start with the word,
      up to the first "" or "0". */
  lemma {:induction false} MatchesInOrder(entries: seq<Entry>, word: string)
    ensures exists places ::
              && StandsAt(Matching(entries, word), entries, places)
              && forall k: nat :: k in places <==>
                   && k < |entries| && word <= entries[k].word
                   && forall i | 0 <= i <= k :: entries[i].word != "" && entries[i].word != "0"
  {
    var places := MatchPlaces(entries, word);
    forall k: nat
      ensures k in places <==>
              && k < |entries| && word <= entries[k].word
              && forall i | 0 <= i <= k :: entries[i].word != "" && entries[i].word != "0"
    {
      MatchesAtExactly(entries, word, k);
    }
  }

  /** Recursively: the k-th entry is read and matches. */
  predicate MatchesAt(entries: seq<Entry>, word: string, k: nat) {
    && entries != [] && !Falsy(entries[0].word)
    && if k == 0 then Matches(word, entries[0].word) else MatchesAt(entries[1..], word, k - 1)
  }

  lemma {:induction false} MatchesAtExactly(entries: seq<Entry>, word: string, k: nat)
    ensures MatchesAt(entries, word, k) <==>
            && k < |entries| && word <= entries[k].word
            && forall i | 0 <= i <= k :: entries[i].word != "" && entries[i].word != "0"
    decreases k
  {
    if entries != [] && k > 0 {
      MatchesAtExactly(entries[1..], word, k - 1);
      assert forall i | 0 <= i < |entries| - 1 :: entries[1..][i] == entries[i + 1];
      assert forall i | 1 <= i < |entries| :: entries[1..][i - 1] == entries[i];
    }
  }

  lemma {:induction false} MatchPlaces(entries: seq<Entry>, word: string) returns (places: seq<nat>)
    ensures StandsAt(Matching(entries, word), entries, places)
    ensures forall k: nat :: k in places <==> MatchesAt(entries, word, k)
  {
    if entries == [] || Falsy(entries[0].word) {
      places := [];
    } else {
      var rest := MatchPlaces(entries[1..], word);
      var later := Matching(entries[1..], word);
      places := AllPlaces(later, entries, rest, Matches(word, entries[0].word));
      assert [] + later == later;
      forall k: nat
        ensures k in places <==> MatchesAt(entries, word, k)
      {
        assert k > 0 ==> (k in places <==> k - 1 in rest);
      }
    }
  }

  /** The places of a selection, from those of the selection among all but the first. */
  lemma AllPlaces<T>(later: seq<T>, ys: seq<T>, rest: seq<nat>, first: bool) returns (places: seq<nat>)
    requires ys != [] && StandsAt(later, ys[1..], rest)
    ensures StandsAt((if first then [ys[0]] else []) + later, ys, places)
    ensures (0 in places <==> first) && forall k: nat | k > 0 :: k in places <==> k - 1 in rest
  {
    var shifted := Shift(later, ys, rest);
    if first {
      Prepend(later, ys, shifted);
      places := [0] + shifted;
    } else {
      assert [] + later == later;
      places := shifted;
    }
  }

  /** The hash key depends on the first two bytes only, so the one list that is read holds every
      indexed word that starts with a searched word of two or more nonzero bytes, and a search for any
      other word finds nothing. */
  lemma SearchFindsAllPrefixes(index: Index, word: string, key: int, e: Entry)
    requires WellIndexed(index) && key in index && e in index[key]
    ensures e in Matched(index, word) <==> word <= e.word && ComputeIndex(word) != -1
  {
    var own := ComputeIndex(word);
    if own != -1 && own in index {
      MatchingExactly(index[own], word);
      if e in index[own] {
        assert key == ComputeIndex(e.word) == own;
      }
    }
    if own != -1 && word <= e.word {
      assert e.word[0] == word[0] && e.word[1] == word[1];
    }
  }

  lemma {:induction false} MatchedWordsStartWith(entries: seq<Entry>, word: string)
    ensures forall e <- Matching(entries, word) :: word <= e.word
  {
    if entries != [] && !Falsy(entries[0].word) {
      MatchedWordsStartWith(entries[1..], word);
    }
  }

  /** A result names its indexed word, which starts with the searched one, and is a whole-word match
      when they are the same; its documents are those of the indexed word, in order. */
  lemma ResultsDescribeMatches(index: Index, word: string, k: nat)
    requires k < |Found(index, word)|
    ensures k < |Matched(index, word)|
    ensures var s, e := Found(index, word)[k], Matched(index, word)[k];
            && s.word == word <= s.matchedWord == e.word
            && (s.full <==> s.matchedWord == word)
            && |s.docs| == |e.occurrences|
            && forall i | 0 <= i < |s.docs| ::
                 && s.docs[i].url == e.occurrences[i].url && s.docs[i].name == e.occurrences[i].name
                 && 2 * s.docs[i].freq + (if s.docs[i].hi then 1 else 0) == e.occurrences[i].freq
  {
    var e := Matched(index, word)[k];
    MatchedWordsStartWith(index[ComputeIndex(word)], word);
    assert word <= e.word;
    assert |e.word| == |word| ==> e.word[..|word|] == e.word;
  }

  // ----- What ranks are worth -----

  function RankSum(docs: seq<DocInfo>): real {
    if docs == [] then 0.0 else docs[0].rank + RankSum(docs[1..])
  }

  function RankTotal(stats: seq<WordStat>): real {
    if stats == [] then 0.0 else RankSum(stats[0].docs) + RankTotal(stats[1..])
  }

  /** Sum of the numerators. */
  function Shares(t: Totals, os: seq<Occurrence>, multiplier: nat): nat {
    if os == [] then 0 else t.Share(os[0].freq, multiplier) + Shares(t, os[1..], multiplier)
  }

  function AllShares(t: Totals, word: string, es: seq<Entry>): nat {
    if es == [] then 0
    else Shares(t, es[0].occurrences, Multiplier(word, es[0])) + AllShares(t, word, es[1..])
  }

  lemma HalfFrequency(freq: nat, multiplier: nat)
    requires multiplier == 1 || multiplier == 2
    ensures 2 * Product(freq / 2, multiplier) + (if freq % 2 == 1 then multiplier else 0) == Product(freq, multiplier)
  {
  }

  // What the totals are: numbers and weights of occurrences of one priority.

  function HighCount(os: seq<Occurrence>): nat {
    if os == [] then 0 else (if os[0].freq % 2 == 1 then 1 else 0) + HighCount(os[1..])
  }

  function AllHigh(es: seq<Entry>): nat {
    if es == [] then 0 else HighCount(es[0].occurrences) + AllHigh(es[1..])
  }

  /** The raw frequencies of the occurrences of one priority, with their multiplier. */
  function Weight(os: seq<Occurrence>, multiplier: nat, high: bool): nat {
    if os == [] then 0
    else
      (if (os[0].freq % 2 == 1) == high then Product(os[0].freq, multiplier) else 0)
      + Weight(os[1..], multiplier, high)
  }

  function AllWeight(word: string, es: seq<Entry>, high: bool): nat {
    if es == [] then 0
    else Weight(es[0].occurrences, Multiplier(word, es[0]), high) + AllWeight(word, es[1..], high)
  }

  /** The high-priority occurrences, each counted with its multiplier. */
  function HighMultipliers(word: string, es: seq<Entry>): nat {
    if es == [] then 0
    else Product(HighCount(es[0].occurrences), Multiplier(word, es[0])) + HighMultipliers(word, es[1..])
  }

  lemma {:induction false} PassTotals(u: Totals, os: seq<Occurrence>, multiplier: nat)
    ensures u.AddAll(os, multiplier)
            == Totals(u.hi + HighCount(os), u.freqHi + Weight(os, multiplier, true),
                      u.freqLo + Weight(os, multiplier, false))
    decreases |os|
  {
    if os != [] {
      PassTotals(u.Add(os[0].freq, multiplier), os[1..], multiplier);
    }
  }

  lemma {:induction false} AllTotals(u: Totals, word: string, es: seq<Entry>)
    ensures u.AddEntries(word, es)
            == Totals(u.hi + AllHigh(es), u.freqHi + AllWeight(word, es, true), u.freqLo + AllWeight(word, es, false))
    decreases |es|
  {
    if es != [] {
      var m := Multiplier(word, es[0]);
      PassTotals(u, es[0].occurrences, m);
      AllTotals(u.AddAll(es[0].occurrences, m), word, es[1..]);
    }
  }

  lemma ProductSum(a: nat, b: nat, d: nat)
    ensures Product(a + b, d) == Product(a, d) + Product(b, d)
  {
  }

  lemma ProductOfOne(d: nat)
    ensures Product(0, d) == 0 && Product(1, d) == d
  {
  }

  /** Twice the numerators are the weights, less the bits that say high priority, and twice the head start of
      the high-priority documents. */
  lemma {:induction false} SharesOfPass(t: Totals, os: seq<Occurrence>, multiplier: nat)
    requires multiplier == 1 || multiplier == 2
    ensures 2 * Shares(t, os, multiplier) + Product(HighCount(os), multiplier)
            == Weight(os, multiplier, true) + Weight(os, multiplier, false) + 2 * Product(HighCount(os), t.freqLo)
  {
    ProductOfOne(multiplier);
    ProductOfOne(t.freqLo);
    if os != [] {
      ShareOfOne(t, os[0].freq, multiplier);
      SharesOfPass(t, os[1..], multiplier);
      ProductSum(1, HighCount(os[1..]), multiplier);
      ProductSum(1, HighCount(os[1..]), t.freqLo);
    }
  }

  lemma ShareOfOne(t: Totals, freq: nat, multiplier: nat)
    requires multiplier == 1 || multiplier == 2
    ensures 2 * t.Share(freq, multiplier) + (if freq % 2 == 1 then multiplier else 0)
            == Product(freq, multiplier) + if freq % 2 == 1 then 2 * t.freqLo else 0
  {
    HalfFrequency(freq, multiplier);
  }

  lemma {:induction false} SharesOfAll(t: Totals, word: string, es: seq<Entry>)
    ensures 2 * AllShares(t, word, es) + HighMultipliers(word, es)
            == AllWeight(word, es, true) + AllWeight(word, es, false) + 2 * Product(AllHigh(es), t.freqLo)
  {
    ProductOfOne(t.freqLo);
    if es != [] {
      SharesOfPass(t, es[0].occurrences, Multiplier(word, es[0]));
      SharesOfAll(t, word, es[1..]);
      ProductSum(HighCount(es[0].occurrences), AllHigh(es[1..]), t.freqLo);
    }
  }

  /** All numerators of a search together do not exceed the common denominator. */
  lemma {:induction false} SharesWithinTotal(word: string, es: seq<Entry>)
    ensures var t := NO_TOTALS.AddEntries(word, es);
            && t.Freq() == Product(AllHigh(es), t.freqLo) + t.freqLo + t.freqHi
            && 2 * AllShares(t, word, es) + HighMultipliers(word, es) == t.Freq() + Product(AllHigh(es), t.freqLo)
            && AllShares(t, word, es) <= t.Freq()
  {
    var t := NO_TOTALS.AddEntries(word, es);
    AllTotals(NO_TOTALS, word, es);
    SharesOfAll(t, word, es);
    FreqSum(t);
  }

  lemma FreqSum(t: Totals)
    ensures t.Freq() == Product(t.hi, t.freqLo) + t.freqLo + t.freqHi
  {
    ProductSum(t.hi, 1, t.freqLo);
    ProductOfOne(t.freqLo);
  }

  lemma {:induction false} SumOfRanks(t: Totals, os: seq<Occurrence>, multiplier: nat)
    requires t.Freq() > 0
    ensures RankSum(t.RankedAll(os, multiplier)) == Shares(t, os, multiplier) as real / t.Freq() as real
    decreases |os|
  {
    var docs := t.RankedAll(os, multiplier);
    if os != [] {
      SumOfRanks(t, os[1..], multiplier);
      assert docs[1..] == t.RankedAll(os[1..], multiplier);
      AddFractions(t.Share(os[0].freq, multiplier), Shares(t, os[1..], multiplier), t.Freq());
    }
  }

  lemma AddFractions(a: nat, b: nat, d: nat)
    requires d > 0
    ensures a as real / d as real + b as real / d as real == (a + b) as real / d as real
  {
  }

  lemma {:induction false} SumOfAllRanks(t: Totals, word: string, es: seq<Entry>)
    requires t.Freq() > 0
    ensures RankTotal(t.Stats(word, es)) == AllShares(t, word, es) as real / t.Freq() as real
    decreases |es|
  {
    var stats := t.Stats(word, es);
    if es != [] {
      var m := Multiplier(word, es[0]);
      SumOfRanks(t, es[0].occurrences, m);
      SumOfAllRanks(t, word, es[1..]);
      assert stats[1..] == t.Stats(word, es[1..]);
      AddFractions(Shares(t, es[0].occurrences, m), AllShares(t, word, es[1..]), t.Freq());
    }
  }

  lemma FractionRange(a: nat, d: nat)
    requires d > 0
    ensures a as real / d as real >= 0.0
    ensures a <= d ==> a as real / d as real <= 1.0
  {
  }

  lemma FractionOrder(a: nat, b: nat, d: nat)
    requires d > 0 && a <= b
    ensures a as real / d as real <= b as real / d as real
  {
  }

  lemma ZeroRanks(t: Totals, word: string, es: seq<Entry>)
    requires t.Freq() == 0
    ensures RankTotal(t.Stats(word, es)) == 0.0
    decreases |es|
  {
    if es != [] {
      ZeroRankDocs(t, es[0].occurrences, Multiplier(word, es[0]));
      ZeroRanks(t, word, es[1..]);
      assert t.Stats(word, es)[1..] == t.Stats(word, es[1..]);
    }
  }

  lemma ZeroRankDocs(t: Totals, os: seq<Occurrence>, multiplier: nat)
    requires t.Freq() == 0
    ensures RankSum(t.RankedAll(os, multiplier)) == 0.0
    decreases |os|
  {
    if os != [] {
      ZeroRankDocs(t, os[1..], multiplier);
      assert t.RankedAll(os, multiplier)[1..] == t.RankedAll(os[1..], multiplier);
    }
  }

  predicate NoNegativeRanks(stats: seq<WordStat>) {
    forall s <- stats :: forall d <- s.docs :: d.rank >= 0.0
  }

  /** The ranks one search gives are not negative. They sum to at most 1 where they are defined, and
      are all zero, by PHP's reading of false, where the division has no result. */
  lemma SearchRanksAreShares(index: Index, word: string)
    ensures NoNegativeRanks(Found(index, word))
    ensures SearchTotals(index, word).Freq() > 0 ==> 0.0 <= RankTotal(Found(index, word)) <= 1.0
    ensures SearchTotals(index, word).Freq() == 0 ==> RankTotal(Found(index, word)) == 0.0
  {
    var es := Matched(index, word);
    var t := SearchTotals(index, word);
    forall s <- Found(index, word), d <- s.docs
      ensures d.rank >= 0.0
    {
      var k :| 0 <= k < |es| && s == t.Stat(word, es[k]);
      var j :| 0 <= j < |s.docs| && d == s.docs[j];
      if t.Freq() > 0 {
        FractionRange(t.Share(es[k].occurrences[j].freq, Multiplier(word, es[k])), t.Freq());
      }
    }
    if t.Freq() == 0 {
      ZeroRanks(t, word, es);
    } else {
      SumOfAllRanks(t, word, es);
      SharesWithinTotal(word, es);
      FractionRange(AllShares(t, word, es), t.Freq());
    }
  }

  predicate AllZero(os: seq<Occurrence>) {
    forall o <- os :: o.freq == 0
  }

  lemma {:induction false} ZeroAddAll(u: Totals, os: seq<Occurrence>, multiplier: nat)
    requires multiplier == 1 || multiplier == 2
    ensures u.AddAll(os, multiplier).NoFreq() <==> u.NoFreq() && AllZero(os)
    decreases |os|
  {
    if os != [] {
      ZeroAddAll(u.Add(os[0].freq, multiplier), os[1..], multiplier);
      assert AllZero(os) <==> os[0].freq == 0 && AllZero(os[1..]) by {
        assert forall o :: o in os <==> o == os[0] || o in os[1..];
      }
    }
  }

  lemma {:induction false} ZeroAddEntries(u: Totals, word: string, es: seq<Entry>)
    ensures u.AddEntries(word, es).NoFreq() <==> u.NoFreq() && NoFrequency(es)
    decreases |es|
  {
    if es != [] {
      var m := Multiplier(word, es[0]);
      ZeroAddAll(u, es[0].occurrences, m);
      ZeroAddEntries(u.AddAll(es[0].occurrences, m), word, es[1..]);
      assert NoFrequency(es) <==> AllZero(es[0].occurrences) && NoFrequency(es[1..]) by {
        assert forall e :: e in es <==> e == es[0] || e in es[1..];
      }
    }
  }

  lemma ZeroFreq(u: Totals)
    ensures u.Freq() == 0 <==> u.NoFreq()
  {
    FreqSum(u);
    assert u.freqLo == 0 ==> Product(u.hi, u.freqLo) == 0;
  }

  /** Every occurrence of every entry has frequency 0. */
  predicate NoFrequency(es: seq<Entry>) {
    forall e <- es :: AllZero(e.occurrences)
  }

  predicate Occurs(es: seq<Entry>) {
    exists e <- es :: e.occurrences != []
  }

  /** A rank is computed with a zero denominator. */
  predicate DividesByZero(index: Index, word: string) {
    Occurs(Matched(index, word)) && SearchTotals(index, word).Freq() == 0
  }

  /** A search divides by zero exactly when a matched word occurs somewhere and every occurrence of
      every matched word has frequency 0. */
  lemma DividesByZeroExactly(index: Index, word: string)
    ensures DividesByZero(index, word) <==> Occurs(Matched(index, word)) && NoFrequency(Matched(index, word))
  {
    ZeroFreq(SearchTotals(index, word));
    ZeroAddEntries(NO_TOTALS, word, Matched(index, word));
  }

  /** An index with one word that occurs in one document with frequency 0. */
  lemma ZeroFrequencyFails(word: string, o: Occurrence, index: Index)
    requires ComputeIndex(word) != -1 && o.freq == 0
    requires index == map[ComputeIndex(word) := [Entry(word, [o])]]
    ensures WellIndexed(index) && DividesByZero(index, word)
    ensures |Found(index, word)| == 1 && |Found(index, word)[0].docs| == 1
  {
    OnlyMatch(index, Entry(word, [o]));
    DividesByZeroExactly(index, word);
    assert Entry(word, [o]) in Matched(index, word);
  }

  lemma OnlyMatch(index: Index, e: Entry)
    requires ComputeIndex(e.word) != -1 && index == map[ComputeIndex(e.word) := [e]]
    ensures Matched(index, e.word) == [e]
  {
    assert [e][1..] == [];
    assert Matching([e][1..], e.word) == [];
  }

  /** The sum of all ranks of a search, exactly: `high` occurrences of high priority, and low-priority
      occurrences of weight `low`. A search that finds no high-priority document has ranks of sum 1/2. */
  lemma {:induction false} RanksSumExactly(word: string, es: seq<Entry>)
    requires NO_TOTALS.AddEntries(word, es).Freq() > 0
    ensures var t := NO_TOTALS.AddEntries(word, es);
            var total, high, low := RankTotal(t.Stats(word, es)), AllHigh(es), AllWeight(word, es, false);
            && t.Freq() == Product(high, low) + low + AllWeight(word, es, true)
            && 2.0 * Scaled(total, t.Freq()) == (t.Freq() + Product(high, low) - HighMultipliers(word, es)) as real
            && (high == 0 ==> total == 0.5)
  {
    var t := NO_TOTALS.AddEntries(word, es);
    AllTotals(NO_TOTALS, word, es);
    SharesWithinTotal(word, es);
    SumOfAllRanks(t, word, es);
    TwiceFraction(AllShares(t, word, es), t.Freq(), RankTotal(t.Stats(word, es)));
    ProductOfOne(t.freqLo);
    if AllHigh(es) == 0 {
      NoHighNoMultipliers(word, es);
    }
  }

  lemma TwiceFraction(a: nat, d: nat, r: real)
    requires d > 0 && r == a as real / d as real
    ensures 2.0 * Scaled(r, d) == (2 * a) as real
    ensures 2 * a == d ==> r == 0.5
  {
    FractionTimes(a, d);
    if 2 * a == d {
      AddFractions(a, a, d);
      WholeFraction(d as real);
    }
  }

  lemma WholeFraction(d: real)
    requires d > 0.0
    ensures d / d == 1.0
  {
  }

  lemma FractionTimes(a: nat, d: nat)
    requires d > 0
    ensures Scaled(a as real / d as real, d) == a as real
  {
  }

  function Scaled(r: real, d: nat): real { r * d as real }

  lemma {:induction false} NoHighNoMultipliers(word: string, es: seq<Entry>)
    requires AllHigh(es) == 0
    ensures HighMultipliers(word, es) == 0
  {
    if es != [] {
      ProductOfOne(Multiplier(word, es[0]));
      NoHighNoMultipliers(word, es[1..]);
    }
  }

  lemma {:induction false} LowWeight(os: seq<Occurrence>, multiplier: nat, i: nat)
    requires i < |os| && os[i].freq % 2 == 0
    ensures Weight(os, multiplier, false) >= Product(os[i].freq, multiplier)
  {
    if i > 0 {
      LowWeight(os[1..], multiplier, i - 1);
    }
  }

  lemma {:induction false} LowEntryWeight(word: string, es: seq<Entry>, k: nat, i: nat)
    requires k < |es| && i < |es[k].occurrences| && es[k].occurrences[i].freq % 2 == 0
    ensures AllWeight(word, es, false) >= Product(es[k].occurrences[i].freq, Multiplier(word, es[k]))
  {
    if k == 0 {
      LowWeight(es[0].occurrences, Multiplier(word, es[0]), i);
    } else {
      LowEntryWeight(word, es[1..], k - 1, i);
    }
  }

  /** In one search every high-priority occurrence ranks at least as high as every low-priority one,
      whatever the whole-word multipliers. */
  lemma {:induction false} HighPriorityFirst(word: string, es: seq<Entry>, k: nat, i: nat, m: nat, j: nat)
    requires k < |es| && i < |es[k].occurrences| && es[k].occurrences[i].freq % 2 == 1
    requires m < |es| && j < |es[m].occurrences| && es[m].occurrences[j].freq % 2 == 0
    ensures var stats := NO_TOTALS.AddEntries(word, es).Stats(word, es);
            stats[k].docs[i].rank >= stats[m].docs[j].rank
  {
    var t := NO_TOTALS.AddEntries(word, es);
    var high, low := es[k].occurrences[i].freq, es[m].occurrences[j].freq;
    var a, b := Multiplier(word, es[k]), Multiplier(word, es[m]);
    AllTotals(NO_TOTALS, word, es);
    LowEntryWeight(word, es, m, j);
    HalfFrequency(low, b);
    if t.Freq() > 0 {
      FractionOrder(t.Share(low, b), t.Share(high, a), t.Freq());
    }
  }

  /** Differences of ranks in one search, between documents of words that match alike: at equal priority they
      are proportional to the frequencies, and high priority is worth the weight of all low-priority
      documents. */
  lemma {:induction false} RankDifferences(word: string, es: seq<Entry>, k: nat, i: nat, m: nat, j: nat)
    requires k < |es| && i < |es[k].occurrences| && m < |es| && j < |es[m].occurrences|
    requires NO_TOTALS.AddEntries(word, es).Freq() > 0
    ensures var t := NO_TOTALS.AddEntries(word, es);
            var stats := t.Stats(word, es);
            var a, b := stats[k].docs[i], stats[m].docs[j];
            stats[k].full == stats[m].full ==>
              && (a.hi == b.hi ==>
                    Scaled(a.rank - b.rank, t.Freq())
                    == ((if stats[k].full then 2 else 1) * (a.freq - b.freq)) as real)
              && (a.hi == b.hi && a.freq > b.freq ==> a.rank > b.rank)
              && (a.hi && !b.hi && a.freq == b.freq ==>
                    Scaled(a.rank - b.rank, t.Freq()) == AllWeight(word, es, false) as real)
  {
    var t := NO_TOTALS.AddEntries(word, es);
    AllTotals(NO_TOTALS, word, es);
    var o, p := es[k].occurrences[i], es[m].occurrences[j];
    var a, b := Multiplier(word, es[k]), Multiplier(word, es[m]);
    var stats := t.Stats(word, es);
    assert stats[k].docs[i] == t.Ranked(o, a) && stats[m].docs[j] == t.Ranked(p, b);
    if a == b {
      DifferenceOfRanks(t, o, p, a);
    }
  }

  lemma DifferenceOfRanks(t: Totals, o: Occurrence, p: Occurrence, multiplier: nat)
    requires t.Freq() > 0 && (multiplier == 1 || multiplier == 2)
    ensures var a, b := t.Ranked(o, multiplier), t.Ranked(p, multiplier);
            && (a.hi == b.hi ==> Scaled(a.rank - b.rank, t.Freq()) == (multiplier * (a.freq - b.freq)) as real)
            && (a.hi == b.hi && a.freq > b.freq ==> a.rank > b.rank)
            && (a.hi && !b.hi && a.freq == b.freq ==> Scaled(a.rank - b.rank, t.Freq()) == t.freqLo as real)
  {
    ShareDifference(t, o.freq, p.freq, multiplier);
    DifferenceOfFractions(t.Share(o.freq, multiplier), t.Share(p.freq, multiplier), t.Freq(),
                          t.Rank(o.freq, multiplier), t.Rank(p.freq, multiplier));
  }

  lemma ShareDifference(t: Totals, f: nat, g: nat, multiplier: nat)
    requires multiplier == 1 || multiplier == 2
    ensures f % 2 == g % 2 ==> t.Share(f, multiplier) - t.Share(g, multiplier) == multiplier * (f / 2 - g / 2)
    ensures f % 2 == 1 && g % 2 == 0 && f / 2 == g / 2 ==> t.Share(f, multiplier) - t.Share(g, multiplier) == t.freqLo
  {
  }

  lemma DifferenceOfFractions(a: nat, b: nat, d: nat, r: real, s: real)
    requires d > 0 && r == a as real / d as real && s == b as real / d as real
    ensures Scaled(r - s, d) == (a - b) as real
    ensures a > b ==> r > s
  {
  }

  /** Among documents of the same priority, a higher frequency never ranks lower, unless only the lower one is
      a whole-word match; and a whole-word match in a low-priority document counts exactly twice. */
  lemma {:induction false} FrequencyAndWholeWord(word: string, es: seq<Entry>, k: nat, i: nat, m: nat, j: nat)
    requires k < |es| && i < |es[k].occurrences| && m < |es| && j < |es[m].occurrences|
    requires es[k].occurrences[i].freq % 2 == es[m].occurrences[j].freq % 2
    ensures var stats := NO_TOTALS.AddEntries(word, es).Stats(word, es);
            var high, low := stats[k].docs[i], stats[m].docs[j];
            && ((high.freq >= low.freq && (stats[k].full || !stats[m].full)) ==> high.rank >= low.rank)
            && (high.freq == low.freq && !high.hi && stats[k].full && !stats[m].full ==> high.rank == 2.0 * low.rank)
  {
    var t := NO_TOTALS.AddEntries(word, es);
    var f, g := es[k].occurrences[i].freq, es[m].occurrences[j].freq;
    var a, b := Multiplier(word, es[k]), Multiplier(word, es[m]);
    if t.Freq() > 0 {
      if f / 2 >= g / 2 && a >= b {
        ProductMonotone(g / 2, b, f / 2, a);
        FractionOrder(t.Share(g, b), t.Share(f, a), t.Freq());
      }
      if f / 2 == g / 2 && f % 2 == 0 && a == 2 && b == 1 {
        AddFractions(t.Share(g, b), t.Share(g, b), t.Freq());
      }
    }
  }

  /** An exception: a prefix match with frequency 3 ranks below a whole-word match with frequency 2, both in
      low-priority documents. */
  lemma {:induction false} WholeWordBeatsFrequency(word: string, longer: Entry, whole: Entry)
    requires word != "" && whole.word == word && longer.word == word + "s"
    requires longer.occurrences == [Occurrence("a", "a", 6)] && whole.occurrences == [Occurrence("b", "b", 4)]
    ensures var es := [longer, whole];
            var stats := NO_TOTALS.AddEntries(word, es).Stats(word, es);
            && stats[0].docs[0].freq == 3 && stats[1].docs[0].freq == 2
            && !stats[0].docs[0].hi && !stats[1].docs[0].hi
            && stats[0].docs[0].rank < stats[1].docs[0].rank
  {
    var es := [longer, whole];
    var t := NO_TOTALS.AddEntries(word, es);
    assert es[1..] == [whole] && [whole][1..] == [];
    assert NO_TOTALS.AddAll(longer.occurrences, 1) == Totals(0, 0, 6) by {
      assert longer.occurrences[1..] == [] && Product(6, 1) == 6;
    }
    assert Totals(0, 0, 6).AddAll(whole.occurrences, 2) == Totals(0, 0, 14) by {
      assert whole.occurrences[1..] == [] && Product(4, 2) == 8;
    }
    assert Multiplier(word, longer) == 1 && Multiplier(word, whole) == 2;
    assert t == Totals(0, 0, 6).AddEntries(word, [whole]) == Totals(0, 0, 14).AddEntries(word, []) == Totals(0, 0, 14);
    assert t.Freq() == 14 && t.Share(6, 1) == 3 && t.Share(4, 2) == 4;
  }

  lemma ProductMonotone(a: nat, b: nat, c: nat, d: nat)
    requires a <= c && b <= d
    ensures Product(a, b) <= Product(c, d)
  {
    assert Product(c, d) - Product(a, b) == Product(c - a, d) + Product(a, d - b);
  }

  // ----- Combining the results of all words -----

  datatype WordRef = WordRef(word: string, matchedWord: string, freq: nat)

  datatype Doc = Doc(url: string, name: string, rank: real, words: seq<WordRef>)

  /** One word's information about one document. */
  datatype Mention = Mention(url: string, name: string, rank: real, ref: WordRef)

  function MentionOf(w: WordStat, d: DocInfo): Mention {
    Mention(d.url, d.name, d.rank, WordRef(w.word, w.matchedWord, d.freq))
  }

  function DocMentions(w: WordStat): seq<Mention> {
    seq(|w.docs|, i requires 0 <= i < |w.docs| => MentionOf(w, w.docs[i]))
  }

  /** All mentions in order of arrival. */
  function Mentions(results: seq<WordStat>): seq<Mention> {
    if results == [] then [] else DocMentions(results[0]) + Mentions(results[1..])
  }

  predicate DistinctUrls(docs: seq<Doc>) {
    forall i, j | 0 <= i < j < |docs| :: docs[i].url != docs[j].url
  }

  /** The place of a URL's document; the length when there is none. */
  function Find(docs: seq<Doc>, url: string): (i: nat)
    ensures i <= |docs| && (i < |docs| ==> docs[i].url == url)
    ensures forall k | 0 <= k < i :: docs[k].url != url
  {
    if docs == [] then 0 else if docs[0].url == url then 0 else 1 + Find(docs[1..], url)
  }

  /** A mention adds its rank and word to its document, or starts a new document. */
  function AddMention(docs: seq<Doc>, m: Mention): seq<Doc> {
    var i := Find(docs, m.url);
    if i < |docs| then docs[i := docs[i].(rank := docs[i].rank + m.rank, words := docs[i].words + [m.ref])]
    else docs + [Doc(m.url, m.name, m.rank, [m.ref])]
  }

  function AddMentions(docs: seq<Doc>, ms: seq<Mention>): seq<Doc>
    decreases |ms|
  {
    if ms == [] then docs else AddMentions(AddMention(docs, ms[0]), ms[1..])
  }

  /** Groups the mentions of all words by document. */
  method CombineResults(results: seq<WordStat>, docs: seq<Doc>) returns (combined: seq<Doc>)
    ensures combined == AddMentions(docs, Mentions(results))
  {
    combined := docs;
    var r := 0;
    while r < |results|
      invariant 0 <= r <= |results|
      invariant AddMentions(combined, Mentions(results[r..])) == AddMentions(docs, Mentions(results))
    {
      assert results[r..][1..] == results[r + 1..];
      AddMentionsConcat(combined, DocMentions(results[r]), Mentions(results[r + 1..]));
      combined := CombineWord(results[r], combined);
      r := r + 1;
    }
  }

  method CombineWord(w: WordStat, docs: seq<Doc>) returns (combined: seq<Doc>)
    ensures combined == AddMentions(docs, DocMentions(w))
  {
    combined := docs;
    ghost var ms := DocMentions(w);
    var i := 0;
    while i < |w.docs|
      invariant 0 <= i <= |w.docs|
      invariant AddMentions(combined, ms[i..]) == AddMentions(docs, ms)
    {
      assert ms[i..][1..] == ms[i + 1..];
      combined := CombineDoc(MentionOf(w, w.docs[i]), combined);
      i := i + 1;
    }
  }

  method CombineDoc(m: Mention, docs: seq<Doc>) returns (combined: seq<Doc>)
    ensures combined == AddMention(docs, m)
  {
    var place := FindDoc(docs, m.url);
    if place < |docs| {
      combined := docs[place := docs[place].(rank := docs[place].rank + m.rank, words := docs[place].words + [m.ref])];
    } else {
      combined := docs + [Doc(m.url, m.name, m.rank, [m.ref])];
    }
  }

  method FindDoc(docs: seq<Doc>, url: string) returns (place: nat)
    ensures place == Find(docs, url)
  {
    place := 0;
    while place < |docs| && docs[place].url != url
      invariant 0 <= place <= |docs|
      invariant Find(docs, url) == place + Find(docs[place..], url)
    {
      assert docs[place..][1..] == docs[place + 1..];
      place := place + 1;
    }
  }

  lemma {:induction false} AddMentionsConcat(docs: seq<Doc>, xs: seq<Mention>, ys: seq<Mention>)
    ensures AddMentions(docs, xs + ys) == AddMentions(AddMentions(docs, xs), ys)
    decreases |xs|
  {
    if xs == [] {
      assert [] + ys == ys;
    } else {
      var next := FirstOfBoth(docs, xs, ys);
      AddMentionsConcat(next, xs[1..], ys);
    }
  }

  lemma FirstOfBoth(docs: seq<Doc>, xs: seq<Mention>, ys: seq<Mention>) returns (next: seq<Doc>)
    requires xs != []
    ensures AddMentions(docs, xs) == AddMentions(next, xs[1..])
    ensures AddMentions(docs, xs + ys) == AddMentions(next, xs[1..] + ys)
  {
    next := AddMention(docs, xs[0]);
    assert (xs + ys)[0] == xs[0] && (xs + ys)[1..] == xs[1..] + ys;
  }

  /** Every document of every result is mentioned, as itself, and nothing else is. */
  lemma {:induction false} MentionsAreResults(results: seq<WordStat>, m: Mention)
    ensures m in Mentions(results) <==>
            exists r, i | 0 <= r < |results| && 0 <= i < |results[r].docs| ::
              var w, d := results[r], results[r].docs[i];
              m == Mention(d.url, d.name, d.rank, WordRef(w.word, w.matchedWord, d.freq))
  {
    MentionsDescribe(results, m);
    if r, i :| 0 <= r < |results| && 0 <= i < |results[r].docs| && Describes(m, results[r], results[r].docs[i]) {
      var w, d := results[r], results[r].docs[i];
      assert m == Mention(d.url, d.name, d.rank, WordRef(w.word, w.matchedWord, d.freq));
    }
  }

  lemma {:induction false} MentionsDescribe(results: seq<WordStat>, m: Mention)
    ensures m in Mentions(results) <==>
            exists r, i | 0 <= r < |results| && 0 <= i < |results[r].docs| ::
              Describes(m, results[r], results[r].docs[i])
  {
    if results != [] {
      MentionsDescribe(results[1..], m);
      var rest := results[1..];
      if r, i :| 0 <= r < |rest| && 0 <= i < |rest[r].docs| && Describes(m, rest[r], rest[r].docs[i]) {
        assert Describes(m, results[r + 1], results[r + 1].docs[i]);
      }
      if i :| 0 <= i < |results[0].docs| && Describes(m, results[0], results[0].docs[i]) {
        assert DocMentions(results[0])[i] == m;
      }
      if m in DocMentions(results[0]) {
        var i :| 0 <= i < |results[0].docs| && m == DocMentions(results[0])[i];
        assert Describes(m, results[0], results[0].docs[i]);
      }
      forall r, i | 0 <= r < |results| && 0 <= i < |results[r].docs| && Describes(m, results[r], results[r].docs[i])
        ensures m in Mentions(results)
      {
        if r > 0 {
          assert Describes(m, rest[r - 1], rest[r - 1].docs[i]);
        }
      }
    }
  }

  predicate Describes(m: Mention, w: WordStat, d: DocInfo) {
    && m.url == d.url && m.name == d.name && m.rank == d.rank
    && m.ref.word == w.word && m.ref.matchedWord == w.matchedWord && m.ref.freq == d.freq
  }

  // ----- What the combination keeps -----

  function TotalRank(docs: seq<Doc>): real {
    if docs == [] then 0.0 else docs[0].rank + TotalRank(docs[1..])
  }

  function WordCount(docs: seq<Doc>): nat {
    if docs == [] then 0 else |docs[0].words| + WordCount(docs[1..])
  }

  function MentionedRank(ms: seq<Mention>): real {
    if ms == [] then 0.0 else ms[0].rank + MentionedRank(ms[1..])
  }

  lemma {:induction false} TotalsAfterUpdate(docs: seq<Doc>, i: nat, d: Doc)
    requires i < |docs|
    ensures TotalRank(docs[i := d]) == TotalRank(docs) - docs[i].rank + d.rank
    ensures WordCount(docs[i := d]) == WordCount(docs) - |docs[i].words| + |d.words|
  {
    if i == 0 {
      assert docs[i := d][1..] == docs[1..];
    } else {
      TotalsAfterUpdate(docs[1..], i - 1, d);
      assert docs[i := d][1..] == docs[1..][i - 1 := d];
    }
  }

  lemma {:induction false} TotalsAfterAppend(docs: seq<Doc>, d: Doc)
    ensures TotalRank(docs + [d]) == TotalRank(docs) + d.rank
    ensures WordCount(docs + [d]) == WordCount(docs) + |d.words|
  {
    if docs == [] {
      assert docs + [d] == [d];
    } else {
      TotalsAfterAppend(docs[1..], d);
      assert (docs + [d])[1..] == docs[1..] + [d];
    }
  }

  /** Combining conserves the total rank and the number of word entries, one document per URL. */
  lemma {:induction false} CombiningConserves(docs: seq<Doc>, ms: seq<Mention>)
    requires DistinctUrls(docs)
    ensures TotalRank(AddMentions(docs, ms)) == TotalRank(docs) + MentionedRank(ms)
    ensures WordCount(AddMentions(docs, ms)) == WordCount(docs) + |ms|
    ensures DistinctUrls(AddMentions(docs, ms))
    decreases |ms|
  {
    if ms != [] {
      AddingConserves(docs, ms[0]);
      CombiningConserves(AddMention(docs, ms[0]), ms[1..]);
    }
  }

  lemma {:induction false} AddingConserves(docs: seq<Doc>, m: Mention)
    requires DistinctUrls(docs)
    ensures TotalRank(AddMention(docs, m)) == TotalRank(docs) + m.rank
    ensures WordCount(AddMention(docs, m)) == WordCount(docs) + 1
    ensures DistinctUrls(AddMention(docs, m))
  {
    var i := Find(docs, m.url);
    if i < |docs| {
      TotalsAfterUpdate(docs, i, docs[i].(rank := docs[i].rank + m.rank, words := docs[i].words + [m.ref]));
    } else {
      TotalsAfterAppend(docs, Doc(m.url, m.name, m.rank, [m.ref]));
    }
  }

  function Urls(docs: seq<Doc>): seq<string> {
    seq(|docs|, i requires 0 <= i < |docs| => docs[i].url)
  }

  function MentionedUrls(ms: seq<Mention>): seq<string> {
    seq(|ms|, i requires 0 <= i < |ms| => ms[i].url)
  }

  /** Documents are listed in the order in which their URLs first arrive. */
  lemma {:induction false} DocsInOrderOfArrival(docs: seq<Doc>, ms: seq<Mention>)
    ensures Urls(AddMentions(docs, ms)) == Profile.Order(Urls(docs), MentionedUrls(ms))
  {
    UrlsSoFar(docs, ms, AddMentions(docs, ms), Urls(docs), MentionedUrls(ms));
  }

  lemma {:induction false} UrlsSoFar(docs: seq<Doc>, ms: seq<Mention>, all: seq<Doc>, order: seq<string>,
                                     urls: seq<string>)
    requires all == AddMentions(docs, ms) && order == Urls(docs) && urls == MentionedUrls(ms)
    ensures Urls(all) == Profile.Order(order, urls)
    decreases |ms|
  {
    if ms != [] {
      var next := FirstDocs(docs, ms, all, order, urls);
      UrlsSoFar(next, ms[1..], all, Profile.Appear(order, urls[0]), urls[1..]);
    }
  }

  lemma {:induction false} FirstDocs(docs: seq<Doc>, ms: seq<Mention>, all: seq<Doc>, order: seq<string>,
                                     urls: seq<string>) returns (next: seq<Doc>)
    requires ms != [] && all == AddMentions(docs, ms) && order == Urls(docs) && urls == MentionedUrls(ms)
    ensures all == AddMentions(next, ms[1..])
    ensures urls != [] && Profile.Appear(order, urls[0]) == Urls(next) && urls[1..] == MentionedUrls(ms[1..])
  {
    next := AddMention(docs, ms[0]);
    AddedUrl(docs, ms[0]);
    LaterUrls(ms);
  }

  lemma LaterUrls(ms: seq<Mention>)
    requires ms != []
    ensures var urls := MentionedUrls(ms);
            urls != [] && urls[0] == ms[0].url && urls[1..] == MentionedUrls(ms[1..])
  {
  }

  lemma AddedUrl(docs: seq<Doc>, m: Mention)
    ensures Urls(AddMention(docs, m)) == Profile.Appear(Urls(docs), m.url)
  {
    var i := Find(docs, m.url);
    if i < |docs| {
      assert Urls(docs)[i] == m.url;
      assert Urls(AddMention(docs, m)) == Urls(docs);
    } else {
      assert forall k | 0 <= k < |docs| :: Urls(docs)[k] != m.url;
      assert Urls(AddMention(docs, m)) == Urls(docs) + [m.url];
    }
  }

  /** The mentions of one URL. */
  function About(ms: seq<Mention>, url: string): seq<Mention> {
    if ms == [] then [] else (if ms[0].url == url then [ms[0]] else []) + About(ms[1..], url)
  }

  function Refs(ms: seq<Mention>): seq<WordRef> {
    seq(|ms|, i requires 0 <= i < |ms| => ms[i].ref)
  }

  /** Every mention of the URL is among those about it. */
  lemma {:induction false} AboutExactly(ms: seq<Mention>, url: string)
    ensures forall m :: m in About(ms, url) <==> m in ms && m.url == url
    ensures About(ms, url) != [] <==> exists m <- ms :: m.url == url
  {
    if ms != [] {
      AboutExactly(ms[1..], url);
      assert forall m :: m in ms <==> m == ms[0] || m in ms[1..];
    }
  }

  predicate HasDoc(docs: seq<Doc>, url: string) {
    Find(docs, url) < |docs|
  }

  /** A URL's document, or an empty one. */
  function DocOf(docs: seq<Doc>, url: string): Doc {
    if Find(docs, url) < |docs| then docs[Find(docs, url)] else Doc(url, "", 0.0, [])
  }

  lemma {:induction false} AboutStep(ms: seq<Mention>, url: string)
    requires ms != []
    ensures var later := About(ms[1..], url);
            if ms[0].url == url
            then About(ms, url) == [ms[0]] + later && Refs(About(ms, url)) == [ms[0].ref] + Refs(later)
                 && MentionedRank(About(ms, url)) == ms[0].rank + MentionedRank(later)
            else About(ms, url) == later
  {
    var later := About(ms[1..], url);
    if ms[0].url == url {
      FirstOfAll(ms[0], later);
    }
  }

  lemma {:induction false} FirstOfAll(m: Mention, later: seq<Mention>)
    ensures Refs([m] + later) == [m.ref] + Refs(later)
    ensures MentionedRank([m] + later) == m.rank + MentionedRank(later)
  {
    assert ([m] + later)[1..] == later;
  }

  /** Each document has the words of exactly the mentions of its URL, in order of arrival, the sum of their
      ranks, and the name the first one gives; a URL has a document exactly when it is mentioned. */
  lemma {:induction false} GroupedByUrl(docs: seq<Doc>, ms: seq<Mention>, url: string)
    ensures var before, after := DocOf(docs, url), DocOf(AddMentions(docs, ms), url);
            && after.words == before.words + Refs(About(ms, url))
            && after.rank == before.rank + MentionedRank(About(ms, url))
            && after.name == (if HasDoc(docs, url) || About(ms, url) == [] then before.name else About(ms, url)[0].name)
            && (HasDoc(AddMentions(docs, ms), url) <==> HasDoc(docs, url) || exists m <- ms :: m.url == url)
  {
    AboutExactly(ms, url);
    GroupedSoFar(docs, ms, url, AddMentions(docs, ms));
  }

  lemma {:induction false} GroupedSoFar(docs: seq<Doc>, ms: seq<Mention>, url: string, all: seq<Doc>)
    requires all == AddMentions(docs, ms)
    ensures DocOf(all, url).words == DocOf(docs, url).words + Refs(About(ms, url))
    ensures DocOf(all, url).rank == DocOf(docs, url).rank + MentionedRank(About(ms, url))
    ensures DocOf(all, url).name
            == if HasDoc(docs, url) || About(ms, url) == [] then DocOf(docs, url).name else About(ms, url)[0].name
    ensures HasDoc(all, url) <==> HasDoc(docs, url) || About(ms, url) != []
    decreases |ms|
  {
    if ms != [] {
      var next := FirstMention(docs, ms, url, all);
      GroupedSoFar(next, ms[1..], url, all);
      AboutStep(ms, url);
      WordsInOrder(DocOf(docs, url).words, ms[0].ref, Refs(About(ms[1..], url)));
    }
  }

  lemma WordsInOrder(words: seq<WordRef>, ref: WordRef, later: seq<WordRef>)
    ensures words + ([ref] + later) == (words + [ref]) + later
  {
  }

  lemma FirstMention(docs: seq<Doc>, ms: seq<Mention>, url: string, all: seq<Doc>) returns (next: seq<Doc>)
    requires ms != [] && all == AddMentions(docs, ms)
    ensures all == AddMentions(next, ms[1..])
    ensures var before, after := DocOf(docs, url), DocOf(next, url);
            if ms[0].url == url
            then after.words == before.words + [ms[0].ref] && after.rank == before.rank + ms[0].rank
            else after.words == before.words && after.rank == before.rank
    ensures HasDoc(next, url) <==> HasDoc(docs, url) || ms[0].url == url
    ensures DocOf(next, url).name
            == if !HasDoc(docs, url) && ms[0].url == url then ms[0].name else DocOf(docs, url).name
  {
    next := AddMention(docs, ms[0]);
    DocAfterMention(docs, ms[0], url, next);
  }

  lemma DocAfterMention(docs: seq<Doc>, m: Mention, url: string, next: seq<Doc>)
    requires next == AddMention(docs, m)
    ensures var d := DocOf(next, url);
            if m.url == url
            then d.words == DocOf(docs, url).words + [m.ref] && d.rank == DocOf(docs, url).rank + m.rank
            else d.words == DocOf(docs, url).words && d.rank == DocOf(docs, url).rank
    ensures HasDoc(next, url) <==> HasDoc(docs, url) || m.url == url
    ensures DocOf(next, url).name == if !HasDoc(docs, url) && m.url == url then m.name else DocOf(docs, url).name
  {
    assert forall k | 0 <= k < |docs| :: next[k].url == docs[k].url;
    FindUnique(next, url, Find(next, url));
    if Find(docs, url) < |docs| {
      FindUnique(next, url, Find(docs, url));
    } else if m.url == url {
      FindUnique(next, url, |docs|);
    } else {
      FindUnique(next, url, |next|);
    }
  }

  lemma {:induction false} FindUnique(docs: seq<Doc>, url: string, i: nat)
    requires i <= |docs| && (i < |docs| ==> docs[i].url == url)
    requires forall k | 0 <= k < i :: docs[k].url != url
    ensures Find(docs, url) == i
  {
  }

  // ----- Filtering -----

  predicate HasWord(words: seq<WordRef>, word: string) {
    exists i | 0 <= i < |words| :: words[i].word == word
  }

  /** A document with every required word and no forbidden one. */
  predicate Keep(doc: Doc, required: seq<string>, forbidden: seq<string>) {
    && (forall r <- required :: HasWord(doc.words, r))
    && !(exists i | 0 <= i < |doc.words| :: doc.words[i].word in forbidden)
  }

  function Kept(docs: seq<Doc>, required: seq<string>, forbidden: seq<string>): seq<Doc> {
    if docs == [] then []
    else (if Keep(docs[0], required, forbidden) then [docs[0]] else []) + Kept(docs[1..], required, forbidden)
  }

  /** The documents to report, unchanged and in order. */
  method FilterResults(docs: seq<Doc>, required: seq<string>, forbidden: seq<string>) returns (filtered: seq<Doc>)
    ensures filtered == Kept(docs, required, forbidden)
  {
    filtered := [];
    var k := 0;
    while k < |docs|
      invariant 0 <= k <= |docs|
      invariant filtered + Kept(docs[k..], required, forbidden) == Kept(docs, required, forbidden)
    {
      ghost var longer := KeptStep(docs, k, required, forbidden, filtered);
      var copy := TestDoc(docs[k], required, forbidden);
      if copy {
        filtered := filtered + [docs[k]];
      }
      assert filtered == longer;
      k := k + 1;
    }
  }

  lemma KeptStep(docs: seq<Doc>, k: nat, required: seq<string>, forbidden: seq<string>, filtered: seq<Doc>)
    returns (longer: seq<Doc>)
    requires k < |docs|
    ensures longer == if Keep(docs[k], required, forbidden) then filtered + [docs[k]] else filtered
    ensures longer + Kept(docs[k + 1..], required, forbidden) == filtered + Kept(docs[k..], required, forbidden)
  {
    longer := if Keep(docs[k], required, forbidden) then filtered + [docs[k]] else filtered;
    assert docs[k..][1..] == docs[k + 1..];
    var later := Kept(docs[k + 1..], required, forbidden);
    assert [] + later == later;
    assert filtered + ([docs[k]] + later) == (filtered + [docs[k]]) + later;
  }

  method TestDoc(doc: Doc, required: seq<string>, forbidden: seq<string>) returns (copy: bool)
    ensures copy <==> Keep(doc, required, forbidden)
  {
    copy := true;
    if |required| > 0 {
      var r := 0;
      while r < |required|
        invariant 0 <= r <= |required| && copy
        invariant forall q | 0 <= q < r :: HasWord(doc.words, required[q])
      {
        var found := ContainsWord(doc.words, required[r]);
        if !found {
          copy := false;
          break;
        }
        r := r + 1;
      }
    }
    assert copy <==> forall r <- required :: HasWord(doc.words, r);
    if |forbidden| > 0 {
      ghost var wanted := copy;
      var i := 0;
      while i < |doc.words|
        invariant 0 <= i <= |doc.words| && copy == wanted
        invariant forall q | 0 <= q < i :: doc.words[q].word !in forbidden
      {
        if doc.words[i].word in forbidden {
          copy := false;
          break;
        }
        i := i + 1;
      }
    }
  }

  method ContainsWord(words: seq<WordRef>, word: string) returns (found: bool)
    ensures found <==> HasWord(words, word)
  {
    found := false;
    for i := 0 to |words|
      invariant found ==> HasWord(words, word)
      invariant !found ==> forall k | 0 <= k < i :: words[k].word != word
    {
      found := words[i].word == word;
      if found {
        break;
      }
    }
  }

  /** A document is kept exactly when each required word is one of the words that led to it and no forbidden
      word is; the kept documents stand in the list once each and in its order. */
  lemma {:induction false} KeptExactly(docs: seq<Doc>, required: seq<string>, forbidden: seq<string>)
    ensures exists places ::
              && StandsAt(Kept(docs, required, forbidden), docs, places)
              && forall k: nat :: k in places <==>
                   && k < |docs|
                   && (forall r <- required :: exists i | 0 <= i < |docs[k].words| :: docs[k].words[i].word == r)
                   && forall i | 0 <= i < |docs[k].words| :: docs[k].words[i].word !in forbidden
    ensures forall d :: d in Kept(docs, required, forbidden) <==> d in docs && Keep(d, required, forbidden)
    ensures DistinctUrls(docs) ==> DistinctUrls(Kept(docs, required, forbidden))
  {
    var places := KeptPlaces(docs, required, forbidden);
    KeptMembers(docs, required, forbidden);
    KeepsDistinct(Kept(docs, required, forbidden), docs, places);
  }

  lemma {:induction false} KeptMembers(docs: seq<Doc>, required: seq<string>, forbidden: seq<string>)
    ensures forall d :: d in Kept(docs, required, forbidden) <==> d in docs && Keep(d, required, forbidden)
  {
    if docs != [] {
      KeptMembers(docs[1..], required, forbidden);
      assert forall d :: d in docs <==> d == docs[0] || d in docs[1..];
    }
  }

  lemma {:induction false} KeptPlaces(docs: seq<Doc>, required: seq<string>, forbidden: seq<string>)
    returns (places: seq<nat>)
    ensures StandsAt(Kept(docs, required, forbidden), docs, places)
    ensures forall k: nat :: k in places <==> k < |docs| && Keep(docs[k], required, forbidden)
  {
    if docs == [] {
      places := [];
    } else {
      var rest := KeptPlaces(docs[1..], required, forbidden);
      places := AllPlaces(Kept(docs[1..], required, forbidden), docs, rest, Keep(docs[0], required, forbidden));
      forall k: nat
        ensures k in places <==> k < |docs| && Keep(docs[k], required, forbidden)
      {
        assert k > 0 ==> (k in places <==> k - 1 in rest);
      }
    }
  }

  lemma KeepsDistinct(xs: seq<Doc>, ys: seq<Doc>, places: seq<nat>)
    requires StandsAt(xs, ys, places)
    ensures DistinctUrls(ys) ==> DistinctUrls(xs)
  {
  }

  // ----- Sorting -----

  function CompareRank(a: Doc, b: Doc): int {
    if a.rank == b.rank then 0 else if a.rank > b.rank then -1 else 1
  }

  /** What a sort needs of its comparison: it is reflexive, antisymmetric in sign, transitive, and does
      not distinguish documents that compare as equal. */
  lemma CompareRankIsTotalPreorder(a: Doc, b: Doc, c: Doc)
    ensures CompareRank(a, a) == 0
    ensures CompareRank(a, b) == -CompareRank(b, a)
    ensures CompareRank(a, b) <= 0 && CompareRank(b, c) <= 0 ==> CompareRank(a, c) <= 0
    ensures CompareRank(a, b) == 0 ==> CompareRank(a, c) == CompareRank(b, c)
  {
  }

  predicate InOrder(docs: seq<Doc>) {
    forall i, j | 0 <= i < j < |docs| :: CompareRank(docs[i], docs[j]) <= 0
  }

  predicate NonIncreasing(docs: seq<Doc>) {
    forall i, j | 0 <= i < j < |docs| :: docs[i].rank >= docs[j].rank
  }

  /** Sorts the documents by rank, by comparisons alone. It stands for usort, which may place documents
      that compare as equal otherwise. */
  method SortResults(docs: seq<Doc>) returns (sorted: seq<Doc>)
    ensures multiset(sorted) == multiset(docs) && NonIncreasing(sorted)
  {
    sorted := [];
    for n := 0 to |docs|
      invariant multiset(sorted) == multiset(docs[..n]) && InOrder(sorted)
    {
      assert docs[..n + 1] == docs[..n] + [docs[n]];
      sorted := InsertDoc(sorted, docs[n]);
    }
    assert docs[..|docs|] == docs;
  }

  method InsertDoc(docs: seq<Doc>, d: Doc) returns (longer: seq<Doc>)
    requires InOrder(docs)
    ensures multiset(longer) == multiset(docs) + multiset{d} && InOrder(longer)
  {
    var i := FindPlace(docs, d);
    var before, after := docs[..i], docs[i..];
    assert docs == before + after;
    Inserted(docs, before, d, after);
    longer := before + [d] + after;
  }

  method FindPlace(docs: seq<Doc>, d: Doc) returns (i: nat)
    ensures i <= |docs| && (i > 0 ==> CompareRank(docs[i - 1], d) <= 0)
    ensures forall k | i <= k < |docs| :: CompareRank(d, docs[k]) <= 0
  {
    i := |docs|;
    while i > 0 && CompareRank(docs[i - 1], d) > 0
      invariant i <= |docs|
      invariant forall k | i <= k < |docs| :: CompareRank(d, docs[k]) <= 0
    {
      i := i - 1;
    }
  }

  lemma Inserted(docs: seq<Doc>, before: seq<Doc>, d: Doc, after: seq<Doc>)
    requires InOrder(docs) && docs == before + after
    requires before != [] ==> CompareRank(before[|before| - 1], d) <= 0
    requires forall k | 0 <= k < |after| :: CompareRank(d, after[k]) <= 0
    ensures InOrder(before + [d] + after)
    ensures multiset(before + [d] + after) == multiset(docs) + multiset{d}
  {
    AllBefore(before, d, after);
    AllInOrder(before, d, after);
  }

  lemma AllBefore(before: seq<Doc>, d: Doc, after: seq<Doc>)
    requires InOrder(before + after)
    requires before != [] ==> CompareRank(before[|before| - 1], d) <= 0
    ensures forall k | 0 <= k < |before| :: CompareRank(before[k], d) <= 0
  {
    var all := before + after;
    forall k | 0 <= k < |before| - 1
      ensures CompareRank(before[k], d) <= 0
    {
      assert before[k] == all[k] && before[|before| - 1] == all[|before| - 1];
      CompareRankIsTotalPreorder(before[k], before[|before| - 1], d);
    }
  }

  lemma AllInOrder(before: seq<Doc>, d: Doc, after: seq<Doc>)
    requires InOrder(before + after)
    requires forall k | 0 <= k < |before| :: CompareRank(before[k], d) <= 0
    requires forall k | 0 <= k < |after| :: CompareRank(d, after[k]) <= 0
    ensures InOrder(before + [d] + after)
  {
    var all, longer := before + after, before + [d] + after;
    forall i, j | 0 <= i < j < |longer|
      ensures CompareRank(longer[i], longer[j]) <= 0
    {
      var x, y := if i < |before| then i else i - 1, if j < |before| then j else j - 1;
      assert i != |before| ==> longer[i] == all[x];
      assert j != |before| ==> longer[j] == all[y];
    }
  }

  function Ranks(docs: seq<Doc>): seq<real> {
    seq(|docs|, i requires 0 <= i < |docs| => docs[i].rank)
  }

  /** However documents of equal rank are placed, any two sorted lists of the same documents have the
      same rank at every place. */
  lemma SortedRanksAreUnique(xs: seq<Doc>, ys: seq<Doc>)
    requires multiset(xs) == multiset(ys) && NonIncreasing(xs) && NonIncreasing(ys)
    ensures Ranks(xs) == Ranks(ys)
  {
    PermutationKeepsRanks(xs, ys);
    SortedRealsAreUnique(Ranks(xs), Ranks(ys));
  }

  lemma {:induction false} SortedRealsAreUnique(a: seq<real>, b: seq<real>)
    requires multiset(a) == multiset(b)
    requires forall i, j | 0 <= i < j < |a| :: a[i] >= a[j]
    requires forall i, j | 0 <= i < j < |b| :: b[i] >= b[j]
    ensures a == b
    decreases |a|
  {
    assert |a| == |multiset(a)| == |multiset(b)| == |b|;
    if a != [] {
      HeadIsGreatest(a, b);
      HeadIsGreatest(b, a);
      WithoutHead(a);
      WithoutHead(b);
      SortedRealsAreUnique(a[1..], b[1..]);
    }
  }

  lemma HeadIsGreatest(a: seq<real>, b: seq<real>)
    requires a != [] && b != [] && multiset(a) == multiset(b)
    requires forall i, j | 0 <= i < j < |a| :: a[i] >= a[j]
    ensures a[0] >= b[0]
  {
    assert b[0] in multiset(a);
  }

  lemma WithoutHead(a: seq<real>)
    requires a != []
    ensures multiset(a[1..]) == multiset(a) - multiset{a[0]}
    ensures a == [a[0]] + a[1..]
  {
    assert a == [a[0]] + a[1..];
  }

  lemma {:induction false} PermutationKeepsRanks(xs: seq<Doc>, ys: seq<Doc>)
    requires multiset(xs) == multiset(ys)
    ensures multiset(Ranks(xs)) == multiset(Ranks(ys))
    decreases |xs|
  {
    if xs == [] {
      assert |multiset(ys)| == 0;
    } else {
      var j := FindFirst(xs, ys);
      PermutationKeepsRanks(xs[1..], ys[..j] + ys[j + 1..]);
      assert Ranks(xs) == [xs[0].rank] + Ranks(xs[1..]);
      assert Ranks(ys) == Ranks(ys[..j]) + [ys[j].rank] + Ranks(ys[j + 1..]);
      assert Ranks(ys[..j] + ys[j + 1..]) == Ranks(ys[..j]) + Ranks(ys[j + 1..]);
    }
  }

  lemma {:induction false} PermutationKeepsTotal(xs: seq<Doc>, ys: seq<Doc>)
    requires multiset(xs) == multiset(ys)
    ensures TotalRank(xs) == TotalRank(ys)
    decreases |xs|
  {
    if xs == [] {
      assert |multiset(ys)| == 0;
    } else {
      var j := FindFirst(xs, ys);
      PermutationKeepsTotal(xs[1..], ys[..j] + ys[j + 1..]);
      TotalWithout(ys, j);
    }
  }

  lemma FindFirst(xs: seq<Doc>, ys: seq<Doc>) returns (j: nat)
    requires xs != [] && multiset(xs) == multiset(ys)
    ensures j < |ys| && ys[j] == xs[0]
    ensures multiset(xs[1..]) == multiset(ys[..j] + ys[j + 1..])
  {
    assert xs[0] in multiset(ys);
    j :| 0 <= j < |ys| && ys[j] == xs[0];
    WithoutOne(xs, 0);
    WithoutOne(ys, j);
  }

  lemma WithoutOne(docs: seq<Doc>, j: nat)
    requires j < |docs|
    ensures multiset(docs[..j] + docs[j + 1..]) == multiset(docs) - multiset{docs[j]}
    ensures j == 0 ==> docs[..j] + docs[j + 1..] == docs[1..]
  {
    assert docs == docs[..j] + [docs[j]] + docs[j + 1..];
  }

  lemma {:induction false} TotalWithout(docs: seq<Doc>, j: nat)
    requires j < |docs|
    ensures TotalRank(docs) == docs[j].rank + TotalRank(docs[..j] + docs[j + 1..])
  {
    if j == 0 {
      assert docs[..0] + docs[1..] == docs[1..];
    } else {
      TotalWithout(docs[1..], j - 1);
      assert (docs[..j] + docs[j + 1..])[1..] == docs[1..][..j - 1] + docs[1..][j..];
    }
  }

  // ----- The whole query -----

  predicate Signed(token: string, sign: char) {
    token != "" && token[0] == sign
  }

  function WithoutSign(token: string, sign: char): string {
    if Signed(token, sign) then token[1..] else token
  }

  /** The words of a query, up to the first false token, without their signs. */
  function Words(tokens: seq<string>): seq<string> {
    if tokens == [] || Falsy(tokens[0]) then []
    else [WithoutSign(WithoutSign(tokens[0], '+'), '-')] + Words(tokens[1..])
  }

  function Required(tokens: seq<string>): seq<string> {
    if tokens == [] || Falsy(tokens[0]) then []
    else (if Signed(tokens[0], '+') then [tokens[0][1..]] else []) + Required(tokens[1..])
  }

  function Forbidden(tokens: seq<string>): seq<string> {
    if tokens == [] || Falsy(tokens[0]) then []
    else
      var word := WithoutSign(tokens[0], '+');
      (if Signed(word, '-') then [word[1..]] else []) + Forbidden(tokens[1..])
  }

  function LowerChar(c: char): char {
    if 'A' <= c <= 'Z' then (c as int + 32) as char else c
  }

  function Lower(word: string): string {
    seq(|word|, i requires 0 <= i < |word| => LowerChar(word[i]))
  }

  function Lowers(words: seq<string>): seq<string> {
    seq(|words|, i requires 0 <= i < |words| => Lower(words[i]))
  }

  /** The words a query searches for: each word once, in lower case. */
  function Searched(tokens: seq<string>): seq<string> {
    Lowers(Profile.Order([], Words(tokens)))
  }

  function Combined(index: Index, tokens: seq<string>): seq<Doc> {
    AddMentions([], Mentions(SearchAll(index, Searched(tokens))))
  }

  function Selected(index: Index, tokens: seq<string>): seq<Doc> {
    Kept(Combined(index, tokens), Required(tokens), Forbidden(tokens))
  }

  /** Answers a query. The tokens are the parts of the query between spaces. */
  method Answer(index: Index, tokens: seq<string>) returns (sorted: seq<Doc>)
    ensures multiset(sorted) == multiset(Selected(index, tokens)) && NonIncreasing(sorted)
    ensures 0.0 <= TotalRank(sorted) <= DefinedSearches(index, Searched(tokens)) as real
  {
    var results, required, forbidden := SearchWords(index, tokens);
    var docs := CombineResults(results, []);
    var filtered := FilterResults(docs, required, forbidden);
    sorted := SortResults(filtered);
    PermutationKeepsTotal(sorted, filtered);
    ReportedRank(index, Searched(tokens), required, forbidden);
  }

  method SearchWords(index: Index, tokens: seq<string>)
    returns (results: seq<WordStat>, required: seq<string>, forbidden: seq<string>)
    ensures results == SearchAll(index, Searched(tokens))
    ensures required == Required(tokens) && forbidden == Forbidden(tokens)
  {
    results, required, forbidden := [], [], [];
    var foundWords: seq<string> := [];
    var i := 0;
    while i < |tokens| && !Falsy(tokens[i])
      invariant 0 <= i <= |tokens|
      invariant ReadUpTo(tokens, i, foundWords, required, forbidden)
      invariant results == SearchAll(index, Lowers(foundWords))
    {
      ghost var f, r, b := NextToken(tokens, i, foundWords, required, forbidden);
      var word := tokens[i];
      word, required := TakeSign(word, '+', required);
      word, forbidden := TakeSign(word, '-', forbidden);
      if word !in foundWords {
        OneMoreWord(foundWords, word);
        foundWords := foundWords + [word];
        results := SearchWord(index, Lower(word), results);
      }
      assert foundWords == f && required == r && forbidden == b;
      i := i + 1;
    }
  }

  method TakeSign(token: string, sign: char, words: seq<string>) returns (word: string, collected: seq<string>)
    ensures word == WithoutSign(token, sign) && collected == Collect(token, sign, words)
  {
    word, collected := token, words;
    if Signed(token, sign) {
      word := token[1..];
      collected := words + [word];
    }
  }

  function Collect(token: string, sign: char, words: seq<string>): seq<string> {
    if Signed(token, sign) then words + [token[1..]] else words
  }

  /** What has been collected from the first tokens, with what the others add, is the whole query. */
  ghost predicate ReadUpTo(
    tokens: seq<string>, i: nat, found: seq<string>, required: seq<string>, forbidden: seq<string>)
    requires i <= |tokens|
  {
    && Profile.Order(found, Words(tokens[i..])) == Profile.Order([], Words(tokens))
    && required + Required(tokens[i..]) == Required(tokens)
    && forbidden + Forbidden(tokens[i..]) == Forbidden(tokens)
  }

  lemma NextToken(tokens: seq<string>, i: nat, found: seq<string>, required: seq<string>, forbidden: seq<string>)
    returns (f: seq<string>, r: seq<string>, b: seq<string>)
    requires i < |tokens| && !Falsy(tokens[i]) && ReadUpTo(tokens, i, found, required, forbidden)
    ensures ReadUpTo(tokens, i + 1, f, r, b)
    ensures var word := WithoutSign(tokens[i], '+');
            var plain := WithoutSign(word, '-');
            && f == (if plain in found then found else found + [plain])
            && r == Collect(tokens[i], '+', required)
            && b == Collect(word, '-', forbidden)
  {
    var word := WithoutSign(tokens[i], '+');
    var plain := WithoutSign(word, '-');
    f := Profile.Appear(found, plain);
    r, b := Collect(tokens[i], '+', required), Collect(word, '-', forbidden);
    FirstToken(tokens[i..], tokens[i + 1..]);
    assert ([plain] + Words(tokens[i + 1..]))[1..] == Words(tokens[i + 1..]);
    Regroup(required, [word], Required(tokens[i + 1..]));
    if Signed(word, '-') {
      Regroup(forbidden, [word[1..]], Forbidden(tokens[i + 1..]));
    }
  }

  lemma {:induction false} FirstToken(tokens: seq<string>, later: seq<string>)
    requires tokens != [] && !Falsy(tokens[0]) && later == tokens[1..]
    ensures var word := WithoutSign(tokens[0], '+');
            && Words(tokens) == [WithoutSign(word, '-')] + Words(later)
            && Required(tokens) == (if Signed(tokens[0], '+') then [word] + Required(later) else Required(later))
            && Forbidden(tokens) == if Signed(word, '-') then [word[1..]] + Forbidden(later) else Forbidden(later)
  {
  }

  lemma Regroup(xs: seq<string>, ys: seq<string>, zs: seq<string>)
    ensures xs + (ys + zs) == (xs + ys) + zs
  {
  }

  lemma OneMoreWord(words: seq<string>, word: string)
    ensures var all := Lowers(words + [word]);
            all != [] && all[|all| - 1] == Lower(word) && all[..|all| - 1] == Lowers(words)
  {
  }

  /** The results of searching several words one after the other. */
  function SearchAll(index: Index, words: seq<string>): seq<WordStat> {
    if words == [] then [] else SearchAll(index, words[..|words| - 1]) + Found(index, words[|words| - 1])
  }

  lemma {:induction false} MentionsConcat(xs: seq<WordStat>, ys: seq<WordStat>)
    ensures Mentions(xs + ys) == Mentions(xs) + Mentions(ys)
  {
    if xs == [] {
      assert xs + ys == ys;
    } else {
      MentionsConcat(xs[1..], ys);
      FirstResult(xs, ys);
    }
  }

  lemma {:induction false} FirstResult(xs: seq<WordStat>, ys: seq<WordStat>)
    requires xs != [] && Mentions(xs[1..] + ys) == Mentions(xs[1..]) + Mentions(ys)
    ensures Mentions(xs + ys) == Mentions(xs) + Mentions(ys)
  {
    assert (xs + ys)[0] == xs[0] && (xs + ys)[1..] == xs[1..] + ys;
    Joined(DocMentions(xs[0]), Mentions(xs[1..]), Mentions(ys));
  }

  lemma Joined(xs: seq<Mention>, ys: seq<Mention>, zs: seq<Mention>)
    ensures xs + (ys + zs) == (xs + ys) + zs
  {
  }

  lemma {:induction false} MentionedRankConcat(xs: seq<Mention>, ys: seq<Mention>)
    ensures MentionedRank(xs + ys) == MentionedRank(xs) + MentionedRank(ys)
  {
    if xs == [] {
      assert xs + ys == ys;
    } else {
      MentionedRankConcat(xs[1..], ys);
      assert (xs + ys)[1..] == xs[1..] + ys;
    }
  }

  lemma {:induction false} MentionedRankOfDocs(w: WordStat, docs: seq<DocInfo>, ms: seq<Mention>)
    requires |ms| == |docs| && forall i | 0 <= i < |docs| :: ms[i] == MentionOf(w, docs[i])
    ensures MentionedRank(ms) == RankSum(docs)
  {
    if docs != [] {
      MentionedRankOfDocs(w, docs[1..], ms[1..]);
    }
  }

  lemma {:induction false} MentionedRankIsRankTotal(stats: seq<WordStat>)
    ensures MentionedRank(Mentions(stats)) == RankTotal(stats)
  {
    if stats != [] {
      MentionedRankOfDocs(stats[0], stats[0].docs, DocMentions(stats[0]));
      MentionedRankConcat(DocMentions(stats[0]), Mentions(stats[1..]));
      MentionedRankIsRankTotal(stats[1..]);
    }
  }

  /** The number of searches whose ranks do not divide by zero. */
  function DefinedSearches(index: Index, words: seq<string>): (n: nat)
    ensures n <= |words|
  {
    if words == [] then 0
    else DefinedSearches(index, words[..|words| - 1])
         + if SearchTotals(index, words[|words| - 1]).Freq() > 0 then 1 else 0
  }

  lemma {:induction false} SearchedRank(index: Index, words: seq<string>)
    ensures 0.0 <= MentionedRank(Mentions(SearchAll(index, words))) <= DefinedSearches(index, words) as real
    ensures forall m <- Mentions(SearchAll(index, words)) :: m.rank >= 0.0
    decreases |words|
  {
    if words != [] {
      var before, last := SearchAll(index, words[..|words| - 1]), Found(index, words[|words| - 1]);
      SearchedRank(index, words[..|words| - 1]);
      SearchRanksAreShares(index, words[|words| - 1]);
      MentionsConcat(before, last);
      MentionedRankConcat(Mentions(before), Mentions(last));
      MentionedRankIsRankTotal(last);
      MentionsNotNegative(last);
    }
  }

  lemma {:induction false} MentionsNotNegative(stats: seq<WordStat>)
    requires NoNegativeRanks(stats)
    ensures forall m <- Mentions(stats) :: m.rank >= 0.0
  {
    if stats != [] {
      assert stats[0] in stats;
      MentionsNotNegative(stats[1..]);
    }
  }

  lemma {:induction false} CombinedNotNegative(docs: seq<Doc>, ms: seq<Mention>)
    requires forall d <- docs :: d.rank >= 0.0
    requires forall m <- ms :: m.rank >= 0.0
    ensures forall d <- AddMentions(docs, ms) :: d.rank >= 0.0
    decreases |ms|
  {
    if ms != [] {
      assert ms[0] in ms;
      CombinedNotNegative(AddMention(docs, ms[0]), ms[1..]);
    }
  }

  lemma {:induction false} KeptRank(docs: seq<Doc>, required: seq<string>, forbidden: seq<string>)
    requires forall d <- docs :: d.rank >= 0.0
    ensures 0.0 <= TotalRank(Kept(docs, required, forbidden)) <= TotalRank(docs)
  {
    if docs != [] {
      assert docs[0] in docs;
      KeptRank(docs[1..], required, forbidden);
      var later := Kept(docs[1..], required, forbidden);
      assert ([docs[0]] + later)[1..] == later && [] + later == later;
    }
  }

  /** Whatever is required or forbidden, the ranks left after filtering sum to at most one per search
      that does not divide by zero. */
  lemma {:induction false} ReportedRank(index: Index, words: seq<string>, required: seq<string>, forbidden: seq<string>)
    ensures var docs := AddMentions([], Mentions(SearchAll(index, words)));
            && 0.0 <= TotalRank(Kept(docs, required, forbidden)) <= TotalRank(docs)
            && TotalRank(docs) <= DefinedSearches(index, words) as real
  {
    var ms := Mentions(SearchAll(index, words));
    SearchedRank(index, words);
    CombiningConserves([], ms);
    CombinedNotNegative([], ms);
    KeptRank(AddMentions([], ms), required, forbidden);
  }

  // ----- What required and forbidden words do -----

  /** Every word a document was found for is one of the given ones. */
  predicate WordsAmong(docs: seq<Doc>, words: seq<string>) {
    forall d <- docs :: forall r <- d.words :: r.word in words
  }

  lemma {:induction false} FoundMentionsName(stats: seq<WordStat>, word: string)
    requires forall s <- stats :: s.word == word
    ensures forall m <- Mentions(stats) :: m.ref.word == word
  {
    if stats != [] {
      assert stats[0] in stats;
      FoundMentionsName(stats[1..], word);
    }
  }

  lemma {:induction false} MentionsNameSearched(index: Index, words: seq<string>)
    ensures forall m <- Mentions(SearchAll(index, words)) :: m.ref.word in words
    decreases |words|
  {
    if words != [] {
      var last := words[|words| - 1];
      MentionsNameSearched(index, words[..|words| - 1]);
      FoundMentionsName(Found(index, last), last);
      MentionsConcat(SearchAll(index, words[..|words| - 1]), Found(index, last));
    }
  }

  lemma {:induction false} CombinedWordsAmong(docs: seq<Doc>, ms: seq<Mention>, words: seq<string>)
    requires WordsAmong(docs, words) && forall m <- ms :: m.ref.word in words
    ensures WordsAmong(AddMentions(docs, ms), words)
    decreases |ms|
  {
    if ms != [] {
      assert ms[0] in ms;
      CombinedWordsAmong(AddMention(docs, ms[0]), ms[1..], words);
    }
  }

  lemma CombinedNamesSearched(index: Index, tokens: seq<string>)
    ensures WordsAmong(Combined(index, tokens), Searched(tokens))
  {
    MentionsNameSearched(index, Searched(tokens));
    CombinedWordsAmong([], Mentions(SearchAll(index, Searched(tokens))), Searched(tokens));
  }

  predicate HasCapital(word: string) {
    exists c <- word :: 'A' <= c <= 'Z'
  }

  /** The same letters in the same places, except that one of them may be a capital. */
  predicate SameLetters(a: string, b: string) {
    && |a| == |b|
    && forall i | 0 <= i < |a| ::
         || a[i] == b[i]
         || ('A' <= a[i] <= 'Z' && b[i] as int == a[i] as int + 32)
         || ('A' <= b[i] <= 'Z' && a[i] as int == b[i] as int + 32)
  }

  /** Lower case leaves no capital and changes nothing but capitals; words have the same lower case exactly when
      they differ in nothing else. */
  lemma LowerExactly(a: string, b: string)
    ensures !HasCapital(Lower(a))
    ensures Lower(a) == a <==> !HasCapital(a)
    ensures Lower(a) == Lower(b) <==> SameLetters(a, b)
  {
    SmallLetters(a);
    if Lower(a) == Lower(b) {
      assert |Lower(a)| == |a| && |Lower(b)| == |b|;
      forall i | 0 <= i < |a|
        ensures LowerChar(a[i]) == LowerChar(b[i])
      {
        assert Lower(a)[i] == Lower(b)[i];
      }
    }
  }

  lemma SmallLetters(a: string)
    ensures !HasCapital(Lower(a))
    ensures Lower(a) == a <==> !HasCapital(a)
  {
    if !HasCapital(a) {
      forall i | 0 <= i < |a|
        ensures Lower(a)[i] == a[i]
      {
        assert a[i] in a;
      }
    }
  }

  /** A query searches exactly the words of its tokens with capitals made small. */
  lemma {:induction false} SearchedExactly(tokens: seq<string>, word: string)
    ensures word in Searched(tokens) <==> !HasCapital(word) && exists w <- Words(tokens) :: SameLetters(w, word)
  {
    Profile.OrderExtends([], Words(tokens));
    InLowers(Profile.Order([], Words(tokens)), word);
    SmallLetters(word);
    forall w <- Words(tokens)
      ensures Lower(w) == word <==> !HasCapital(word) && SameLetters(w, word)
    {
      LowerExactly(w, word);
    }
  }

  lemma InLowers(words: seq<string>, word: string)
    ensures word in Lowers(words) <==> exists w <- words :: Lower(w) == word
  {
    if w :| w in words && Lower(w) == word {
      var k :| 0 <= k < |words| && words[k] == w;
      assert Lowers(words)[k] == word;
    }
  }

  /** What the signs of a token leave of it: at most one plus, and after it at most one minus. */
  predicate Signs(token: string, word: string) {
    || token == "-" + word
    || token == "+-" + word
    || (token == "+" + word && !(word != "" && word[0] == '-'))
    || (token == word && !(word != "" && word[0] in {'+', '-'}))
  }

  /** A query is read up to the first "" or "0". Each token before it is a word, required after a plus and
      forbidden after a minus. */
  lemma {:induction false} QueryIsRead(tokens: seq<string>, word: string)
    ensures var n := |Words(tokens)|;
            && n <= |tokens| && (n < |tokens| ==> tokens[n] == "" || tokens[n] == "0")
            && (forall i | 0 <= i < n :: tokens[i] != "" && tokens[i] != "0" && Signs(tokens[i], Words(tokens)[i]))
            && (word in Required(tokens) <==> exists i | 0 <= i < n :: tokens[i] == "+" + word)
            && (word in Forbidden(tokens) <==> exists i | 0 <= i < n :: tokens[i] in {"-" + word, "+-" + word})
  {
    WordsAreRead(tokens);
    var n := |Words(tokens)|;
    SignedWords(tokens, word);
    if i :| 0 <= i < n && tokens[i] == "+" + word {
      assert HasToken(tokens, n, {"+" + word});
    }
    if i :| 0 <= i < n && tokens[i] in {"-" + word, "+-" + word} {
      assert HasToken(tokens, n, {"-" + word, "+-" + word});
    }
  }

  lemma {:induction false} WordsAreRead(tokens: seq<string>)
    ensures var n := |Words(tokens)|;
            && n <= |tokens| && (n < |tokens| ==> tokens[n] == "" || tokens[n] == "0")
            && forall i | 0 <= i < n :: tokens[i] != "" && tokens[i] != "0" && Signs(tokens[i], Words(tokens)[i])
  {
    if tokens != [] && !Falsy(tokens[0]) {
      var later := tokens[1..];
      WordsAreRead(later);
      FirstToken(tokens, later);
      TokenSigns(tokens[0], "");
      AllSigned(tokens, Words(tokens), later, Words(later));
    }
  }

  lemma AllSigned(tokens: seq<string>, words: seq<string>, later: seq<string>, rest: seq<string>)
    requires tokens != [] && words != [] && later == tokens[1..] && rest == words[1..] && |words| <= |tokens|
    requires !Falsy(tokens[0]) && Signs(tokens[0], words[0])
    requires forall i | 0 <= i < |rest| :: later[i] != "" && later[i] != "0" && Signs(later[i], rest[i])
    ensures forall i | 0 <= i < |words| :: tokens[i] != "" && tokens[i] != "0" && Signs(tokens[i], words[i])
  {
    assert forall i | 0 < i < |words| :: tokens[i] == later[i - 1] && words[i] == rest[i - 1];
  }

  /** One of the first `n` tokens is one of the given ones. */
  predicate HasToken(tokens: seq<string>, n: nat, wanted: set<string>) {
    exists i | 0 <= i < n && i < |tokens| :: tokens[i] in wanted
  }

  lemma HasTokenFirst(tokens: seq<string>, n: nat, wanted: set<string>)
    requires tokens != [] && n > 0
    ensures HasToken(tokens, n, wanted) <==> tokens[0] in wanted || HasToken(tokens[1..], n - 1, wanted)
  {
    if i :| 0 <= i < n - 1 && i < |tokens[1..]| && tokens[1..][i] in wanted {
      assert tokens[i + 1] in wanted;
    }
    if i :| 0 < i < n && i < |tokens| && tokens[i] in wanted {
      assert tokens[1..][i - 1] in wanted;
    }
  }

  lemma {:induction false} SignedWords(tokens: seq<string>, word: string)
    ensures var n := |Words(tokens)|;
            && (word in Required(tokens) <==> HasToken(tokens, n, {"+" + word}))
            && (word in Forbidden(tokens) <==> HasToken(tokens, n, {"-" + word, "+-" + word}))
  {
    if tokens != [] && !Falsy(tokens[0]) {
      var later := tokens[1..];
      SignedWords(later, word);
      FirstToken(tokens, later);
      TokenSigns(tokens[0], word);
      HasTokenFirst(tokens, |Words(tokens)|, {"+" + word});
      HasTokenFirst(tokens, |Words(tokens)|, {"-" + word, "+-" + word});
    }
  }

  lemma TokenSigns(token: string, word: string)
    requires token != ""
    ensures var bare := WithoutSign(token, '+');
            && Signs(token, WithoutSign(bare, '-'))
            && (Signed(token, '+') && bare == word <==> token == "+" + word)
            && (Signed(bare, '-') && bare[1..] == word <==> token == "-" + word || token == "+-" + word)
  {
    var bare := WithoutSign(token, '+');
    assert Signed(token, '+') ==> token == "+" + bare;
    assert Signed(bare, '-') ==> bare == "-" + bare[1..];
    assert "+-" + word == "+" + ("-" + word);
    assert "+" + word == ['+'] + word && ("+" + word)[1..] == word;
    assert ("-" + word)[1..] == word && ("+-" + word)[1..] == "-" + word;
    assert Signed(token, '+') && Signed(bare, '-') ==> token == "+-" + bare[1..];
  }

  /** A document of the URL is listed by an indexed word that matches. */
  predicate FoundIn(index: Index, word: string, url: string) {
    exists e <- Matched(index, word) :: exists o <- e.occurrences :: o.url == url
  }

  lemma {:induction false} StatsMention(index: Index, word: string, url: string)
    ensures (exists m <- Mentions(Found(index, word)) :: m.url == url) <==> FoundIn(index, word, url)
  {
    var es := Matched(index, word);
    if m :| m in Mentions(Found(index, word)) && m.url == url {
      MentionIsOccurrence(SearchTotals(index, word), word, es, m);
    }
    if e, o :| e in es && o in e.occurrences && o.url == url {
      var m := OccurrenceIsMentioned(SearchTotals(index, word), word, es, e, o);
    }
  }

  lemma MentionIsOccurrence(t: Totals, word: string, es: seq<Entry>, m: Mention)
    requires m in Mentions(t.Stats(word, es))
    ensures exists e <- es :: exists o <- e.occurrences :: o.url == m.url
  {
    var stats := t.Stats(word, es);
    MentionsDescribe(stats, m);
    var r, i :| 0 <= r < |stats| && 0 <= i < |stats[r].docs| && Describes(m, stats[r], stats[r].docs[i]);
    assert es[r] in es && es[r].occurrences[i] in es[r].occurrences;
  }

  lemma OccurrenceIsMentioned(t: Totals, word: string, es: seq<Entry>, e: Entry, o: Occurrence) returns (m: Mention)
    requires e in es && o in e.occurrences
    ensures m in Mentions(t.Stats(word, es)) && m.url == o.url
  {
    var stats := t.Stats(word, es);
    var r :| 0 <= r < |es| && es[r] == e;
    var i :| 0 <= i < |e.occurrences| && e.occurrences[i] == o;
    m := MentionOf(stats[r], stats[r].docs[i]);
    MentionsDescribe(stats, m);
    assert Describes(m, stats[r], stats[r].docs[i]);
  }

  /** A URL is mentioned for a word exactly when the word is searched and found there. */
  lemma {:induction false} MentionedExactly(index: Index, words: seq<string>, url: string, word: string)
    ensures (exists m <- Mentions(SearchAll(index, words)) :: m.url == url && m.ref.word == word)
            <==> word in words && FoundIn(index, word, url)
    decreases |words|
  {
    if words != [] {
      var before, last := words[..|words| - 1], words[|words| - 1];
      MentionedExactly(index, before, url, word);
      StatsMention(index, last, url);
      FoundMentionsName(Found(index, last), last);
      MentionsConcat(SearchAll(index, before), Found(index, last));
      assert word in words <==> word in before || word == last;
    }
  }

  /** The words of a URL's document are those that are mentioned with it. */
  lemma {:induction false} HasWordExactly(ms: seq<Mention>, url: string, word: string)
    ensures HasWord(DocOf(AddMentions([], ms), url).words, word)
            <==> exists m <- ms :: m.url == url && m.ref.word == word
  {
    WordsOfDoc(ms, url);
    AboutExactly(ms, url);
    InRefs(About(ms, url), word);
  }

  lemma {:induction false} WordsOfDoc(ms: seq<Mention>, url: string)
    ensures DocOf(AddMentions([], ms), url).words == Refs(About(ms, url))
  {
    GroupedByUrl([], ms, url);
    assert DocOf([], url).words + Refs(About(ms, url)) == Refs(About(ms, url));
  }

  lemma InRefs(ms: seq<Mention>, word: string)
    ensures HasWord(Refs(ms), word) <==> exists m <- ms :: m.ref.word == word
  {
    if m :| m in ms && m.ref.word == word {
      var i :| 0 <= i < |ms| && ms[i] == m;
      assert Refs(ms)[i].word == word;
    }
  }

  /** Which URLs a query reports: those found for some searched word, for every required word, which has to be
      one of the searched ones as typed, and for no searched word that is forbidden as typed. */
  lemma {:induction false} ReportedExactly(index: Index, tokens: seq<string>, url: string)
    ensures (exists d <- Selected(index, tokens) :: d.url == url) <==>
            && (exists w <- Searched(tokens) :: FoundIn(index, w, url))
            && (forall r <- Required(tokens) :: r in Searched(tokens) && FoundIn(index, r, url))
            && (forall f <- Forbidden(tokens) :: !(f in Searched(tokens) && FoundIn(index, f, url)))
  {
    var docs := Combined(index, tokens);
    var d := DocOf(docs, url);
    forall word: string
      ensures HasWord(d.words, word) <==> word in Searched(tokens) && FoundIn(index, word, url)
    {
      HasWordExactly(Mentions(SearchAll(index, Searched(tokens))), url, word);
      MentionedExactly(index, Searched(tokens), url, word);
    }
    ReportsUrl(docs, Required(tokens), Forbidden(tokens), url, index, tokens);
    MentionedAtAll(index, tokens, url);
    KeepByWords(d, Required(tokens), Forbidden(tokens));
  }

  /** A URL is reported exactly when it is mentioned and its document is kept. */
  lemma {:induction false} ReportsUrl(docs: seq<Doc>, required: seq<string>, forbidden: seq<string>, url: string,
                   index: Index, tokens: seq<string>)
    requires docs == Combined(index, tokens)
    ensures (exists d <- Kept(docs, required, forbidden) :: d.url == url) <==>
            && (exists m <- Mentions(SearchAll(index, Searched(tokens))) :: m.url == url)
            && Keep(DocOf(docs, url), required, forbidden)
  {
    var ms := Mentions(SearchAll(index, Searched(tokens)));
    GroupedByUrl([], ms, url);
    CombiningConserves([], ms);
    KeptMembers(docs, required, forbidden);
    OnlyDoc(docs, url);
  }

  lemma {:induction false} MentionedAtAll(index: Index, tokens: seq<string>, url: string)
    ensures (exists m <- Mentions(SearchAll(index, Searched(tokens))) :: m.url == url)
            <==> exists w <- Searched(tokens) :: FoundIn(index, w, url)
  {
    var ms := Mentions(SearchAll(index, Searched(tokens)));
    if m :| m in ms && m.url == url {
      MentionedExactly(index, Searched(tokens), url, m.ref.word);
    }
    if w :| w in Searched(tokens) && FoundIn(index, w, url) {
      MentionedExactly(index, Searched(tokens), url, w);
    }
  }

  lemma OnlyDoc(docs: seq<Doc>, url: string)
    requires DistinctUrls(docs)
    ensures forall d :: d in docs && d.url == url <==> HasDoc(docs, url) && d == DocOf(docs, url)
  {
  }

  lemma KeepByWords(d: Doc, required: seq<string>, forbidden: seq<string>)
    ensures Keep(d, required, forbidden) <==>
            (forall r <- required :: HasWord(d.words, r)) && forall f <- forbidden :: !HasWord(d.words, f)
  {
  }

  /** Words are searched in lower case but required and forbidden as they were typed: a required word with
      a capital letter rules out every document, and a forbidden one none. */
  lemma {:induction false} SelectedExactly(index: Index, tokens: seq<string>, d: Doc)
    ensures d in Selected(index, tokens) <==>
            && d in Combined(index, tokens)
            && (forall r <- Required(tokens) :: !HasCapital(r) && HasWord(d.words, r))
            && (forall f <- Forbidden(tokens) | !HasCapital(f) :: !HasWord(d.words, f))
  {
    KeptMembers(Combined(index, tokens), Required(tokens), Forbidden(tokens));
    KeepByWords(d, Required(tokens), Forbidden(tokens));
    if d in Combined(index, tokens) {
      forall word: string | HasWord(d.words, word)
        ensures !HasCapital(word)
      {
        WordsAreSmall(index, tokens, d, word);
      }
    }
  }

  lemma WordsAreSmall(index: Index, tokens: seq<string>, d: Doc, word: string)
    requires d in Combined(index, tokens) && HasWord(d.words, word)
    ensures !HasCapital(word) && word in Searched(tokens)
  {
    CombinedNamesSearched(index, tokens);
    SearchedExactly(tokens, word);
  }

  lemma OneToken(word: string)
    ensures var tokens := ["+" + word];
            && Required(tokens) == [word]
            && Forbidden(tokens) == (if Signed(word, '-') then [word[1..]] else [])
            && Searched(tokens) == [Lower(WithoutSign(word, '-'))]
  {
    var tokens := ["+" + word];
    var plain := WithoutSign(word, '-');
    assert tokens[0][0] == '+';
    FirstToken(tokens, []);
    assert tokens[0][1..] == word;
    assert Words(tokens) == [plain];
    assert Profile.Order([], [plain]) == Profile.Order([plain], [plain][1..]) == [plain];
  }

  lemma {:induction false} OneSearch(index: Index, word: string)
    ensures SearchAll(index, [word]) == Found(index, word)
  {
    assert [word][..0] == [];
    assert SearchAll(index, [word][..0]) == [];
  }

  lemma OneDoc(index: Index, o: Occurrence, word: string)
    requires ComputeIndex(word) != -1 && index == map[ComputeIndex(word) := [Entry(word, [o])]]
    ensures var docs := AddMentions([], Mentions(Found(index, word)));
            |docs| == 1 && HasWord(docs[0].words, word)
  {
    OnlyMatch(index, Entry(word, [o]));
    var stat := SearchTotals(index, word).Stat(word, Entry(word, [o]));
    var m := MentionOf(stat, stat.docs[0]);
    assert Found(index, word) == [stat];
    assert DocMentions(stat) == [m];
    assert Mentions([stat]) == [m] + Mentions([stat][1..]) == [m];
    var docs := [Doc(m.url, m.name, m.rank, [m.ref])];
    assert AddMention([], m) == docs;
    assert AddMentions([], [m]) == AddMentions(docs, [m][1..]) == docs;
    assert docs[0].words[0].word == word;
  }

  lemma OneRequired(index: Index, word: string)
    requires Selected(index, ["+" + word]) != []
    ensures ComputeIndex(word) != -1 && !Signed(word, '-') && !HasCapital(word)
  {
    var tokens := ["+" + word];
    var d := Selected(index, tokens)[0];
    OneToken(word);
    SelectedExactly(index, tokens, d);
    CombinedNamesSearched(index, tokens);
    LowerExactly(word, word);
    assert HasWord(d.words, word) && d in Combined(index, tokens);
    assert !Signed(word, '-');
    OneSearch(index, word);
  }

  lemma OneReported(index: Index, o: Occurrence, word: string)
    requires ComputeIndex(word) != -1 && !Signed(word, '-') && !HasCapital(word)
    requires index == map[ComputeIndex(word) := [Entry(word, [o])]]
    ensures Selected(index, ["+" + word]) != []
  {
    var tokens := ["+" + word];
    OneToken(word);
    SmallLetters(word);
    OneSearch(index, word);
    OneDoc(index, o, word);
    SelectedExactly(index, tokens, Combined(index, tokens)[0]);
  }

  /** A query for one required word can report a document, for some index, exactly when the word has a
      hash key, does not start with a minus sign and has no capital letter. */
  lemma RequiredWordExactly(word: string)
    ensures (exists index :: Selected(index, ["+" + word]) != []) <==>
            ComputeIndex(word) != -1 && !Signed(word, '-') && !HasCapital(word)
  {
    if index :| Selected(index, ["+" + word]) != [] {
      OneRequired(index, word);
    }
    if ComputeIndex(word) != -1 && !Signed(word, '-') && !HasCapital(word) {
      var o := Occurrence("", "", 2);
      OneReported(map[ComputeIndex(word) := [Entry(word, [o])]], o, word);
    }
  }
}
