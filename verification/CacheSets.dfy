/** The two cache set classes, and the set of a cache, which is one or the other. */
module CacheSets {
  import opened Bits
  import opened CacheModel

  /** The slots of a round-robin set read downwards and cyclically from the slot replaced next. */
  function QueueOf(slots: seq<Tag>, next: nat): seq<Tag>
    requires next < |slots|
  {
    seq(|slots|, k requires 0 <= k < |slots| => slots[if k <= next then next - k else next - k + |slots|])
  }

  lemma QueueHoldsSlots(slots: seq<Tag>, next: nat, tag: Tag)
    requires next < |slots|
    ensures tag in QueueOf(slots, next) <==> tag in slots
  {
    var q := QueueOf(slots, next);
    if k :| 0 <= k < |slots| && slots[k] == tag {
      assert q[if k <= next then next - k else next - k + |slots|] == tag;
    }
  }

  lemma ReplaceRotates(slots: seq<Tag>, next: nat, tag: Tag)
    requires next < |slots|
    ensures QueueOf(slots[next := tag], if next == 0 then |slots| - 1 else next - 1)
            == (QueueOf(slots, next) + [tag])[1..]
  {
  }

  lemma EmptyQueue(slots: seq<Tag>, next: nat)
    requires next < |slots| && forall k | 0 <= k < |slots| :: slots[k] == 0
    ensures QueueOf(slots, next) == Zeros(|slots|)
  {
  }

  class DirectMapped {
    var tag: Tag

    ghost function Model(): SetModel
      reads this
    {
      Direct(tag)
    }

    constructor ()
      ensures Model() == Direct(0)
    {
      tag := 0;
    }

    method Find(tag: Tag) returns (found: bool)
      ensures found == Model().Find(tag)
    {
      found := this.tag == tag;
    }

    method Replace(tag: Tag)
      modifies this
      ensures Model() == old(Model()).Replace(tag)
    {
      this.tag := tag;
    }

    method Flush()
      modifies this
      ensures Model() == old(Model()).Flush()
    {
      tag := 0;
    }
  }

  class RoundRobin {
    const tags: array<Tag>
    var tagsLastIndex: uint32
    var nextReplaceIndex: uint32

    ghost predicate Valid()
      reads this
    {
      nextReplaceIndex <= tagsLastIndex < tags.Length && tagsLastIndex < INDEX_LIMIT
    }

    /** The slots in use. */
    ghost function Slots(): seq<Tag>
      requires Valid()
      reads this, tags
    {
      tags[..tagsLastIndex + 1]
    }

    ghost function Model(): SetModel
      requires Valid()
      reads this, tags
    {
      Robin(QueueOf(Slots(), nextReplaceIndex))
    }

    /** The assertion passes for two kinds of set that are of no use. Without slots, the next slot to
        replace does not exist; and with more than 2^31, the loops over the slots end before they start, so
        the slots are not cleared and nothing is ever found. */
    constructor (maxAssociativity: uint32, associativity: uint32)
      requires associativity <= maxAssociativity
      ensures fresh(tags) && tags.Length == maxAssociativity
      ensures tagsLastIndex == nextReplaceIndex == Wrap32(associativity - 1)
      ensures Valid() <==> 1 <= associativity <= INDEX_LIMIT
      ensures Valid() ==> Model() == Robin(Zeros(associativity)) && forall k | 0 <= k < associativity :: tags[k] == 0
      ensures !Valid() ==> SignedIndex(tagsLastIndex) < 0
      ensures associativity == 0 ==> nextReplaceIndex >= tags.Length
    {
      tagsLastIndex := Wrap32(associativity - 1);
      nextReplaceIndex := Wrap32(associativity - 1);
      tags := new Tag[maxAssociativity];
      new;
      var index := SignedIndex(tagsLastIndex);
      while index >= 0
        invariant index == SignedIndex(tagsLastIndex) < 0 || -1 <= index <= tagsLastIndex < INDEX_LIMIT
        invariant tagsLastIndex == nextReplaceIndex == Wrap32(associativity - 1)
        invariant forall k | index < k <= tagsLastIndex < INDEX_LIMIT :: tags[k] == 0
      {
        tags[index] := 0;
        index := index - 1;
      }
      if 1 <= associativity <= INDEX_LIMIT {
        EmptyQueue(Slots(), nextReplaceIndex);
      }
    }

    /** Chooses how many slots are in use. The slots keep their tags. */
    method SetAssociativity(associativity: uint32)
      requires associativity <= tags.Length < UINT32_SPAN
      modifies this
      ensures tagsLastIndex == nextReplaceIndex == Wrap32(associativity - 1)
      ensures Valid() <==> 1 <= associativity <= INDEX_LIMIT
      ensures Valid() ==> Model() == Robin(QueueOf(tags[..associativity], associativity - 1))
      ensures !Valid() ==> SignedIndex(tagsLastIndex) < 0
      ensures associativity == 0 ==> nextReplaceIndex >= tags.Length
    {
      tagsLastIndex := Wrap32(associativity - 1);
      nextReplaceIndex := tagsLastIndex;
    }

    method Find(tag: Tag) returns (found: bool)
      requires Valid()
      ensures found == Model().Find(tag)
    {
      QueueHoldsSlots(Slots(), nextReplaceIndex, tag);
      var index := SignedIndex(tagsLastIndex);
      while index >= 0
        invariant -1 <= index <= tagsLastIndex
        invariant forall k | index < k <= tagsLastIndex :: tags[k] != tag
      {
        if tags[index] == tag {
          assert Slots()[index] == tag;
          return true;
        }
        index := index - 1;
      }
      found := false;
    }

    method Replace(tag: Tag)
      requires Valid()
      modifies this`nextReplaceIndex, tags
      ensures Valid() && Model() == old(Model()).Replace(tag)
      ensures forall k | tagsLastIndex < k < tags.Length :: tags[k] == old(tags[k])
    {
      var index := nextReplaceIndex;
      ReplaceRotates(Slots(), index, tag);
      ghost var slots := Slots();
      tags[index] := tag;
      nextReplaceIndex := if index == 0 then tagsLastIndex else index - 1;
      assert Slots() == slots[index := tag];
    }

    method Flush()
      requires Valid()
      modifies this`nextReplaceIndex, tags
      ensures Valid() && Model() == old(Model()).Flush() && nextReplaceIndex == tagsLastIndex
      ensures forall k | tagsLastIndex < k < tags.Length :: tags[k] == old(tags[k])
    {
      var index := SignedIndex(tagsLastIndex);
      while index >= 0
        invariant -1 <= index <= tagsLastIndex
        invariant forall k | index < k <= tagsLastIndex :: tags[k] == 0
        invariant forall k | tagsLastIndex < k < tags.Length :: tags[k] == old(tags[k])
      {
        tags[index] := 0;
        index := index - 1;
      }
      nextReplaceIndex := tagsLastIndex;
      EmptyQueue(Slots(), nextReplaceIndex);
    }
  }

  /** The set type a cache is built from. */
  datatype CacheSet = DirectSet(direct: DirectMapped) | RobinSet(robin: RoundRobin) {

    ghost function Footprint(): set<object> {
      match this
      case DirectSet(d) => {d}
      case RobinSet(r) => {r, r.tags}
    }

    ghost predicate Valid()
      reads Footprint()
    {
      match this
      case DirectSet(_) => true
      case RobinSet(r) => r.Valid()
    }

    ghost function Model(): SetModel
      requires Valid()
      reads Footprint()
    {
      match this
      case DirectSet(d) => d.Model()
      case RobinSet(r) => r.Model()
    }

    /** All slots, used or not, are empty. */
    ghost predicate Blank()
      reads Footprint()
    {
      match this
      case DirectSet(d) => d.tag == 0
      case RobinSet(r) => forall k | 0 <= k < r.tags.Length :: r.tags[k] == 0
    }

    /** The set type admits this associativity. */
    predicate Admits(associativity: uint32) {
      match this
      case DirectSet(_) => associativity == 1
      case RobinSet(r) => 1 <= associativity <= r.tags.Length <= INDEX_LIMIT
    }

    method SetAssociativity(associativity: uint32)
      requires Valid() && Blank() && Admits(associativity)
      modifies Footprint()
      ensures Valid() && Blank()
      ensures Model() == match this case DirectSet(_) => Direct(0) case RobinSet(_) => Robin(Zeros(associativity))
    {
      match this {
        case DirectSet(_) =>
        case RobinSet(r) =>
          r.SetAssociativity(associativity);
          EmptyQueue(r.Slots(), r.nextReplaceIndex);
      }
    }

    method Find(tag: Tag) returns (found: bool)
      requires Valid()
      ensures found == Model().Find(tag)
    {
      match this {
        case DirectSet(d) => found := d.Find(tag);
        case RobinSet(r) => found := r.Find(tag);
      }
    }

    method Replace(tag: Tag)
      requires Valid()
      modifies Footprint()
      ensures Valid() && Model() == old(Model()).Replace(tag)
    {
      match this {
        case DirectSet(d) => d.Replace(tag);
        case RobinSet(r) => r.Replace(tag);
      }
    }

    method Flush()
      requires Valid()
      modifies Footprint()
      ensures Valid() && Model() == old(Model()).Flush()
    {
      match this {
        case DirectSet(d) => d.Flush();
        case RobinSet(r) => r.Flush();
      }
    }
  }
}
