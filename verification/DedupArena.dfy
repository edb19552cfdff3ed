/** The deduplicating arena (crates/collections/src/arena/dedup.rs) over the plain arena
    (crates/collections/src/arena/mod.rs). */
module DedupArenas {
  import opened InverseIndex
  import opened Wrappers

  class DedupArena<T(==)> {
    var entity2idx: map<T, nat>
    var entities: seq<T>

    ghost function State(): Table<T>
      reads this
    {
      Table(entity2idx, entities)
    }

    constructor ()
      ensures State() == Empty() && entities == []
    {
      entity2idx, entities := map[], [];
    }

    /** `from_iter`: the entities as they come, and the map collected from them. */
    constructor FromIter(items: seq<T>)
      ensures State() == Table(Collect(items), items)
      ensures Inverse(State()) <==> NoDuplicates(items)
    {
      entity2idx, entities := map[], items;
      new;
      for i := 0 to |items|
        invariant entities == items && entity2idx == Collect(items[..i])
      {
        entity2idx := entity2idx[items[i] := i];
        assert items[..i + 1][..i] == items[..i];
      }
      assert items[..|items|] == items;
      CollectInverseIffDistinct(items);
    }

    method Alloc(entity: T) returns (index: nat)
      modifies this
      ensures (index, State()) == Intern(old(State()), entity)
      ensures old(Inverse(State())) ==> Inverse(State()) && old(entities) <= entities
                                        && index < |entities| && entities[index] == entity
      ensures old(Inverse(State())) ==>
                entities == if entity in old(entities) then old(entities) else old(entities) + [entity]
    {
      ghost var before := State();
      if entity in entity2idx {
        index := entity2idx[entity];
      } else {
        index := |entities|;
        entities := entities + [entity];
        entity2idx := entity2idx[entity := index];
      }
      if Inverse(before) {
        InternKeeps(before, entity);
      }
    }

    method Clear()
      modifies this
      ensures State() == Empty() && Inverse(State())
      ensures entities == [] && entity2idx == map[]
    {
      entity2idx := map[];
      entities := [];
    }

    method Get(index: nat) returns (r: Option<T>)
      ensures r == if index < |entities| then Some(entities[index]) else None
      ensures Inverse(State()) ==>
                forall e :: r == Some(e) <==> e in entity2idx && entity2idx[e] == index
    {
      r := if index < |entities| then Some(entities[index]) else None;
    }
  }
}
