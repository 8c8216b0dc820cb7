/** The store object `ecStore` (ecstore.go): the two index maps as fields,
    updated in place by `Add`, `Remove` and `Clear`, read by the lookups. */
module EcStore {
  import opened Entities
  import opened TypeKey
  import opened StoreSpec
  import opened StoreInvariants

  class Store {
    /** Type key to bucket. */
    var store: map<string, seq<Entity>>
    /** Id to the entity last added with that id. */
    var idCache: map<string, Entity>

    /** The two fields as one value, the state the specification speaks of. */
    function Snapshot(): State
      reads this
    {
      State(store, idCache)
    }

    /** The invariant every operation keeps: no empty bucket is kept, and
        each bucket holds only entities of its own type. */
    ghost predicate Valid()
      reads this
    {
      NoEmptyBuckets(Snapshot()) && Keyed(Snapshot())
    }

    /** `New`: an empty store. */
    constructor ()
      ensures Valid() && Bijective(Snapshot())
      ensures Snapshot() == EMPTY
    {
      store := map[];
      idCache := map[];
      assert TotalLen(map[]) == 0;
    }

    /** Appends each entity to its bucket and points its id at it, in
        argument order, stopping at the first invalid value. */
    method Add(entities: seq<Value>) returns (err: Outcome)
      requires Valid()
      modifies this
      ensures Valid()
      ensures (Snapshot(), err) == AfterAdd(old(Snapshot()), entities)
      ensures Bijective(old(Snapshot())) && FreshIds(old(Snapshot()), entities) ==> Bijective(Snapshot())
    {
      ghost var s0 := Snapshot();
      if |entities| == 0 {
        AddEachKeeps(s0, entities);
        return Failure(NoEntitiesProvided);
      }
      var n := 0;
      while n < |entities|
        invariant 0 <= n <= |entities|
        invariant AddEach(s0, entities) == AddEach(Snapshot(), entities[n..])
      {
        var entity := entities[n];
        if entity.NilInterface? || entity.NilPointer? {
          AddEachKeeps(s0, entities);
          return Failure(InvalidEntityPointer);
        }
        var key := GetTypeKey(entity);
        if key.Err? {
          AddEachKeeps(s0, entities);
          return Failure(key.error);
        }
        var k := key.value;
        ghost var before := Snapshot();
        assert entities[n..][0] == entity && entities[n..][1..] == entities[n + 1..];
        if k !in store {
          store := store[k := []];
        }
        store := store[k := store[k] + [entity.target]];
        idCache := idCache[entity.target.id := entity.target];
        assert Snapshot() == Append(before, k, entity.target);
        n := n + 1;
      }
      AddEachKeeps(s0, entities);
      return Success;
    }

    /** Removes each entity, found in its bucket by reference identity, by
        swap-and-truncate; deletes its id entry and drops a bucket that
        became empty. An entity not found is skipped; the call stops at the
        first invalid value. */
    method Remove(entities: seq<Value>) returns (err: Outcome)
      requires Valid()
      modifies this
      ensures Valid()
      ensures (Snapshot(), err) == AfterRemove(old(Snapshot()), entities)
      ensures Bijective(old(Snapshot())) ==> Bijective(Snapshot())
    {
      ghost var s0 := Snapshot();
      if |entities| == 0 {
        RemoveEachKeeps(s0, entities);
        return Failure(NoEntitiesProvided);
      }
      var n := 0;
      while n < |entities|
        invariant 0 <= n <= |entities|
        invariant RemoveEach(s0, entities) == RemoveEach(Snapshot(), entities[n..])
      {
        var entity := entities[n];
        if entity.NilInterface? || entity.NilPointer? {
          RemoveEachKeeps(s0, entities);
          return Failure(InvalidEntityPointer);
        }
        var key := GetTypeKey(entity);
        if key.Err? {
          RemoveEachKeeps(s0, entities);
          return Failure(key.error);
        }
        var k := key.value;
        ghost var before := Snapshot();
        assert entities[n..][0] == entity && entities[n..][1..] == entities[n + 1..];
        RemoveEachStep(before, entities[n..]);
        if k in store {
          var list := store[k];
          var i := 0;
          while i < |list|
            invariant 0 <= i <= |list|
            invariant store == before.store && idCache == before.idCache
            invariant forall j :: 0 <= j < i ==> list[j] != entity.target
          {
            var entry := list[i];
            if entry == entity.target {
              var shrunk := list[i := list[|list| - 1]][..|list| - 1];
              store := store[k := shrunk];
              idCache := idCache - {entry.id};
              if |store[k]| == 0 {
                store := store - {k};
                assert store == before.store - {k};
              }
              DetachFound(before, k, entry, i);
              break;
            }
            i := i + 1;
          }
          if i == |list| {
            DetachMissing(before, k, entity.target);
          }
        } else {
          DetachMissing(before, k, entity.target);
        }
        assert Snapshot() == Detach(before, k, entity.target);
        n := n + 1;
      }
      RemoveEachKeeps(s0, entities);
      return Success;
    }

    /** The bucket of the sample's type; an absent bucket is an empty result
        and no error, an invalid sample an error. */
    method GetAll(ent: Value) returns (list: seq<Entity>, err: Outcome)
      ensures !ent.PointerToStruct? ==> err == Failure(InvalidEntityPointer) && list == []
      ensures ent.PointerToStruct? ==> err == Success && list == Bucket(Snapshot(), KeyOf(ent.target))
      ensures Keyed(Snapshot()) && ent.PointerToStruct? ==>
                forall x :: x in list ==> x.structType.name == ent.target.structType.name
    {
      var key := GetTypeKey(ent);
      if key.Err? {
        return [], Failure(key.error);
      }
      if key.value !in store {
        return [], Success;
      }
      list := store[key.value];
      if Keyed(Snapshot()) {
        forall x | x in list
          ensures KeyOf(x) == key.value
        {
          assert x in Snapshot().store[key.value];
        }
      }
      return list, Success;
    }

    /** The entity in slot 0 of the sample's bucket, or null. */
    method GetFirst(ent: Value) returns (first: Entity?, err: Outcome)
      ensures err == if ent.PointerToStruct? then Success else Failure(InvalidEntityPointer)
      ensures first == null <==> !ent.PointerToStruct? || Bucket(Snapshot(), KeyOf(ent.target)) == []
      ensures first != null ==> first == Bucket(Snapshot(), KeyOf(ent.target))[0]
    {
      var list;
      list, err := GetAll(ent);
      if err.Failure? {
        return null, err;
      }
      if |list| == 0 {
        return null, Success;
      }
      return list[0], Success;
    }

    /** The entity the id index holds for `id`, or null. */
    method GetById(id: string) returns (e: Entity?)
      ensures e == null <==> id !in idCache
      ensures e != null ==> e == idCache[id]
      ensures Bijective(Snapshot()) && e != null ==> e.id == id && e in Bucket(Snapshot(), KeyOf(e))
    {
      if id in idCache {
        e := idCache[id];
      } else {
        e := null;
      }
    }

    /** Resets both indices; never fails. */
    method Clear() returns (err: Outcome)
      modifies this
      ensures err == Success && Snapshot() == EMPTY
      ensures Valid() && Bijective(Snapshot())
    {
      store := map[];
      idCache := map[];
      assert TotalLen(map[]) == 0;
      return Success;
    }

    /** The length of the sample's bucket; 0 for an invalid sample or an
        absent bucket (the error is swallowed). */
    method CountType(ent: Value) returns (n: nat)
      ensures n == if ent.PointerToStruct? then |Bucket(Snapshot(), KeyOf(ent.target))| else 0
      ensures NoEmptyBuckets(Snapshot()) ==>
                (n == 0 <==> !ent.PointerToStruct? || KeyOf(ent.target) !in store)
    {
      var list, err := GetAll(ent);
      if err.Failure? {
        return 0;
      }
      return |list|;
    }

    /** The size of the id index, which under the bijection is the number of
        live entities across all buckets. */
    method CountTotal() returns (n: nat)
      ensures n == |idCache|
      ensures Bijective(Snapshot()) ==> n == TotalLen(store)
    {
      return |idCache|;
    }
  }
}
