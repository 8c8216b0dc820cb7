/** What `Add` and `Remove` promise, stated against independent
    descriptions of their effect, and the sharp edges of the store stated
    as lemmas: partial application, stale references after a duplicate id,
    and the reordering caused by swap removal. */
module StoreProperties {
  import opened Entities
  import opened TypeKey
  import opened StoreSpec
  import opened StoreInvariants

  /** The entities of type key `k` among `es`, in order. */
  function OfKey(es: seq<Entity>, k: string): (r: seq<Entity>)
    ensures |r| <= |es|
    ensures forall i :: 0 <= i < |r| ==> r[i] in es && KeyOf(r[i]) == k
    ensures forall i :: 0 <= i < |es| && KeyOf(es[i]) == k ==> es[i] in r
    decreases |es|
  {
    if es == [] then []
    else
      var last := es[|es| - 1];
      OfKey(es[..|es| - 1], k) + (if KeyOf(last) == k then [last] else [])
  }

  /** The last slot of `es` whose entity has id `id`, if any. */
  function LastWithId(es: seq<Entity>, id: string): (r: Option<nat>)
    ensures r.None? <==> forall j :: 0 <= j < |es| ==> es[j].id != id
    ensures r.Some? ==> r.value < |es| && es[r.value].id == id
    ensures r.Some? ==> forall j :: r.value < j < |es| ==> es[j].id != id
    decreases |es|
  {
    if es == [] then None
    else if es[|es| - 1].id == id then Some(|es| - 1)
    else LastWithId(es[..|es| - 1], id)
  }

  /** Adding one more valid value does one more append after the others. */
  lemma {:induction false} AddEachSnoc(s: State, vs: seq<Value>, v: Value)
    requires AllValid(vs) && v.PointerToStruct?
    ensures AddEach(s, vs).1 == Success
    ensures AddEach(s, vs + [v]) == (Append(AddEach(s, vs).0, KeyOf(v.target), v.target), Success)
    decreases |vs|
  {
    if vs == [] {
      assert [v][1..] == [];
    } else {
      assert (vs + [v])[0] == vs[0] && (vs + [v])[1..] == vs[1..] + [v];
      assert AllValid(vs[1..]) by {
        forall i | 0 <= i < |vs[1..]| ensures vs[1..][i].PointerToStruct? {
          assert vs[1..][i] == vs[i + 1];
        }
      }
      AddEachSnoc(Append(s, KeyOf(vs[0].target), vs[0].target), vs[1..], v);
    }
  }

  /** A successful Add appends the entities of each type to the end of that
      type's bucket, in argument order, and creates exactly the buckets that
      were absent and received an entity; no other bucket changes. */
  lemma {:induction false} AddAppendsInOrder(s: State, vs: seq<Value>, k: string)
    requires AllValid(vs)
    ensures AddEach(s, vs).1 == Success
    ensures Bucket(AddEach(s, vs).0, k) == Bucket(s, k) + OfKey(Targets(vs), k)
    ensures k in AddEach(s, vs).0.store <==> k in s.store || OfKey(Targets(vs), k) != []
    decreases |vs|
  {
    if vs == [] {
    } else {
      var init, v := vs[..|vs| - 1], vs[|vs| - 1];
      assert vs == init + [v];
      assert Targets(vs)[..|vs| - 1] == Targets(init);
      AddEachSnoc(s, init, v);
      AddAppendsInOrder(s, init, k);
    }
  }

  /** After a successful Add the id index maps each id to the last entity
      of the call carrying it, and keeps every other entry as it was. */
  lemma {:induction false} AddLastIdWins(s: State, vs: seq<Value>, id: string)
    requires AllValid(vs)
    ensures var t, last := AddEach(s, vs).0, LastWithId(Targets(vs), id);
            && (last.Some? ==> id in t.idCache && t.idCache[id] == Targets(vs)[last.value])
            && (last.None? ==> (id in t.idCache <==> id in s.idCache))
            && (last.None? && id in s.idCache ==> t.idCache[id] == s.idCache[id])
    decreases |vs|
  {
    if vs == [] {
    } else {
      var init, v := vs[..|vs| - 1], vs[|vs| - 1];
      assert vs == init + [v];
      assert Targets(vs)[..|vs| - 1] == Targets(init);
      AddEachSnoc(s, init, v);
      AddLastIdWins(s, init, id);
    }
  }

  /** Add stops at the first invalid value with the invalid-pointer error:
      the values before it have been added, the ones after it are ignored. */
  lemma {:induction false} AddStopsAtFirstInvalid(s: State, vs: seq<Value>, j: nat)
    requires j < |vs| && AllValid(vs[..j]) && !vs[j].PointerToStruct?
    ensures AddEach(s, vs[..j]).1 == Success
    ensures AfterAdd(s, vs) == (AddEach(s, vs[..j]).0, Failure(InvalidEntityPointer))
    decreases j
  {
    if j > 0 {
      assert vs[..j][0] == vs[0];
      assert vs[..j][1..] == vs[1..][..j - 1];
      AddStopsAtFirstInvalid(Append(s, KeyOf(vs[0].target), vs[0].target), vs[1..], j - 1);
    }
  }

  /** Remove stops at the first invalid value with the invalid-pointer
      error: the values before it have been removed, the ones after it are
      ignored. */
  lemma {:induction false} RemoveStopsAtFirstInvalid(s: State, vs: seq<Value>, j: nat)
    requires j < |vs| && AllValid(vs[..j]) && !vs[j].PointerToStruct?
    ensures RemoveEach(s, vs[..j]).1 == Success
    ensures AfterRemove(s, vs) == (RemoveEach(s, vs[..j]).0, Failure(InvalidEntityPointer))
    decreases j
  {
    if j > 0 {
      assert vs[..j][0] == vs[0];
      assert vs[..j][1..] == vs[1..][..j - 1];
      RemoveStopsAtFirstInvalid(Detach(s, KeyOf(vs[0].target), vs[0].target), vs[1..], j - 1);
    }
  }

  /** Add and Remove with no arguments fail and change nothing. */
  lemma EmptyCallsChangeNothing(s: State)
    ensures AfterAdd(s, []) == (s, Failure(NoEntitiesProvided))
    ensures AfterRemove(s, []) == (s, Failure(NoEntitiesProvided))
  {
  }

  /** Removing an entity that sits in its bucket shortens that bucket by
      exactly one: the last element moves into the freed slot, the other
      slots keep their entities, the entry for the entity's id is deleted,
      and the bucket key goes away when the bucket empties. Nothing else
      changes. */
  lemma RemovePresent(s: State, e: Entity)
    requires e in Bucket(s, KeyOf(e))
    ensures var k, b, t := KeyOf(e), Bucket(s, KeyOf(e)), Detach(s, KeyOf(e), e);
            var i := IndexOf(b, e).value;
            && b[i] == e
            && |Bucket(t, k)| == |b| - 1
            && (k in t.store <==> |b| > 1)
            && (i < |b| - 1 ==> Bucket(t, k)[i] == b[|b| - 1])
            && (forall j :: 0 <= j < |b| - 1 && j != i ==> Bucket(t, k)[j] == b[j])
            && t.idCache == s.idCache - {e.id}
            && (forall k' :: k' != k ==> Bucket(t, k') == Bucket(s, k'))
  {
  }

  /** Remove works by reference identity: valid values none of which sits
      in its type's bucket (even if another entity has the same id) leave
      the store unchanged and raise no error. */
  lemma {:induction false} RemoveAbsentIsNoOp(s: State, vs: seq<Value>)
    requires AllValid(vs)
    requires forall i :: 0 <= i < |vs| ==> vs[i].target !in Bucket(s, KeyOf(vs[i].target))
    ensures RemoveEach(s, vs) == (s, Success)
    decreases |vs|
  {
    if vs != [] {
      var e := vs[0].target;
      assert Detach(s, KeyOf(e), e) == s;
      assert AllValid(vs[1..]) by {
        forall i | 0 <= i < |vs[1..]| ensures vs[1..][i].PointerToStruct? {
          assert vs[1..][i] == vs[i + 1];
        }
      }
      forall i | 0 <= i < |vs[1..]|
        ensures vs[1..][i].target !in Bucket(s, KeyOf(vs[1..][i].target))
      {
        assert vs[1..][i] == vs[i + 1];
      }
      RemoveAbsentIsNoOp(s, vs[1..]);
    }
  }

  /** Appending an entity absent from its bucket and then detaching it
      gives back the state, provided its id was unused and its bucket was
      absent or non-empty. */
  /** Removing `e` from a bucket that just had `e` appended gives back the
      bucket: either the appended copy is the first one and is cut off, or
      an earlier copy is found first and the appended copy moves onto it. */
  lemma SwapRemoveAppended(b: seq<Entity>, e: Entity)
    ensures IndexOf(b + [e], e).Some?
    ensures SwapRemove(b + [e], IndexOf(b + [e], e).value) == b
  {
    var c := b + [e];
    match IndexOf(b, e)
    case None =>
      assert IndexOf(c, e) == Some(|b|);
      assert c[..|b|] == b;
    case Some(i) =>
      var j := IndexOf(c, e).value;
      assert c[i] == e;
      assert j <= i;
      assert c[j] == b[j];
      assert c[i := e][..|b|] == b;
  }

  lemma AppendThenDetach(s: State, e: Entity)
    requires KeyOf(e) in s.store ==> s.store[KeyOf(e)] != []
    requires e.id !in s.idCache
    ensures Detach(Append(s, KeyOf(e), e), KeyOf(e), e) == s
  {
    var k, b := KeyOf(e), Bucket(s, KeyOf(e));
    var t := Append(s, k, e);
    assert t.store[k] == b + [e];
    assert t.idCache - {e.id} == s.idCache;
    SwapRemoveAppended(b, e);
    if k in s.store {
      assert t.store[k := b] == s.store;
    } else {
      assert t.store - {k} == s.store;
    }
  }

  /** Round trip: adding an entity whose id is unused and then removing it
      restores both indices exactly, so the total and per-type counts are
      back and its id resolves to nothing. This holds even when the same
      entity is already bucketed under a stale, deleted id entry. */
  lemma AddThenRemoveRestores(s: State, e: Entity)
    requires NoEmptyBuckets(s) && e.id !in s.idCache
    ensures AfterAdd(s, [PointerToStruct(e)]).1 == Success
    ensures AfterRemove(AfterAdd(s, [PointerToStruct(e)]).0, [PointerToStruct(e)]) == (s, Success)
  {
    var k := KeyOf(e);
    var t := Append(s, k, e);
    assert [PointerToStruct(e)][1..] == [];
    assert AddEach(s, [PointerToStruct(e)]) == AddEach(t, []);
    assert AfterRemove(t, [PointerToStruct(e)]) == RemoveEach(Detach(t, k, e), []);
    AppendThenDetach(s, e);
  }

  /** Duplicate ids are not rejected: adding two distinct entities with one
      id leaves the id index pointing at the second while the first stays
      bucketed, so the two indices disagree; removing the second then leaves
      the first bucketed with no id entry at all. */
  lemma DuplicateIdLeavesStaleReference(e1: Entity, e2: Entity)
    requires e1 != e2 && e1.id == e2.id && KeyOf(e1) == KeyOf(e2)
    ensures var (s1, o1) := AfterAdd(EMPTY, [PointerToStruct(e1), PointerToStruct(e2)]);
            && o1 == Success
            && s1.idCache == map[e1.id := e2]
            && s1.store == map[KeyOf(e1) := [e1, e2]]
            && !Bijective(s1)
            && AfterRemove(s1, [PointerToStruct(e2)]) == (State(map[KeyOf(e1) := [e1]], map[]), Success)
  {
    var s1 := AddDuplicatePair(e1, e2);
    assert e1 in s1.store[KeyOf(e1)];
    assert IndexOf([e1, e2], e2) == Some(1);
    assert SwapRemove([e1, e2], 1) == [e1];
    assert Detach(s1, KeyOf(e1), e2) == State(map[KeyOf(e1) := [e1]], map[]);
    assert [PointerToStruct(e2)][1..] == [];
    assert AfterRemove(s1, [PointerToStruct(e2)]) == RemoveEach(Detach(s1, KeyOf(e1), e2), []);
  }

  /** Removal deletes the id entry of the entity it removes whatever that
      entry points at: removing the stale first entity of a duplicate pair
      deletes the entry of the live second one, which stays bucketed. */
  lemma RemovingStaleEntityDropsLiveId(e1: Entity, e2: Entity)
    requires e1 != e2 && e1.id == e2.id && KeyOf(e1) == KeyOf(e2)
    ensures var s1 := AfterAdd(EMPTY, [PointerToStruct(e1), PointerToStruct(e2)]).0;
            AfterRemove(s1, [PointerToStruct(e1)]) == (State(map[KeyOf(e1) := [e2]], map[]), Success)
  {
    var s1 := AddDuplicatePair(e1, e2);
    assert IndexOf([e1, e2], e1) == Some(0);
    assert SwapRemove([e1, e2], 0) == [e2];
    assert Detach(s1, KeyOf(e1), e1) == State(map[KeyOf(e1) := [e2]], map[]);
    assert AfterRemove(s1, [PointerToStruct(e1)]) == RemoveEach(Detach(s1, KeyOf(e1), e1), []);
  }

  /** The state after adding two entities of one type and one id to an
      empty store. */
  lemma AddDuplicatePair(e1: Entity, e2: Entity) returns (s1: State)
    requires e1.id == e2.id && KeyOf(e1) == KeyOf(e2)
    ensures s1 == State(map[KeyOf(e1) := [e1, e2]], map[e1.id := e2])
    ensures AfterAdd(EMPTY, [PointerToStruct(e1), PointerToStruct(e2)]) == (s1, Success)
  {
    var k := KeyOf(e1);
    var a1 := Append(EMPTY, k, e1);
    assert [] + [e1] == [e1] && [e1] + [e2] == [e1, e2];
    assert a1 == State(map[k := [e1]], map[e1.id := e1]);
    s1 := Append(a1, k, e2);
    assert s1.store == map[k := [e1, e2]];
    assert s1.idCache == map[e1.id := e2];
    assert [PointerToStruct(e1), PointerToStruct(e2)][1..] == [PointerToStruct(e2)];
    assert [PointerToStruct(e2)][1..] == [];
    assert AddEach(a1, [PointerToStruct(e2)]) == AddEach(s1, []);
  }

  /** Swap removal does not keep bucket order: after adding a, b and c of
      one type and removing a, the first entity of the type is c, not b. */
  lemma SwapRemovalReordersFirst(a: Entity, b: Entity, c: Entity)
    requires a != b && b != c && a != c
    requires KeyOf(a) == KeyOf(b) == KeyOf(c)
    ensures var s1 := AfterAdd(EMPTY, [PointerToStruct(a), PointerToStruct(b), PointerToStruct(c)]).0;
            var s2 := AfterRemove(s1, [PointerToStruct(a)]).0;
            Bucket(s2, KeyOf(a)) == [c, b] && Bucket(s2, KeyOf(a))[0] != b
  {
    var k := KeyOf(a);
    var vs := [PointerToStruct(a), PointerToStruct(b), PointerToStruct(c)];
    var a1 := Append(EMPTY, k, a);
    assert [] + [a] == [a] && [a] + [b] == [a, b] && [a, b] + [c] == [a, b, c];
    assert a1.store == map[k := [a]];
    var a2 := Append(a1, k, b);
    assert a2.store == map[k := [a, b]];
    var s1 := Append(a2, k, c);
    assert s1.store == map[k := [a, b, c]];
    assert vs[1..] == [PointerToStruct(b), PointerToStruct(c)];
    assert vs[1..][1..] == [PointerToStruct(c)];
    assert [PointerToStruct(c)][1..] == [];
    assert AddEach(a2, [PointerToStruct(c)]) == AddEach(s1, []);
    assert AddEach(a1, vs[1..]) == AddEach(a2, [PointerToStruct(c)]);
    assert AfterAdd(EMPTY, vs).0 == s1;
    assert IndexOf([a, b, c], a) == Some(0);
    assert SwapRemove([a, b, c], 0) == [c, b];
    assert AfterRemove(s1, [PointerToStruct(a)]) == RemoveEach(Detach(s1, k, a), []);
  }
}
