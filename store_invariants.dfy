/** The invariants the two indices keep, and the lemmas that `Add` and
    `Remove` preserve them. */
module StoreInvariants {
  import opened Entities
  import opened TypeKey
  import opened StoreSpec

  /** A key is present only while its bucket is non-empty
      (ecstore.go:63-67, ecstore.go:106-108). */
  ghost predicate NoEmptyBuckets(s: State) {
    forall k :: k in s.store ==> s.store[k] != []
  }

  /** Type isolation: a bucket holds only entities of its own type key. */
  ghost predicate Keyed(s: State) {
    forall k, e :: k in s.store && e in s.store[k] ==> KeyOf(e) == k
  }

  /** No entity occupies two slots of one bucket. */
  predicate NoDuplicates(b: seq<Entity>) {
    forall i, j :: 0 <= i < j < |b| ==> b[i] != b[j]
  }

  /** The number of entities across all buckets. */
  ghost function TotalLen(m: map<string, seq<Entity>>): nat
    decreases |m|
  {
    if m == map[] then 0
    else
      var k :| k in m;
      assert (m - {k}).Keys == m.Keys - {k};
      |m[k]| + TotalLen(m - {k})
  }

  /** Every bucketed entity is the entity its id resolves to. */
  ghost predicate BucketedAreIndexed(s: State) {
    forall k, e :: k in s.store && e in s.store[k] ==> e.id in s.idCache && s.idCache[e.id] == e
  }

  /** Every id resolves to an entity of that id sitting in its type's bucket. */
  ghost predicate IndexedAreBucketed(s: State) {
    forall id :: id in s.idCache ==>
      s.idCache[id].id == id && s.idCache[id] in Bucket(s, KeyOf(s.idCache[id]))
  }

  /** No bucket repeats an entity. */
  ghost predicate BucketsDistinct(s: State) {
    forall k :: k in s.store ==> NoDuplicates(s.store[k])
  }

  /** The two indices describe the same live entities, and the id index is
      as large as all buckets together (so `CountTotal` reports the number of
      live entities). */
  ghost predicate Bijective(s: State) {
    && BucketedAreIndexed(s)
    && IndexedAreBucketed(s)
    && BucketsDistinct(s)
    && TotalLen(s.store) == |s.idCache|
  }

  /** The values of `vs` that Add would insert carry ids that are new to the
      store and pairwise distinct: the uniqueness the caller is asked for. */
  ghost predicate FreshIds(s: State, vs: seq<Value>) {
    && (forall i :: 0 <= i < |vs| && vs[i].PointerToStruct? ==> vs[i].target.id !in s.idCache)
    && (forall i, j :: 0 <= i < j < |vs| && vs[i].PointerToStruct? && vs[j].PointerToStruct? ==>
          vs[i].target.id != vs[j].target.id)
  }

  /** Any bucket can be taken out first when summing bucket lengths. */
  lemma {:induction false} TotalLenRemove(m: map<string, seq<Entity>>, k: string)
    requires k in m
    ensures TotalLen(m) == |m[k]| + TotalLen(m - {k})
    decreases |m|
  {
    var k0 :| k0 in m && TotalLen(m) == |m[k0]| + TotalLen(m - {k0});
    if k0 != k {
      assert (m - {k0}).Keys == m.Keys - {k0};
      assert (m - {k}).Keys == m.Keys - {k};
      TotalLenRemove(m - {k0}, k);
      TotalLenRemove(m - {k}, k0);
      assert m - {k0} - {k} == m - {k} - {k0};
    }
  }

  /** Replacing one bucket changes the total by the difference in lengths. */
  lemma TotalLenUpdate(m: map<string, seq<Entity>>, k: string, b: seq<Entity>)
    ensures TotalLen(m[k := b]) + (if k in m then |m[k]| else 0) == TotalLen(m) + |b|
  {
    TotalLenRemove(m[k := b], k);
    assert m[k := b] - {k} == m - {k};
    if k in m {
      TotalLenRemove(m, k);
    } else {
      assert m - {k} == m;
    }
  }

  /** Swap removal from a duplicate-free bucket keeps it duplicate-free and
      keeps exactly the other elements. */
  lemma SwapRemoveMembers(b: seq<Entity>, i: nat)
    requires i < |b| && NoDuplicates(b)
    ensures NoDuplicates(SwapRemove(b, i))
    ensures forall x :: x in SwapRemove(b, i) <==> x in b && x != b[i]
  {
    var r := SwapRemove(b, i);
    SwapRemoveShape(b, i);
    forall x
      ensures x in r <==> x in b && x != b[i]
    {
      assert multiset(r)[x] + multiset{b[i]}[x] == multiset(b)[x];
      if x in b {
        var j :| 0 <= j < |b| && b[j] == x;
        if j != i {
          assert x != b[i];
        }
      }
      if x == b[i] {
        forall j | 0 <= j < |b| && j != i
          ensures b[j] != x
        {
          if j < i { assert b[j] != b[i]; } else { assert b[i] != b[j]; }
        }
        assert multiset(b)[x] == 1 by {
          assert b == b[..i] + [b[i]] + b[i + 1..];
          assert x !in b[..i] && x !in b[i + 1..];
        }
      }
    }
  }

  /** One Add iteration keeps the bucket invariants. */
  lemma AppendKeepsBuckets(s: State, k: string, e: Entity)
    requires k == KeyOf(e)
    ensures NoEmptyBuckets(s) ==> NoEmptyBuckets(Append(s, k, e))
    ensures Keyed(s) ==> Keyed(Append(s, k, e))
  {
  }

  /** One Add iteration keeps the bijection when the new entity's id is fresh. */
  lemma AppendKeepsBijective(s: State, k: string, e: Entity)
    requires k == KeyOf(e) && Bijective(s) && e.id !in s.idCache
    ensures Bijective(Append(s, k, e))
  {
    AppendKeepsIndexed(s, k, e);
    AppendKeepsBucketed(s, k, e);
    AppendKeepsDistinct(s, k, e);
    AppendKeepsCount(s, k, e);
  }

  /** After an Add step every bucketed entity is still the one its id resolves to. */
  lemma AppendKeepsIndexed(s: State, k: string, e: Entity)
    requires k == KeyOf(e) && BucketedAreIndexed(s) && e.id !in s.idCache
    ensures BucketedAreIndexed(Append(s, k, e))
  {
  }

  /** After an Add step every id still resolves to a bucketed entity of that id. */
  lemma AppendKeepsBucketed(s: State, k: string, e: Entity)
    requires k == KeyOf(e) && IndexedAreBucketed(s)
    ensures IndexedAreBucketed(Append(s, k, e))
  {
  }

  /** An Add step with a fresh id does not repeat an entity in its bucket. */
  lemma AppendKeepsDistinct(s: State, k: string, e: Entity)
    requires BucketsDistinct(s) && BucketedAreIndexed(s) && e.id !in s.idCache
    ensures BucketsDistinct(Append(s, k, e))
  {
  }

  /** An Add step with a fresh id grows the id index and the buckets by one each. */
  lemma AppendKeepsCount(s: State, k: string, e: Entity)
    requires TotalLen(s.store) == |s.idCache| && e.id !in s.idCache
    ensures TotalLen(Append(s, k, e).store) == |Append(s, k, e).idCache|
  {
    TotalLenUpdate(s.store, k, Bucket(s, k) + [e]);
    assert Append(s, k, e).idCache.Keys == s.idCache.Keys + {e.id};
  }

  /** One Remove iteration keeps the bucket invariants. */
  lemma DetachKeepsBuckets(s: State, k: string, e: Entity)
    ensures NoEmptyBuckets(s) ==> NoEmptyBuckets(Detach(s, k, e))
    ensures Keyed(s) ==> Keyed(Detach(s, k, e))
  {
  }

  /** One Remove iteration keeps the bijection. */
  lemma DetachKeepsBijective(s: State, k: string, e: Entity)
    requires k == KeyOf(e) && Keyed(s) && Bijective(s)
    ensures Bijective(Detach(s, k, e))
  {
    if k in s.store && IndexOf(s.store[k], e).Some? {
      var b := s.store[k];
      var i := IndexOf(b, e).value;
      SwapRemoveShape(b, i);
      SwapRemoveMembers(b, i);
      assert e.id in s.idCache && s.idCache[e.id] == e;
      DetachKeepsIndexed(s, k, e, i);
      DetachKeepsBucketed(s, k, e, i);
      DetachKeepsCount(s, k, e, i);
    }
  }

  /** After a Remove step every bucketed entity is still the one its id resolves to. */
  lemma DetachKeepsIndexed(s: State, k: string, e: Entity, i: nat)
    requires k in s.store && IndexOf(s.store[k], e) == Some(i)
    requires Keyed(s) && BucketedAreIndexed(s) && k == KeyOf(e)
    requires forall x :: x in SwapRemove(s.store[k], i) <==> x in s.store[k] && x != e
    ensures BucketedAreIndexed(Detach(s, k, e))
  {
  }

  /** After a Remove step every remaining id still resolves to a bucketed entity. */
  lemma DetachKeepsBucketed(s: State, k: string, e: Entity, i: nat)
    requires k in s.store && IndexOf(s.store[k], e) == Some(i)
    requires IndexedAreBucketed(s) && e.id in s.idCache && s.idCache[e.id] == e
    requires forall x :: x in SwapRemove(s.store[k], i) <==> x in s.store[k] && x != e
    ensures IndexedAreBucketed(Detach(s, k, e))
  {
  }

  /** A Remove step that finds its entity shrinks the id index and the buckets by one each. */
  lemma DetachKeepsCount(s: State, k: string, e: Entity, i: nat)
    requires k in s.store && IndexOf(s.store[k], e) == Some(i)
    requires TotalLen(s.store) == |s.idCache| && e.id in s.idCache
    ensures TotalLen(Detach(s, k, e).store) == |Detach(s, k, e).idCache|
  {
    var r := SwapRemove(s.store[k], i);
    assert (s.idCache - {e.id}).Keys == s.idCache.Keys - {e.id};
    if |r| == 0 {
      TotalLenRemove(s.store, k);
    } else {
      TotalLenUpdate(s.store, k, r);
    }
  }

  /** Add keeps the bucket invariants whatever it is given, and the bijection
      when every id it inserts is fresh and distinct. Holds for the partial
      effect of a call that fails part-way too. */
  lemma {:induction false} AddEachKeeps(s: State, vs: seq<Value>)
    ensures NoEmptyBuckets(s) ==> NoEmptyBuckets(AddEach(s, vs).0)
    ensures Keyed(s) ==> Keyed(AddEach(s, vs).0)
    ensures Bijective(s) && FreshIds(s, vs) ==> Bijective(AddEach(s, vs).0)
    decreases |vs|
  {
    if vs != [] && vs[0].PointerToStruct? {
      var e := vs[0].target;
      var t := Append(s, KeyOf(e), e);
      AppendKeepsBuckets(s, KeyOf(e), e);
      if Bijective(s) && FreshIds(s, vs) {
        AppendKeepsBijective(s, KeyOf(e), e);
        assert FreshIds(t, vs[1..]) by {
          var rest := vs[1..];
          forall i | 0 <= i < |rest| && rest[i].PointerToStruct?
            ensures rest[i].target.id !in t.idCache
          {
            assert rest[i] == vs[i + 1];
          }
          forall i, j | 0 <= i < j < |rest| && rest[i].PointerToStruct? && rest[j].PointerToStruct?
            ensures rest[i].target.id != rest[j].target.id
          {
            assert rest[i] == vs[i + 1] && rest[j] == vs[j + 1];
          }
        }
      }
      AddEachKeeps(t, vs[1..]);
    }
  }

  /** Remove keeps the bucket invariants and the bijection, whatever it is
      given, including the partial effect of a call that fails part-way. */
  lemma {:induction false} RemoveEachKeeps(s: State, vs: seq<Value>)
    ensures NoEmptyBuckets(s) ==> NoEmptyBuckets(RemoveEach(s, vs).0)
    ensures Keyed(s) ==> Keyed(RemoveEach(s, vs).0)
    ensures Keyed(s) && Bijective(s) ==> Bijective(RemoveEach(s, vs).0)
    decreases |vs|
  {
    if vs != [] && vs[0].PointerToStruct? {
      var e := vs[0].target;
      DetachKeepsBuckets(s, KeyOf(e), e);
      if Keyed(s) && Bijective(s) {
        DetachKeepsBijective(s, KeyOf(e), e);
      }
      RemoveEachKeeps(Detach(s, KeyOf(e), e), vs[1..]);
    }
  }
}
