/** The store's two indices as a value, and what `Add` and `Remove`
    (ecstore.go) do to them, written as functions over that value. */
module StoreSpec {
  import opened Entities
  import opened TypeKey

  /** The fields of `ecStore` (ecstore.go:23-27) minus the lock: the type
      index `store` (type key to bucket) and the id index `idCache`. */
  datatype State = State(store: map<string, seq<Entity>>, idCache: map<string, Entity>)

  /** The state `New` and `Clear` produce: two empty maps. */
  const EMPTY := State(map[], map[])

  /** The bucket of a type key; an absent key reads as Go's nil slice. */
  function Bucket(s: State, k: string): seq<Entity> {
    if k in s.store then s.store[k] else []
  }

  /** Every value is a non-nil pointer to a struct. */
  predicate AllValid(vs: seq<Value>) {
    forall i :: 0 <= i < |vs| ==> vs[i].PointerToStruct?
  }

  /** The entities behind a sequence of valid values, in order. */
  function Targets(vs: seq<Value>): (es: seq<Entity>)
    requires AllValid(vs)
    ensures |es| == |vs| && forall i :: 0 <= i < |vs| ==> es[i] == vs[i].target
  {
    seq(|vs|, i requires 0 <= i < |vs| => vs[i].target)
  }

  // ---------------------------------------------------------------------
  // Add (ecstore.go:44-72)
  // ---------------------------------------------------------------------

  /** One iteration of Add's loop for an entity of key `k`: append it to its
      bucket, creating the bucket when absent, and point its id at it. */
  function Append(s: State, k: string, e: Entity): State {
    State(s.store[k := Bucket(s, k) + [e]], s.idCache[e.id := e])
  }

  /** Add's loop over `vs`: entities are appended in order until the first
      invalid value, which ends the call with its error. */
  function AddEach(s: State, vs: seq<Value>): (State, Outcome)
    decreases |vs|
  {
    if vs == [] then (s, Success)
    else match GetTypeKey(vs[0])
      case Err(err) => (s, Failure(err))
      case Ok(k) => AddEach(Append(s, k, vs[0].target), vs[1..])
  }

  /** The whole of `Add`: an empty argument list is an error and changes nothing. */
  function AfterAdd(s: State, vs: seq<Value>): (State, Outcome) {
    if |vs| == 0 then (s, Failure(NoEntitiesProvided)) else AddEach(s, vs)
  }

  // ---------------------------------------------------------------------
  // Remove (ecstore.go:74-114)
  // ---------------------------------------------------------------------

  /** The first slot of `b` holding `e` itself (reference identity, the
      `entry == entity` scan of ecstore.go:99-100), if any. */
  function IndexOf(b: seq<Entity>, e: Entity): (r: Option<nat>)
    ensures r.None? <==> e !in b
    ensures r.Some? ==> r.value < |b| && b[r.value] == e
    ensures r.Some? ==> forall j :: 0 <= j < r.value ==> b[j] != e
  {
    if b == [] then None
    else if b[0] == e then Some(0)
    else match IndexOf(b[1..], e)
      case None => None
      case Some(i) => Some(i + 1)
  }

  /** Swap-and-truncate removal of slot `i` (ecstore.go:101-102): the last
      element moves into slot `i` and the slice loses its last slot. */
  function SwapRemove(b: seq<Entity>, i: nat): seq<Entity>
    requires i < |b|
  {
    b[i := b[|b| - 1]][..|b| - 1]
  }

  /** Swap removal loses exactly the element in slot `i`: one slot shorter,
      every other slot but `i` kept in place, the old last element in slot
      `i`, and the same elements less one copy of the removed one. */
  lemma {:induction false} SwapRemoveShape(b: seq<Entity>, i: nat)
    requires i < |b|
    ensures |SwapRemove(b, i)| == |b| - 1
    ensures forall j :: 0 <= j < |b| - 1 && j != i ==> SwapRemove(b, i)[j] == b[j]
    ensures i < |b| - 1 ==> SwapRemove(b, i)[i] == b[|b| - 1]
    ensures multiset(SwapRemove(b, i)) + multiset{b[i]} == multiset(b)
  {
    var r := SwapRemove(b, i);
    assert b == b[..|b| - 1] + [b[|b| - 1]];
    if i < |b| - 1 {
      assert b[..|b| - 1] == b[..i] + [b[i]] + b[i + 1..|b| - 1];
      assert r == b[..i] + [b[|b| - 1]] + b[i + 1..|b| - 1];
    } else {
      assert r == b[..|b| - 1];
    }
  }

  /** One iteration of Remove's loop for an entity of key `k`: when `e`
      itself sits in the bucket, swap-remove it, delete the id entry for its
      id and drop the bucket if it became empty; otherwise change nothing. */
  function Detach(s: State, k: string, e: Entity): State {
    if k !in s.store then s
    else match IndexOf(s.store[k], e)
      case None => s
      case Some(i) =>
        var b := SwapRemove(s.store[k], i);
        State(if |b| == 0 then s.store - {k} else s.store[k := b], s.idCache - {e.id})
  }

  /** Remove's loop over `vs`: entities are detached in order until the first
      invalid value, which ends the call with its error. */
  function RemoveEach(s: State, vs: seq<Value>): (State, Outcome)
    decreases |vs|
  {
    if vs == [] then (s, Success)
    else match GetTypeKey(vs[0])
      case Err(err) => (s, Failure(err))
      case Ok(k) => RemoveEach(Detach(s, k, vs[0].target), vs[1..])
  }

  /** The whole of `Remove`: an empty argument list is an error and changes nothing. */
  function AfterRemove(s: State, vs: seq<Value>): (State, Outcome) {
    if |vs| == 0 then (s, Failure(NoEntitiesProvided)) else RemoveEach(s, vs)
  }

  /** Detach when the entity is first found in slot `i`: the bucket is
      swapped and truncated there and the id entry goes. */
  lemma DetachFound(s: State, k: string, e: Entity, i: nat)
    requires k in s.store && i < |s.store[k]| && s.store[k][i] == e
    requires forall j :: 0 <= j < i ==> s.store[k][j] != e
    ensures var b := s.store[k];
            var r := b[i := b[|b| - 1]][..|b| - 1];
            Detach(s, k, e) == State(if |r| == 0 then s.store - {k} else s.store[k := r], s.idCache - {e.id})
  {
  }

  /** Detach when the entity is in no slot of its bucket changes nothing. */
  lemma DetachMissing(s: State, k: string, e: Entity)
    requires k in s.store ==> forall j :: 0 <= j < |s.store[k]| ==> s.store[k][j] != e
    ensures Detach(s, k, e) == s
  {
  }

  /** One step of Remove's loop on a valid value. */
  lemma RemoveEachStep(s: State, vs: seq<Value>)
    requires vs != [] && vs[0].PointerToStruct?
    ensures RemoveEach(s, vs) == RemoveEach(Detach(s, KeyOf(vs[0].target), vs[0].target), vs[1..])
  {
  }
}
