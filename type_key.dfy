/** The type-key classifier `getTypeKey` (util.go). */
module TypeKey {
  import opened Entities

  /** The key of the bucket an accepted entity goes into: the short name of
      its struct type (`reflect.TypeOf(e).Elem().Name()`). */
  function KeyOf(e: Entity): string {
    e.structType.name
  }

  /** Validates a value and derives its type key. Succeeds exactly on a
      non-nil pointer to a struct; every other shape is the invalid-pointer
      error. */
  function GetTypeKey(v: Value): (r: Result<string>)
    ensures r.Ok? <==> v.PointerToStruct?
    ensures r.Ok? ==> r.value == KeyOf(v.target)
    ensures r.Err? ==> r.error == InvalidEntityPointer
  {
    match v
    case NilInterface => Err(InvalidEntityPointer)
    case NilPointer => Err(InvalidEntityPointer)
    case NonPointer => Err(InvalidEntityPointer)
    case PointerToNonStruct => Err(InvalidEntityPointer)
    case PointerToStruct(e) => Ok(KeyOf(e))
  }

  /** The key depends on the struct type only, never on the entity's id or
      identity: two entities of one struct type share a bucket. */
  lemma SameTypeSameKey(a: Entity, b: Entity)
    requires a.structType == b.structType
    ensures GetTypeKey(PointerToStruct(a)) == GetTypeKey(PointerToStruct(b))
    ensures GetTypeKey(PointerToStruct(a)).Ok?
  {
  }

  /** Struct types with different names get different keys. */
  lemma DistinctNamesDistinctKeys(a: Entity, b: Entity)
    requires a.structType.name != b.structType.name
    ensures GetTypeKey(PointerToStruct(a)) != GetTypeKey(PointerToStruct(b))
  {
  }

  /** The key is the short name only: struct types of the same name declared
      in different packages collide in one bucket. */
  lemma SameNameOtherPackageCollides(a: Entity, b: Entity)
    requires a.structType.name == b.structType.name
    requires a.structType.pkgPath != b.structType.pkgPath
    ensures a.structType != b.structType
    ensures GetTypeKey(PointerToStruct(a)) == GetTypeKey(PointerToStruct(b))
  {
  }
}
