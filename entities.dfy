/** The values the store is handed: entities, the runtime shape of an
    interface value as reflection sees it, and the two error values. */
module Entities {

  /** The two sentinel errors of the store (ecstore.go:30-33). */
  datatype StoreError = NoEntitiesProvided | InvalidEntityPointer

  /** A Go `error` return: nil, or one of the store's errors. */
  datatype Outcome = Success | Failure(error: StoreError)

  /** An optional value: a slice index that may not exist. */
  datatype Option<T> = None | Some(value: T)

  /** A value-or-error pair such as `(string, error)`. */
  datatype Result<T> = Ok(value: T) | Err(error: StoreError)

  /** A declared struct type: the package that declares it and its short name. */
  datatype StructType = StructType(pkgPath: string, name: string)

  /** A struct that implements the `Entity` interface, reached through a
      pointer. Reference identity of the pointer is Dafny object identity. */
  class Entity {
    const id: string
    const structType: StructType

    constructor (id: string, structType: StructType)
      ensures this.id == id && this.structType == structType
    {
      this.id := id;
      this.structType := structType;
    }
  }

  /** What `reflect.ValueOf` reveals about an interface value passed in as an
      entity: the nil interface, a typed nil pointer, a non-pointer value, a
      pointer to something other than a struct, or a non-nil pointer to a
      struct (the only shape the store accepts). */
  datatype Value =
    | NilInterface
    | NilPointer
    | NonPointer
    | PointerToNonStruct
    | PointerToStruct(target: Entity)
}
