/**
 The Java-level vocabulary the domain model is written in: nullable values,
 object references, fixed-width integers and the exceptions the modelled code
 can raise.
 */
module Lang {

  /** A nullable value: `None` is Java's `null` for a `String`, a boxed
      `Integer`/`Long`, an embedded value or an enum field. */
  datatype Option<+T> = None | Some(value: T)

  /** The outcome of a Java call: a returned value or a thrown exception. */
  datatype Result<+T, +E> = Ok(value: T) | Err(error: E)

  /** A reference to an entity object. Objects live in a heap keyed by
      address, so `==` on two `Ref`s is Java reference identity — the
      equality `List.contains` uses for entities that do not override
      `equals`. */
  datatype Ref = Null | Addr(address: nat)

  newtype int32 = x: int | -0x8000_0000 <= x < 0x8000_0000
  newtype int64 = x: int | -0x8000_0000_0000_0000 <= x < 0x8000_0000_0000_0000

  /** The exceptions raised by the modelled operations. */
  datatype Exception =
    | NullPointer
      /** `IllegalArgumentException` from `Enum.valueOf`: no constant has that name. */
    | NoEnumConstant(name: string)
      /** The application's `AlreadyExistsUsernameException`, whose message is the username. */
    | AlreadyExistsUsername(message: Option<string>)

  /** No element occurs twice in `s`. */
  predicate NoDuplicates<T(==)>(s: seq<T>) {
    forall i, j :: 0 <= i < j < |s| ==> s[i] != s[j]
  }
}
