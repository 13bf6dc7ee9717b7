/**
 Java's `Enum.valueOf`: looking an enum constant up by its declared name.
 Both status converters decode with it.
 */
module Enums {
  import opened Lang

  /** No two constants share a declared name (Java guarantees this for every enum). */
  predicate DistinctNames<T>(constants: seq<T>, name: T -> string) {
    forall i, j :: 0 <= i < j < |constants| ==> name(constants[i]) != name(constants[j])
  }

  /** The constant of `constants` whose name is `n`, or `NoEnumConstant(n)`. */
  function Lookup<T(==)>(constants: seq<T>, name: T -> string, n: string): (r: Result<T, Exception>)
    ensures r.Ok? ==> r.value in constants && name(r.value) == n
    ensures r.Err? ==> r.error == NoEnumConstant(n) && forall c :: c in constants ==> name(c) != n
  {
    if |constants| == 0 then Err(NoEnumConstant(n))
    else if name(constants[0]) == n then Ok(constants[0])
    else Lookup(constants[1..], name, n)
  }

  /** `Enum.valueOf(type, s)`: a `null` name raises `NullPointerException`; a
      name no constant declares raises `IllegalArgumentException`; otherwise
      the constant of that name. Only names are consulted, never any other
      field of the constants. */
  function ValueOf<T(==)>(constants: seq<T>, name: T -> string, s: Option<string>): (r: Result<T, Exception>)
    ensures s.None? ==> r == Err(NullPointer)
    ensures r.Ok? ==> s.Some? && r.value in constants && name(r.value) == s.value
    ensures s.Some? ==> (r.Err? <==> forall c :: c in constants ==> name(c) != s.value)
    ensures s.Some? && r.Err? ==> r.error == NoEnumConstant(s.value)
  {
    match s
    case None => Err(NullPointer)
    case Some(n) => Lookup(constants, name, n)
  }

  /** With distinct names, looking up a constant's own name yields that very constant. */
  lemma LookupOwnName<T>(constants: seq<T>, name: T -> string, v: T)
    requires DistinctNames(constants, name)
    requires v in constants
    ensures Lookup(constants, name, name(v)) == Ok(v)
  {
  }
}
