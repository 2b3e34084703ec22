// Error and wrapper types shared by every layer of the backend
// (src/domain/base.rs and the Rust standard Option/Result).
module Base {

  /** Rust's Option<T>. */
  datatype Option<+T> = None | Some(value: T)

  /** Rust's Result<T, E>; the domain layer uses it with DomainError. */
  datatype Result<+T, +E> = Ok(value: T) | Err(error: E)

  /** The four domain error kinds, each carrying its message. */
  datatype DomainError =
    | InvalidValue(msg: string)
    | NotFound(msg: string)
    | BusinessRuleViolation(msg: string)
    | InvalidOperation(msg: string)

  /** The keys of a map in some order, each once: how iterating a Rust
      HashMap is modelled, since its order is unspecified. */
  method KeysInSomeOrder<K, V>(m: map<K, V>) returns (order: seq<K>)
    ensures |order| == |m|
    ensures forall i, j :: 0 <= i < j < |order| ==> order[i] != order[j]
    ensures forall k :: k in order <==> k in m
  {
    var rest := m.Keys;
    order := [];
    while rest != {}
      invariant rest <= m.Keys
      invariant |order| + |rest| == |m|
      invariant forall i, j :: 0 <= i < j < |order| ==> order[i] != order[j]
      invariant forall k :: k in m <==> k in order || k in rest
      invariant forall i :: 0 <= i < |order| ==> order[i] !in rest
      decreases |rest|
    {
      var k :| k in rest;
      order := order + [k];
      rest := rest - {k};
    }
  }
}
