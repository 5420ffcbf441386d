/** Shared option type used across the model. */
module Base {

  /** A value that may be absent: a field left `undefined`, a query that found nothing. */
  datatype Option<+T> = None | Some(value: T)

  /** JavaScript truthiness of an optional string: absent and `""` are falsy. */
  predicate Truthy(s: Option<string>) {
    s.Some? && s.value != ""
  }
}
