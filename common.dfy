/** Shared vocabulary of the four automata transformations: failure-carrying
    results and the symbols that label transitions. */
module Common {

  /** An input symbol as the automaton descriptions carry it (a one-letter string,
      or "$" for the empty string). */
  type Symbol = string

  /** The empty-string symbol. */
  const Epsilon: Symbol := "$"

  datatype Option<+T> = None | Some(value: T)

  datatype Result<+T, +E> = Success(value: T) | Failure(error: E)

  /** True when no value occurs twice in `s`. */
  predicate NoDuplicates<T(==)>(s: seq<T>) {
    forall a, b :: 0 <= a < b < |s| ==> s[a] != s[b]
  }
}
