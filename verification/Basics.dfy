/** What several components share. */
module Basics {

  datatype Option<T> = None | Some(value: T)

  const NANOS_PER_SECOND: nat := 1_000_000_000

  function Min(a: int, b: int): int {
    if a < b then a else b
  }

  /** A limit or a count of which at least one is meant. */
  function AtLeastOne(x: int): nat {
    if x <= 0 then 1 else x
  }
}
