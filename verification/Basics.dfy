/** What several components share. */
module Basics {

  datatype Option<T> = None | Some(value: T)

  const INT_MAX: int := 0x7fff_ffff

  function Min(a: int, b: int): int {
    if a <= b then a else b
  }
}
