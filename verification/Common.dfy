/** What several parts of the kernel share. */
module Common {
  /** The size of a page and of a frame. */
  const PAGE := 4096

  datatype Option<T> = None | Some(value: T)

  function Min(a: int, b: int): int {
    if a < b then a else b
  }

  function Max(a: int, b: int): int {
    if a < b then b else a
  }
}
