/** What several components use. */
module Common {
  datatype Option<T> = None | Some(value: T)

  const TWO32: int := 0x1_0000_0000
  const TWO64: nat := 0x1_0000_0000_0000_0000

  /** Addition in 64 bits. */
  function Sum64(a: nat, b: nat): nat {
    (a + b) % TWO64
  }
}
