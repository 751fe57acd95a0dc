/** Constants and types shared by the components. */
module Defs {
  datatype Option<T> = None | Some(value: T)

  /** The bytes of a record. */
  type Bytes = seq<bv8>

  const PAGE_SIZE: nat := 4096
  const INT_MIN: int := -0x8000_0000
  const INT_MAX: int := 0x7fff_ffff
}
