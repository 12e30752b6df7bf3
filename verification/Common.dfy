/** Types and readings that several parts share. */
module Common {
  datatype Option<T> = None | Some(value: T)

  type Byte = b: int | 0 <= b < 256

  function Min(a: int, b: int): int { if a < b then a else b }

  function Max(a: int, b: int): int { if a < b then b else a }

  /** The value of a bit pattern below `range`, a power of two, read as a signed number. */
  function AsSigned(range: nat, x: nat): int { if x >= range / 2 then x - range else x }
}
