/** Types that several components share. */
module Types {

  /** A byte as a number. */
  newtype byte = b: int | 0 <= b < 256

  /** A byte as its eight bits, most significant first. */
  type Byte = b: seq<bool> | |b| == 8 witness ZERO_BYTE

  const ZERO_BYTE: seq<bool> := [false, false, false, false, false, false, false, false]

  datatype Option<T> = None | Some(value: T)
}
