/** The integers of the machines that the software runs on. */
module Machine {
  const TWO_32 := 0x1_0000_0000

  type U32 = x: int | 0 <= x < TWO_32

  type Byte = x: int | 0 <= x < 256

  datatype Option<T> = None | Some(value: T)
}
