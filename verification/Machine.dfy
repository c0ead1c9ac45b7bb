/** Constants of the machine and datatypes shared by every part of the model. */
module Machine {
  const PAGE_SIZE: nat := 0x1000
  const TWO32: nat := 0x1_0000_0000
  const TWO64: nat := 0x1_0000_0000_0000_0000

  type byte = b: nat | b < 0x100

  datatype Option<+T> = None | Some(value: T)
}
