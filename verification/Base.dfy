/** Types shared by the models. */
module Base {
  datatype Option<+T> = None | Some(value: T)

  const UINT32 := 0x1_0000_0000

  type Int32 = x: int | -0x8000_0000 <= x < 0x8000_0000
}
