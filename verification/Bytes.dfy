/** The machine integers that the modelled code uses. Text is kept as a sequence of bytes too,
    because the code treats its `char`s as bytes. */
module Bytes {

  type byte = x: int | 0 <= x < 0x100
  type uint32 = x: int | 0 <= x < 0x1_0000_0000

  type Text = seq<byte>

  datatype Option<+T> = None | Some(value: T)
}
