/** Host-side scalars: bytes, 64-bit words with C's wrap-around, and nullable C strings. */
module Words {
  const TWO_TO_64: int := 0x1_0000_0000_0000_0000

  type Byte = x: int | 0 <= x < 256
  type Word64 = x: int | 0 <= x < TWO_TO_64

  /** Unsigned 64-bit addition and subtraction. */
  function Add64(a: int, b: int): Word64 {
    (a + b) % TWO_TO_64
  }

  function Sub64(a: int, b: int): Word64 {
    (a - b) % TWO_TO_64
  }

  /** A `char *`: either NULL or the bytes before the terminator. */
  datatype CString = Null | Text(bytes: seq<Byte>)

  datatype Option<+T> = None | Some(value: T)
}
