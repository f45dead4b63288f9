/** Machine words, C strings as values, and the Option type. */
module Words {

  type Byte = x: int | 0 <= x < 0x100
  type Word16 = x: int | 0 <= x < 0x1_0000
  type Word32 = x: int | 0 <= x < 0x1_0000_0000

  /** A character of a C string: any byte but the terminator. */
  type Char = x: int | 1 <= x < 0x100 witness 1

  /** The characters of a C string, without the terminator. */
  type Text = seq<Char>

  datatype Option<+T> = None | Some(value: T)

  const LF: Char := 10
  const CR: Char := 13
  const SPACE: Char := 32
  const DOT: Char := 46
  const SLASH: Char := 47
}
