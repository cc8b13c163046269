/** Values shared by every part of the model: 16-bit words, optional values and error returns. */
module Common {

  /** A Modbus register word. */
  type Word = w: int | 0 <= w < 0x1_0000

  datatype Option<+T> = None | Some(value: T)

  datatype Result<+T> = Ok(value: T) | Err

  /** Addition of two 16-bit words as the program performs it: it wraps around. */
  function Add16(a: Word, b: Word): Word {
    (a + b) % 0x1_0000
  }

  function Min(a: int, b: int): int {
    if a <= b then a else b
  }
}
