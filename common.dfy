/** Types shared by the firmware model: the unsigned 8-bit byte that the
    terminal buffer, the receive queue and the USART data path carry, and
    an optional value for non-blocking receives, and the integer minimum
    and maximum. */
module Common {

  /** `uint8_t` */
  newtype byte = x: int | 0 <= x < 256

  /** Character codes the terminal's carriage control looks at. */
  const NUL: byte := 0
  const LF: byte := 10
  const CR: byte := 13

  datatype Option<+T> = None | Some(value: T)

  function Min(a: int, b: int): int { if a <= b then a else b }
  function Max(a: int, b: int): int { if a <= b then b else a }
}
