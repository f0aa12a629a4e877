/** Machine widths of the 8-bit AVR target and the board-wide sensor count. */
module Board {

  /** `uint8_t` */
  type byte = x: int | 0 <= x < 0x100

  /** `uint16_t`; on the AVR target this is also `unsigned int`. */
  type uint16 = x: int | 0 <= x < 0x1_0000

  /** `uint32_t` (and `unsigned long`). */
  type uint32 = x: int | 0 <= x < 0x1_0000_0000

  const Two16: nat := 0x1_0000
  const Two32: nat := 0x1_0000_0000

  /** EGG_BUS_NUM_HOSTED_SENSORS: the board hosts a NO2 and a CO sensor. */
  const NumHostedSensors: byte := 2
}
