/** The fixed-width integer types of the program, as ranges of `int`. */
module MachineInts {

  /** `uint8_t` */
  type byte = x: int | 0 <= x < 0x100

  /** `uint16_t` */
  type uint16 = x: int | 0 <= x < 0x1_0000

  /** `uint32_t` */
  type uint32 = x: int | 0 <= x < 0x1_0000_0000

  /** `int8_t` */
  type int8 = x: int | -0x80 <= x < 0x80
}
