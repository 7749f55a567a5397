/** The machine words of the C sources as ranges of the integers. */
module Words {
  type i64 = x: int | -0x8000_0000_0000_0000 <= x <= 0x7fff_ffff_ffff_ffff
  type byte = x: int | 0 <= x < 256
}
