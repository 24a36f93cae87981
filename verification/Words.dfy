/** The ranges of machine integers. */
module Words {
  const TWO_TO_THE_32 := 0x1_0000_0000
  const TWO_TO_THE_63 := 0x8000_0000_0000_0000
  const TWO_TO_THE_64 := 0x1_0000_0000_0000_0000

  const I64_MIN := -TWO_TO_THE_63
  const ISIZE_MAX := TWO_TO_THE_63 - 1
  const USIZE_MAX := TWO_TO_THE_64 - 1
}
