/** Unsigned machine words. */
module Words {
  type Word = w: nat | w < 0x1_0000_0000
  type Word64 = w: nat | w < 0x1_0000_0000_0000_0000
}
