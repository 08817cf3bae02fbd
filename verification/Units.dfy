/** The sizes that the kernel's arithmetic runs on. */
module Units {
  const WORD := 0x1_0000_0000_0000_0000
  const PAGE := 4096
}
