/** Machine words as ranges of integers. A Go string or []byte is a seq<byte>. */
module Words {
  const TWO_32: nat := 0x1_0000_0000
  const TWO_64: nat := 0x1_0000_0000_0000_0000

  type byte = n: nat | n < 256
  type uint32 = n: nat | n < TWO_32
  type uint64 = n: nat | n < TWO_64
  type int64 = n: int | -0x8000_0000_0000_0000 <= n < 0x8000_0000_0000_0000
}
