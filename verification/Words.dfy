/** Machine words of the C++ sources, and the sequence number comparison built on them. */
module Words {
  const TWO_8: int := 0x100
  const TWO_31: int := 0x8000_0000
  const TWO_32: int := 0x1_0000_0000

  type byte = x: int | 0 <= x < TWO_8
  type u32 = x: int | 0 <= x < TWO_32

  /** An IPv4 address, as its 32-bit number. */
  type Addr = u32

  function Inc8(x: byte): byte { (x + 1) % TWO_8 }

  function Inc32(x: u32): u32 { (x + 1) % TWO_32 }

  /** The value of int32_t(a) - int32_t(b), with the subtraction wrapping at 32 bits. */
  function SignedDiff(a: u32, b: u32): int {
    var d := (a - b) % TWO_32;
    if d < TWO_31 then d else d - TWO_32
  }
}

module Options {
  datatype Option<+T> = None | Some(value: T)
}
