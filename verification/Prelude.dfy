/** Value types shared by every component of the model. */
module Prelude {

  /** One octet. */
  newtype byte = b: int | 0 <= b < 0x100

  /** Unsigned integers of the widths the wire formats and the configuration use. */
  type u16 = n: int | 0 <= n < 0x1_0000
  type u32 = n: int | 0 <= n < 0x1_0000_0000
  type u64 = n: int | 0 <= n < 0x1_0000_0000_0000_0000

  const U64_MAX: u64 := 0xFFFF_FFFF_FFFF_FFFF

  /** An IPv4 address by its four octets. */
  datatype Ipv4 = Ipv4(a: byte, b: byte, c: byte, d: byte) {
    function Octets(): seq<byte> {
      [a, b, c, d]
    }

    predicate IsLoopback() {
      a == 127
    }
  }

  datatype Option<+T> = None | Some(value: T)

  datatype Result<+T, +E> = Ok(value: T) | Err(error: E) {
    predicate IsFailure() {
      Err?
    }

    function PropagateFailure<U>(): Result<U, E>
      requires Err?
    {
      Err(error)
    }

    function Extract(): T
      requires Ok?
    {
      value
    }
  }

  /** Big-endian reading of two octets. */
  function U16At(hi: byte, lo: byte): u16 {
    hi as int * 0x100 + lo as int
  }

  /** Big-endian writing of a 16-bit and of a 32-bit number. */
  function Be16(n: u16): (s: seq<byte>)
    ensures |s| == 2 && U16At(s[0], s[1]) == n
  {
    [(n / 0x100) as byte, (n % 0x100) as byte]
  }

  lemma Be16OfU16At(hi: byte, lo: byte)
    ensures Be16(U16At(hi, lo)) == [hi, lo]
  {
  }

  function Be32(n: u32): (s: seq<byte>)
    ensures |s| == 4
    ensures U16At(s[0], s[1]) * 0x1_0000 + U16At(s[2], s[3]) == n
  {
    Be16(n / 0x1_0000) + Be16(n % 0x1_0000)
  }
}
