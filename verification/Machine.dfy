/** Fixed-width unsigned integers of the C sources, and an optional value.
    A shift or a mask of an unsigned C value is written here as a division or a remainder. */
module Machine {
  type u2 = x: int | 0 <= x < 4
  type u8 = x: int | 0 <= x < 0x100
  type u16 = x: int | 0 <= x < 0x1_0000
  type u32 = x: int | 0 <= x < 0x1_0000_0000

  function Low8(x: int): u8 { x % 0x100 }

  function Low16(x: int): u16 { x % 0x1_0000 }

  lemma Low16Sum(a: int, b: int)
    ensures Low16(Low16(a) + b) == Low16(a + b) == Low16(a + Low16(b))
  {
  }

  function Low32(x: int): u32 { x % 0x1_0000_0000 }

  /** Two bytes, most significant first. */
  function Word(hi: u8, lo: u8): u16 {
    var h: int, l: int := hi, lo;
    256 * h + l
  }

  /** The codes of a text. */
  function Ascii(text: string): seq<int> { seq(|text|, i requires 0 <= i < |text| => text[i] as int) }

  /** A buffer no longer than a 16-bit length field can say. */
  type Octets = s: seq<u8> | |s| < 0x1_0000

  datatype Option<+T> = None | Some(value: T)
}
