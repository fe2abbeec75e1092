/**
 Machine words of the C source, as subset types over unbounded integers.
 Every wrap-around, truncation and cast of the source is written out with these.
 */
module Words {
  datatype Option<T> = None | Some(value: T)

  type byte = x: int | 0 <= x < 256
  type u16 = x: int | 0 <= x < 0x1_0000
  type u32 = x: int | 0 <= x < 0x1_0000_0000

  /** Conversion to `uint32_t`. */
  function Wrap32(x: int): u32 { x % 0x1_0000_0000 }

  /** A value that fits is not changed by the conversion. */
  lemma Fits32(x: int)
    requires 0 <= x < 0x1_0000_0000
    ensures Wrap32(x) == x
  {
  }

  /** `x + 1` in `uint32_t`. */
  function Inc32(x: u32): u32 { if x == 0xFFFF_FFFF then 0 else x + 1 }

  lemma Inc32Wraps(p: int)
    ensures Inc32(Wrap32(p)) == Wrap32(p + 1)
  {
  }

  /** Conversion to `uint16_t`. */
  function Wrap16(x: int): u16 { x % 0x1_0000 }

  /** The value of a `uint32_t` read as `int32_t`. */
  function Signed32(x: u32): int { if x < 0x8000_0000 then x else x - 0x1_0000_0000 }

  function Min(a: int, b: int): int { if a < b then a else b }

  function Max(a: int, b: int): int { if a < b then b else a }

  /** A word as the (little-endian) host loads it from memory. */
  function LoadWord(b: seq<byte>): u32
    requires |b| == 4
  {
    b[0] as int + 256 * b[1] as int + 65536 * b[2] as int + 16777216 * b[3] as int
  }

  /** The four bytes of a word as the host stores it. */
  function WordBytes(x: u32): (b: seq<byte>)
    ensures |b| == 4 && LoadWord(b) == x
  {
    var y, z := x / 256, x / 256 / 256;
    [x % 256, y % 256, z % 256, z / 256]
  }

  /** The bytes that load as `x`, without saying how they are computed. */
  ghost function StoreWord(x: u32): (b: seq<byte>)
    ensures |b| == 4 && LoadWord(b) == x
  {
    assert LoadWord(WordBytes(x)) == x;
    var b: seq<byte> :| |b| == 4 && LoadWord(b) == x;
    b
  }

  /** Peels the low digit: equal sums have equal low bytes and equal rests. */
  lemma LowByte(a: byte, b: byte, x: int, y: int)
    requires a as int + 256 * x == b as int + 256 * y
    ensures a == b && x == y
  {
  }

  lemma StoreIsUnique(x: u32)
    ensures WordBytes(x) == StoreWord(x)
  {
    var a, b := WordBytes(x), StoreWord(x);
    var a3: int, b3: int := a[3], b[3];
    LowByte(a[0], b[0], a[1] as int + 256 * (a[2] as int + 256 * a3), b[1] as int + 256 * (b[2] as int + 256 * b3));
    LowByte(a[1], b[1], a[2] as int + 256 * a3, b[2] as int + 256 * b3);
    LowByte(a[2], b[2], a3, b3);
  }
}
