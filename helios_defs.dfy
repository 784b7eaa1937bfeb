/** Definitions shared by the Helios DAC protocol layer: the limits the driver
    checks frames against, the point record, bytes, and the helpers used by the
    bit packing and the little-endian fields of the wire format. */
module HeliosDefs {

  /** Largest number of points in one frame (HELIOS_MAX_POINTS). */
  const HELIOS_MAX_POINTS: int := 0x1000
  /** Fastest playback rate in points per second (HELIOS_MAX_RATE). */
  const HELIOS_MAX_RATE: int := 0xFFFF
  /** Slowest playback rate in points per second (HELIOS_MIN_RATE). */
  const HELIOS_MIN_RATE: int := 7

  /** The frame trailer stores the rate and the point count in 16 bits each,
      so both limits must fit there; the rate range must not be empty. */
  lemma LimitsFitSixteenBits()
    ensures 0 < HELIOS_MAX_POINTS < 0x1_0000
    ensures 0 < HELIOS_MIN_RATE <= HELIOS_MAX_RATE < 0x1_0000
  {
  }

  /** `uint8_t` */
  type byte = b: int | 0 <= b < 0x100
  /** `uint16_t` */
  type uint16 = v: int | 0 <= v < 0x1_0000

  datatype Option<T> = None | Some(value: T)

  /** One projector sample (HeliosPoint): 16-bit x and y of which the
      protocol carries the low 12 bits, and 8-bit red, green, blue and
      intensity. */
  datatype Point = Point(x: uint16, y: uint16, r: byte, g: byte, b: byte, i: byte)

  /** The coordinates fit the 12 bits the frame format gives them. */
  predicate Is12Bit(p: Point) {
    p.x < 0x1000 && p.y < 0x1000
  }

  function Pow2(k: nat): (p: nat)
    ensures p >= 1
  {
    if k == 0 then 1 else 2 * Pow2(k - 1)
  }

  /** Bitwise `|` of two non-negative integers, bit by bit from the lowest. */
  function BitOr(a: nat, b: nat): nat
    decreases a + b
  {
    if a == 0 then b
    else if b == 0 then a
    else 2 * BitOr(a / 2, b / 2) + (if a % 2 == 1 || b % 2 == 1 then 1 else 0)
  }

  /** `|` of two k-bit values is a k-bit value, and sets every bit either has. */
  lemma {:induction false} BitOrBelow(a: nat, b: nat, k: nat)
    requires a < Pow2(k) && b < Pow2(k)
    ensures BitOr(a, b) < Pow2(k)
    ensures a <= BitOr(a, b) && b <= BitOr(a, b)
  {
    if a != 0 && b != 0 {
      BitOrBelow(a / 2, b / 2, k - 1);
    }
  }

  /** Writing v as lo + d * hi with 0 <= lo < d determines the quotient and
      remainder of v by d, for the group and field widths of the wire
      format. */
  lemma DivModUnique(v: int, d: int, lo: int, hi: int)
    requires d == 7 || d == 0x10 || d == 0x100 || d == 0x1000 || d == 0x1_0000 || d == 0x100_0000
    requires 0 <= lo < d && v == lo + d * hi
    ensures v / d == hi && v % d == lo
  {
  }

  /** `(uint8_t)(v & 0xFF)` for a two's complement `int` v. */
  function LowByte(v: int): (b: byte)
    ensures (v - b) % 0x100 == 0
  {
    v % 0x100
  }

  /** `(uint8_t)(v >> 8)` for a two's complement `int` v with an arithmetic
      shift (Dafny's `/` by a positive divisor rounds down, like the shift). */
  function HighByte(v: int): (b: byte)
    ensures (v - LowByte(v) - 0x100 * b) % 0x1_0000 == 0
  {
    LittleEndian16Truncates(v);
    (v / 0x100) % 0x100
  }

  /** The value of a 16-bit little-endian field. */
  function LittleEndian16(lo: byte, hi: byte): (v: uint16) {
    lo + 0x100 * hi
  }

  /** The low and high byte of any `int` hold its value modulo 2^16, which
      is what a 16-bit field keeps of it. */
  lemma LittleEndian16Truncates(v: int)
    ensures v % 0x100 + 0x100 * ((v / 0x100) % 0x100) == v % 0x1_0000
  {
    var m, q := v % 0x1_0000, v / 0x1_0000;
    var lo, hi := m % 0x100, m / 0x100;
    DivModUnique(v, 0x100, lo, hi + 0x100 * q);
    DivModUnique(v / 0x100, 0x100, hi, q);
  }

  /** Splitting a 16-bit value into its low and high byte loses nothing. */
  lemma LittleEndian16RoundTrip(v: int)
    requires 0 <= v < 0x1_0000
    ensures LittleEndian16(LowByte(v), HighByte(v)) == v
  {
  }

  /** A 16-bit field read back is written out again as the same two bytes. */
  lemma LittleEndian16Bytes(lo: byte, hi: byte)
    ensures LowByte(LittleEndian16(lo, hi)) == lo
    ensures HighByte(LittleEndian16(lo, hi)) == hi
  {
  }
}
