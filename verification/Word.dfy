/**
 Machine words of the C sources: unsigned 32-bit arithmetic wraps modulo 2^32, and times and
 sequence numbers are compared through the signed reading of their 32-bit difference.
 */
module Word {
  const M32: int := 0x1_0000_0000
  const HALF: int := 0x8000_0000

  type byte = x: int | 0 <= x < 256
  type u16 = x: int | 0 <= x < 0x1_0000
  type u32 = x: int | 0 <= x < 0x1_0000_0000

  /** Reduction of an integer to an unsigned 32-bit word. */
  function Wrap(x: int): u32 {
    x % M32
  }

  /** The unsigned sum. */
  function Add(a: u32, b: u32): u32 {
    if a + b < M32 then a + b else a + b - M32
  }

  /** The unsigned difference: the distance from `b` up to `a` around the 32-bit circle. */
  function Sub(a: u32, b: u32): u32 {
    if a >= b then a - b else a - b + M32
  }

  /** The signed (two's complement) reading of a 32-bit word. */
  function Signed(x: u32): (r: int)
    ensures -HALF <= r < HALF
  {
    if x < HALF then x else x - M32
  }

  /** The word with a given signed reading. */
  function Unsigned(x: int): (r: u32)
    requires -HALF <= x < HALF
    ensures Signed(r) == x
  {
    if x < 0 then x + M32 else x
  }

  /** `_itimediff`: how far `later` is ahead of `earlier`, as a signed 32-bit number. */
  function TimeDiff(later: u32, earlier: u32): (r: int)
    ensures -HALF <= r < HALF
  {
    Signed(Sub(later, earlier))
  }

  /** The signed comparison of two words that lie within 2^31 of a common base is the comparison
      of their distances from it; below 2^31 it is the true difference. */
  lemma TimeDiffFrom(a: u32, b: u32, base: u32)
    requires Sub(a, base) < HALF && Sub(b, base) < HALF
    ensures TimeDiff(a, b) == Sub(a, base) - Sub(b, base)
  {
  }

  /** Unsigned product. */
  function MulWrap(a: u32, b: u32): u32 { Wrap(a * b) }

  /** Unsigned quotient. */
  function DivWord(a: u32, b: u32): (r: u32)
    requires b > 0
    ensures r <= a
  {
    QuotientLeq(a, b, a / b, a % b);
    a / b
  }

  lemma QuotientLeq(a: nat, b: nat, q: int, r: nat)
    requires b > 0 && a == b * q + r && r < b
    ensures 0 <= q <= a
  {
    if 0 <= q {
      assert b * q == q + (b - 1) * q;
    }
  }

  /** The number that bytes stand for, most significant first. */
  function BigEndian(b: seq<byte>): nat {
    if b == [] then 0 else 256 * BigEndian(b[..|b| - 1]) + b[|b| - 1]
  }

  function Min(a: int, b: int): int { if a <= b then a else b }

  function Max(a: int, b: int): int { if a >= b then a else b }

  /** `_ibound_` */
  function Bound(lower: int, middle: int, upper: int): (r: int)
    ensures r <= upper
    ensures lower <= upper ==> lower <= r
    ensures lower <= middle <= upper ==> r == middle
  {
    Min(Max(lower, middle), upper)
  }
}
