/** 32-bit machine arithmetic as `src/third/ikcp.cpp` uses it: unsigned words that
    wrap around, two's complement reinterpretation, and the signed difference of
    two words that orders sequence numbers and time stamps. */
module Word32 {

  const TWO32: int := 0x1_0000_0000
  const HALF: int := 0x8000_0000

  type Word = x: int | 0 <= x < 0x1_0000_0000

  /** Conversion to IUINT32. */
  function W(x: int): (r: Word) {
    x % TWO32
  }

  /** Conversion to IINT32. */
  function I32(x: int): (r: int)
    ensures -HALF <= r < HALF
    ensures W(r) == W(x)
  {
    var w := W(x);
    if w < HALF then w else w - TWO32
  }

  /** `_itimediff`. */
  function TimeDiff(later: int, earlier: int): (r: int)
    ensures -HALF <= r < HALF
  {
    I32(later - earlier)
  }

  function Min(a: int, b: int): int {
    if a <= b then a else b
  }

  function Max(a: int, b: int): int {
    if a >= b then a else b
  }

  /** `_ibound_`. */
  function Bound(lower: int, middle: int, upper: int): int {
    Min(Max(lower, middle), upper)
  }

  /** C's `/` on signed operands, which truncates toward zero. */
  function TruncDiv(a: int, b: int): int
    requires b > 0
  {
    if a >= 0 then a / b else -((-a) / b)
  }

  /** How sequence numbers are counted: the code's 32-bit words, or without bound. */
  datatype Numbering = Mod32 | Unbounded

  /** The ordering test between two sequence numbers. */
  function Diff(m: Numbering, later: int, earlier: int): int {
    if m.Mod32? then TimeDiff(later, earlier) else later - earlier
  }

  function Plus(m: Numbering, x: int, k: int): int {
    if m.Mod32? then W(x + k) else x + k
  }

  /** The integer congruent to `x` that lies within half the word space of `base`. */
  function Lift(x: int, base: int): (r: int)
    ensures -HALF <= r - base < HALF
    ensures W(r) == W(x)
  {
    base + TimeDiff(x, base)
  }

  /** The comparison of section 3.2 of RFC 1982: on words less than half the space
      apart, the signed difference is the true difference. */
  lemma DiffOfNear(a: int, b: int)
    requires -HALF <= a - b < HALF
    ensures TimeDiff(W(a), W(b)) == a - b
  {
  }

  lemma WordsOfNearDiffer(a: int, b: int)
    requires -TWO32 < a - b < TWO32
    ensures W(a) == W(b) <==> a == b
  {
  }
}
