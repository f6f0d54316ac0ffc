/** Java's fixed-width integer arithmetic, written out over Dafny's
    unbounded integers. */
module JavaInts {

  const TwoTo32: int := 0x1_0000_0000
  const IntMin: int := -0x8000_0000
  const IntMax: int := 0x7FFF_FFFF

  predicate IsInt(x: int) {
    IntMin <= x <= IntMax
  }

  /** The narrowing conversion `(int) x` from `long`: keep the low 32 bits
      and read them as a two's-complement number. */
  function NarrowToInt(x: int): (r: int)
    ensures IsInt(r)
    ensures (x - r) % TwoTo32 == 0
  {
    var low := x % TwoTo32;
    if low <= IntMax then low else low - TwoTo32
  }

  /** A value that already fits in 32 bits survives the cast unchanged. */
  lemma NarrowToIntKeepsInts(x: int)
    requires IsInt(x)
    ensures NarrowToInt(x) == x
  {
    if x < 0 {
      assert x % TwoTo32 == x + TwoTo32;
    }
  }
}
