/** Java's fixed-width integers, as far as the model needs them. */
module JavaTypes {

  const IntMin: int := -0x8000_0000
  const IntMax: int := 0x7fff_ffff

  /** A Java `int`. */
  type Int32 = x: int | -0x8000_0000 <= x <= 0x7fff_ffff

  /** A value in hundredths (a GPA of 3.8 is 380, a course score of 88 is 8800).
      The model only compares and copies these values; no floating-point
      arithmetic is done on them. */
  type Hundredths = int

  /** Two's-complement wrap-around of an unbounded integer into a Java `int`. */
  function Wrap32(x: int): (r: Int32)
    ensures (r - x) % 0x1_0000_0000 == 0
  {
    (x + 0x8000_0000) % 0x1_0000_0000 - 0x8000_0000
  }

  /** A value that already fits in an `int` is left alone by the wrap-around. */
  lemma Wrap32InRange(x: int)
    requires IntMin <= x <= IntMax
    ensures Wrap32(x) == x
  {
  }

  /** Values congruent modulo 2^32 wrap to the same int. */
  lemma Wrap32Congruent(x: int, y: int)
    requires (x - y) % 0x1_0000_0000 == 0
    ensures Wrap32(x) == Wrap32(y)
  {
    var q := (x - y) / 0x1_0000_0000;
    assert x + 0x8000_0000 == (y + 0x8000_0000) + 0x1_0000_0000 * q;
  }

  /** Adding to an already wrapped value wraps like adding to the original:
      a running Java `int` total equals the wrapped mathematical total. */
  lemma Wrap32Add(a: int, b: int)
    ensures Wrap32(Wrap32(a) + b) == Wrap32(a + b)
  {
    Wrap32Congruent(Wrap32(a) + b, a + b);
  }
}
