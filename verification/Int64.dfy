/** Go's 64-bit int: sums that leave the range wrap around. */
module Int64 {
  const MIN: int := -0x8000_0000_0000_0000
  const MAX: int := 0x7fff_ffff_ffff_ffff

  type int64 = x: int | MIN <= x <= MAX

  /** The 64-bit value congruent to x. */
  function Wrap(x: int): (r: int64)
    ensures MIN <= x <= MAX ==> r == x
    ensures (r - x) % 0x1_0000_0000_0000_0000 == 0
  {
    (x + 0x8000_0000_0000_0000) % 0x1_0000_0000_0000_0000 - 0x8000_0000_0000_0000
  }

  lemma CongruentWrapsAlike(x: int, y: int, k: int)
    requires x == y + k * 0x1_0000_0000_0000_0000
    ensures Wrap(x) == Wrap(y)
  {}

  lemma WrapTwice(x: int, y: int)
    ensures Wrap(Wrap(x) + y) == Wrap(x + y)
  {
    var k := (Wrap(x) - x) / 0x1_0000_0000_0000_0000;
    CongruentWrapsAlike(Wrap(x) + y, x + y, k);
  }
}
