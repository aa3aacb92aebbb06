// Two's-complement 32-bit arithmetic, as the Go code of package idna relies on it.

module Int32 {

  const MAX: int := 0x7fff_ffff

  predicate InRange(x: int) {
    -0x8000_0000 <= x <= MAX
  }

  /** The int32 that is congruent to x modulo 2^32. */
  function Wrap(x: int): (r: int)
    ensures InRange(r)
    ensures InRange(x) ==> r == x
    ensures MAX < x <= 0xffff_ffff ==> r < 0
  {
    (x + 0x8000_0000) % 0x1_0000_0000 - 0x8000_0000
  }

  /** Wrapping early or late makes no difference: sums may be reduced at the end. */
  lemma WrapAdd(x: int, y: int)
    ensures Wrap(Wrap(x) + y) == Wrap(x + y)
    ensures Wrap(x + Wrap(y)) == Wrap(x + y)
  {
    WrapAddLeft(x, y);
    WrapAddLeft(y, x);
    assert x + Wrap(y) == Wrap(y) + x && x + y == y + x;
  }

  lemma WrapAddLeft(x: int, y: int)
    ensures Wrap(Wrap(x) + y) == Wrap(x + y)
  {
    var q := (x + 0x8000_0000) / 0x1_0000_0000;
    assert x == Wrap(x) + 0x1_0000_0000 * q;
    var p := (Wrap(x) + y + 0x8000_0000) / 0x1_0000_0000;
    var r := Wrap(Wrap(x) + y);
    assert Wrap(x) + y == r + 0x1_0000_0000 * p;
    assert x + y == r + 0x1_0000_0000 * (p + q);
  }
}
