/** The screenshot carousel's index arithmetic. */
module Carousel {
  import JsMath

  /** nextScreenshot: `(prev + 1) % screenshots.length`. */
  function Next(index: nat, count: nat): (r: nat)
    requires count > 0
    ensures r < count
  {
    (index + 1) % count
  }

  /** prevScreenshot: `(prev - 1 + screenshots.length) % screenshots.length`; the operand is never negative. */
  function Prev(index: nat, count: nat): (r: nat)
    requires count > 0
    ensures r < count
  {
    (index - 1 + count) % count
  }

  /** A value below twice the modulus is reduced by at most one subtraction. */
  lemma ModBelowTwice(x: int, n: int)
    requires n > 0 && 0 <= x < 2 * n
    ensures x % n == if x < n then x else x - n
  {
    var q := x / n;
    assert x == q * n + x % n;
    if q >= 2 {
      JsMath.MulLe(2, q, n);
    } else if q == 0 {
      assert x % n == x;
    } else {
      assert x % n == x - n;
    }
  }

  /** Inside the carousel, next and previous undo each other. */
  lemma NextPrevInverse(index: nat, count: nat)
    requires index < count
    ensures Prev(Next(index, count), count) == index
    ensures Next(Prev(index, count), count) == index
  {
    ModBelowTwice(index + 1, count);
    ModBelowTwice(index - 1 + count, count);
    var n := Next(index, count);
    var p := Prev(index, count);
    ModBelowTwice(n - 1 + count, count);
    ModBelowTwice(p + 1, count);
  }

  /** The ends wrap around, and every other step moves by exactly one. */
  lemma Steps(index: nat, count: nat)
    requires index < count
    ensures Next(index, count) == if index == count - 1 then 0 else index + 1
    ensures Prev(index, count) == if index == 0 then count - 1 else index - 1
  {
    ModBelowTwice(index + 1, count);
    ModBelowTwice(index - 1 + count, count);
  }
}
