/**
 * The 32-bit `int` of C#. Additions in the program are unchecked, so a sum
 * that leaves the range wraps around modulo 2^32.
 */
module Int32 {

  const MIN: int := -0x8000_0000
  const MAX: int := 0x7fff_ffff
  const MODULUS: int := 0x1_0000_0000

  predicate InRange(x: int) {
    MIN <= x <= MAX
  }

  /** The value an unchecked C# `int` holds when the exact result is `x`. */
  function Wrap(x: int): (r: int)
    ensures InRange(r)
    ensures (x - r) % MODULUS == 0
  {
    (x - MIN) % MODULUS + MIN
  }

  /** Unchecked `a + b` on two `int`s. */
  function Add(a: int, b: int): (r: int)
    requires InRange(a) && InRange(b)
    ensures InRange(r)
    ensures (a + b - r) % MODULUS == 0
  {
    Wrap(a + b)
  }

  /** The two facts in Wrap's contract determine the wrapped value. */
  lemma WrapUnique(x: int, r: int)
    requires InRange(r)
    requires (x - r) % MODULUS == 0
    ensures r == Wrap(x)
  {
    var w := Wrap(x);
    var a := (x - r) / MODULUS;
    var b := (x - w) / MODULUS;
    assert x - r == MODULUS * a;
    assert x - w == MODULUS * b;
    assert w - r == MODULUS * (a - b);
  }

  /** A result inside the range is not changed by wrapping. */
  lemma WrapInRange(x: int)
    requires InRange(x)
    ensures Wrap(x) == x
  {
    WrapUnique(x, x);
  }

  /** Adding to a wrapped running total wraps the exact total: what an accumulating loop keeps. */
  lemma AddWrapped(x: int, y: int)
    requires InRange(y)
    ensures Add(Wrap(x), y) == Wrap(x + y)
  {
    var w := Wrap(x);
    var r := Add(w, y);
    var a := (x - w) / MODULUS;
    var b := (w + y - r) / MODULUS;
    assert x - w == MODULUS * a;
    assert w + y - r == MODULUS * b;
    assert x + y - r == MODULUS * (a + b);
    WrapUnique(x + y, r);
  }
}
