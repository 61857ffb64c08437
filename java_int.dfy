/** Java's 32-bit `int`, as far as the model needs it: the bound Integer.MAX_VALUE that the
    dictionary builder saturates at, and the wrap-around of int arithmetic that
    String.hashCode and the sort comparator rely on. */
module JavaInt {

  const MAX_VALUE: int := 0x7fff_ffff
  const MIN_VALUE: int := -0x8000_0000
  const MODULUS: int := 0x1_0000_0000

  /** The int that Java's arithmetic leaves for the mathematical value x. */
  function Wrap32(x: int): (r: int)
    ensures MIN_VALUE <= r <= MAX_VALUE
    ensures (x - r) % MODULUS == 0
  {
    var m := x % MODULUS;
    if m > MAX_VALUE then m - MODULUS else m
  }

  /** Wrap32 is the identity on the int range, so it is the only value with its two properties. */
  lemma Wrap32Unique(x: int, r: int)
    requires MIN_VALUE <= r <= MAX_VALUE && (x - r) % MODULUS == 0
    ensures Wrap32(x) == r
  {
    var w := Wrap32(x);
    assert (w - r) % MODULUS == 0 by {
      assert w - r == (x - r) - (x - w);
    }
    assert -MODULUS < w - r < MODULUS;
  }

  /** n times a multiple of MODULUS, plus another multiple, is a multiple. */
  lemma MultipleStep(a: int, b: int, n: int)
    requires a % MODULUS == 0 && b % MODULUS == 0
    ensures (n * a + b) % MODULUS == 0
  {
    var p, q := a / MODULUS, b / MODULUS;
    assert a == p * MODULUS && b == q * MODULUS;
    assert n * a + b == (n * p + q) * MODULUS;
  }

  /** Wrapping an intermediate result does not change the wrapped end result of
      h * 31 + c: Java's hashing loop may wrap at every step. */
  lemma Wrap32Step(h: int, c: int)
    ensures Wrap32(31 * Wrap32(h) + c) == Wrap32(31 * h + c)
  {
    var w := Wrap32(h);
    var r := Wrap32(31 * w + c);
    MultipleStep(h - w, (31 * w + c) - r, 31);
    assert (31 * h + c) - r == 31 * (h - w) + ((31 * w + c) - r);
    Wrap32Unique(31 * h + c, r);
  }
}
