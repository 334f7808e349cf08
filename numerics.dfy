/** The C# integer semantics that the viewer's arithmetic depends on:
    the range of `uint`, the unchecked cast `(int)` of a `uint`, and the
    remainder operator `%`, which truncates toward zero. */
module Numerics {

  /** A C# `uint`. */
  type uint32 = x: int | 0 <= x < 0x1_0000_0000

  /** The unchecked conversion `(int)u` of a `uint`: the one `int` value in
      [-2^31, 2^31) that is congruent to `u` modulo 2^32. Below 2^31 it is
      the identity. */
  function ToInt32(u: uint32): (i: int)
    ensures -0x8000_0000 <= i < 0x8000_0000
    ensures (u - i) % 0x1_0000_0000 == 0
    ensures u < 0x8000_0000 ==> i == u
    ensures u >= 0x8000_0000 ==> i < 0
  {
    if u < 0x8000_0000 then u else u - 0x1_0000_0000
  }

  /** C#'s `a % n` for a positive divisor: the one value congruent to `a`
      modulo n that lies in [0, n) when `a >= 0` and in (-n, 0] when `a < 0`,
      so the remainder takes the sign of the dividend. */
  function Rem(a: int, n: int): (r: int)
    requires n > 0
    ensures (a - r) % n == 0
    ensures a >= 0 ==> 0 <= r < n
    ensures a < 0 ==> -n < r <= 0
  {
    if a >= 0 then
      var q := a / n;
      assert a - a % n == q * n;
      MultipleHasNoRemainder(q, n);
      a % n
    else
      var q := (-a) / n;
      assert a + (-a) % n == (-q) * n;
      MultipleHasNoRemainder(-q, n);
      -((-a) % n)
  }

  /** A multiple of n leaves no remainder. */
  lemma MultipleHasNoRemainder(k: int, n: int)
    requires n > 0
    ensures (k * n) % n == 0
  {
    EuclideanUnique(k * n, n, k, 0);
  }

  /** For a non-negative dividend C#'s remainder is Dafny's Euclidean one:
      both are the value congruent to `a` in [0, n). */
  lemma RemOfNatural(a: int, n: int)
    requires a >= 0 && n > 0
    ensures Rem(a, n) == a % n
  {
  }

  /** The quotient and remainder of Euclidean division are unique. */
  lemma EuclideanUnique(a: int, n: int, q: int, r: int)
    requires n > 0 && 0 <= r < n && a == q * n + r
    ensures a % n == r
  {
    var d := a / n - q;
    assert n * d == n * (a / n) - n * q;
    assert n * d == r - a % n;
    if d >= 1 {
      assert n * d == n + n * (d - 1);
    }
  }
}
