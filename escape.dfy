/** The escape-time iteration of one pixel: starting from z = 0, apply
    z := z * z + c until |z| reaches 2 or the iteration limit is used up,
    and count the steps. Doubles are taken as exact reals. */
module Escape {
  import opened Numerics

  /** A point of the complex plane, re + im * i. */
  datatype Point = Point(re: real, im: real)

  const ORIGIN := Point(0.0, 0.0)

  /** |z| >= 2, tested on the square of the modulus: the square root of a
      non-negative number is below 2 exactly when the number is below 4. */
  predicate Escaped(z: Point) {
    z.re * z.re + z.im * z.im >= 4.0
  }

  /** One step of the recurrence, z * z + c. */
  function Step(z: Point, c: Point): Point {
    Point(z.re * z.re - z.im * z.im + c.re, 2.0 * z.re * z.im + c.im)
  }

  /** The n-th point of the orbit of 0 under z * z + c. */
  function Orbit(c: Point, n: nat): Point {
    if n == 0 then ORIGIN else Step(Orbit(c, n - 1), c)
  }

  /** The first step at or after `n` whose point has escaped, or `limit`
      when none below `limit` has. */
  function EscapeFrom(c: Point, limit: nat, n: nat): (t: nat)
    requires n <= limit
    ensures n <= t <= limit
    ensures t < limit ==> Escaped(Orbit(c, t))
    ensures forall k :: n <= k < t ==> !Escaped(Orbit(c, k))
    decreases limit - n
  {
    if n == limit || Escaped(Orbit(c, n)) then n else EscapeFrom(c, limit, n + 1)
  }

  /** The escape count of `c`: the first step whose point lies outside the
      circle of radius 2, capped at `limit`. */
  function EscapeTime(c: Point, limit: nat): (t: nat)
    ensures t <= limit
    ensures t < limit ==> Escaped(Orbit(c, t))
    ensures forall k :: 0 <= k < t ==> !Escaped(Orbit(c, k))
  {
    EscapeFrom(c, limit, 0)
  }

  /** The loop of the paint handler: `a`, `b` hold the current point and
      `tries` counts the steps taken; the loop stops as soon as the point
      has escaped or `limit` steps were taken. */
  method CountTries(c: Point, limit: uint32) returns (tries: uint32)
    ensures tries == EscapeTime(c, limit)
  {
    var a, b := 0.0, 0.0;
    tries := 0;
    while a * a + b * b < 4.0 && tries < limit
      invariant tries <= limit
      invariant Point(a, b) == Orbit(c, tries)
      invariant forall k :: 0 <= k < tries ==> !Escaped(Orbit(c, k))
      decreases limit - tries
    {
      EscapeTest(a, b);
      OrbitNext(c, tries, a, b);
      var oldA := a;
      a := a * a - b * b + c.re;
      b := 2.0 * oldA * b + c.im;
      tries := tries + 1;
    }
    EscapeTest(a, b);
    EscapeTimeUnique(c, limit, tries);
  }

  /** The loop's test on the coordinates is the escape test. */
  lemma EscapeTest(a: real, b: real)
    ensures Escaped(Point(a, b)) <==> !(a * a + b * b < 4.0)
  {
  }

  /** The next point of the orbit, written out on the coordinates of the
      current one. */
  lemma OrbitNext(c: Point, n: nat, a: real, b: real)
    requires Point(a, b) == Orbit(c, n)
    ensures Orbit(c, n + 1) == Point(a * a - b * b + c.re, 2.0 * a * b + c.im)
  {
    assert Orbit(c, n + 1) == Step(Orbit(c, n), c);
    assert Step(Orbit(c, n), c) == Step(Point(a, b), c);
  }

  /** Any count that is at most the limit, has no earlier escape, and has
      escaped unless it is the limit, is the escape count. */
  lemma EscapeTimeUnique(c: Point, limit: nat, t: nat)
    requires t <= limit
    requires forall k :: 0 <= k < t ==> !Escaped(Orbit(c, k))
    requires t < limit ==> Escaped(Orbit(c, t))
    ensures EscapeTime(c, limit) == t
  {
  }

  /** With a limit of 0 the loop never runs. */
  lemma EscapeTimeZeroLimit(c: Point)
    ensures EscapeTime(c, 0) == 0
  {
  }

  /** The orbit of the origin stays at the origin. */
  lemma {:induction false} OriginOrbitFixed(n: nat)
    ensures Orbit(ORIGIN, n) == ORIGIN
  {
    if n > 0 {
      OriginOrbitFixed(n - 1);
    }
  }

  /** The origin never escapes: its count is always the limit. */
  lemma OriginNeverEscapes(limit: nat)
    ensures EscapeTime(ORIGIN, limit) == limit
  {
    var t := EscapeTime(ORIGIN, limit);
    if t < limit {
      OriginOrbitFixed(t);
    }
  }

  /** The point 2 + 2i has escaped after the first step. */
  lemma EscapeAfterOneStep(limit: nat)
    requires limit >= 1
    ensures EscapeTime(Point(2.0, 2.0), limit) == 1
  {
    var c := Point(2.0, 2.0);
    assert Orbit(c, 1) == Step(ORIGIN, c) == c;
    EscapeTimeUnique(c, limit, 1);
  }
}
