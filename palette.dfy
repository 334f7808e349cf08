/** The colour palette of the viewer: `getColour` maps an escape count
    `tries` to a brush, given the iteration limit, the index of the selected
    colour scheme and the three seeds of the "Random" scheme. */
module Palette {
  import opened Numerics

  /** The predefined brushes the palette uses. */
  datatype NamedColour =
    | DarkGray | Gray | LightGray | LightBlue | Blue | Navy | Orange | Brown | Red
    | Black | White

  /** A brush: a predefined one, or a solid brush of `Color.FromArgb(red, green, blue)`. */
  datatype Colour = Named(name: NamedColour) | Argb(red: int, green: int, blue: int)

  /** The divisors of the "Random" scheme, drawn once when the form is built. */
  datatype Seeds = Seeds(r: int, g: int, b: int)

  /** Positions of the schemes in the colour list. */
  const TI := 0
  const BLACK_AND_WHITE := 1
  const CHRISTMAS := 2
  const AQUAMARINE := 3
  const RANDOM := 4

  /** `Color.FromArgb(r, g, b)` accepts only channels in 0..255. */
  predicate IsChannel(x: int) { 0 <= x <= 255 }

  predicate Drawable(c: Colour) {
    c.Argb? ==> IsChannel(c.red) && IsChannel(c.green) && IsChannel(c.blue)
  }

  // ---------------------------------------------------------------------
  // TI: a ladder of eight thresholds, each a fraction num/den of the limit
  // ---------------------------------------------------------------------

  const THRESHOLD_COUNT := 8

  /** The fractions 0.8, 0.6, 0.4, 0.2, 0.1, 0.06, 0.04, 0.02, in the order
      in which they are tested. */
  const THRESHOLDS: seq<(nat, nat)> :=
    [(8, 10), (6, 10), (4, 10), (2, 10), (1, 10), (6, 100), (4, 100), (2, 100)]

  /** The brush chosen when no threshold holds, then the brush each threshold
      selects, in the same order. */
  const LADDER: seq<NamedColour> :=
    [DarkGray, Gray, LightGray, LightBlue, Blue, Navy, Orange, Brown, Red]

  /** `tries` lies below the i-th fraction of `limit`: `f * limit > tries`
      with `f = num / den`, taken exactly. */
  predicate Below(tries: nat, limit: nat, i: nat)
    requires i < THRESHOLD_COUNT
  {
    THRESHOLDS[i].0 * limit > THRESHOLDS[i].1 * tries
  }

  /** How many of the first n thresholds `tries` lies below. */
  function CountBelow(tries: nat, limit: nat, n: nat): (k: nat)
    requires n <= THRESHOLD_COUNT
    ensures k <= n
  {
    if n == 0 then 0
    else CountBelow(tries, limit, n - 1) + (if Below(tries, limit, n - 1) then 1 else 0)
  }

  /** The TI band: the number of thresholds `tries` lies below. */
  function Band(tries: nat, limit: nat): (k: nat)
    ensures k <= THRESHOLD_COUNT
  {
    CountBelow(tries, limit, THRESHOLD_COUNT)
  }

  /** The TI brush, as a function of the band. */
  function TiColourOf(tries: nat, limit: nat): NamedColour {
    LADDER[Band(tries, limit)]
  }

  /** The fractions decrease, so lying below one of them means lying below
      every earlier one. */
  lemma BelowEarlier(tries: nat, limit: nat, i: nat, j: nat)
    requires j < i < THRESHOLD_COUNT
    requires Below(tries, limit, i)
    ensures Below(tries, limit, j)
  {
  }

  /** The thresholds `tries` lies below are exactly the first n of them,
      n being their count. */
  lemma {:induction false} CountBelowIsPrefix(tries: nat, limit: nat, n: nat)
    requires n <= THRESHOLD_COUNT
    ensures forall i :: 0 <= i < n ==> (Below(tries, limit, i) <==> i < CountBelow(tries, limit, n))
  {
    if n > 0 {
      CountBelowIsPrefix(tries, limit, n - 1);
      if Below(tries, limit, n - 1) {
        forall i | 0 <= i < n - 1
          ensures Below(tries, limit, i)
        {
          BelowEarlier(tries, limit, n - 1, i);
        }
      }
    }
  }

  /** The last threshold that holds decides the band: thresholds 0..k-1
      hold and thresholds k..7 do not, where k is the band. */
  lemma BandIsLastSatisfied(tries: nat, limit: nat)
    ensures forall i :: 0 <= i < THRESHOLD_COUNT ==>
      (Below(tries, limit, i) <==> i < Band(tries, limit))
  {
    CountBelowIsPrefix(tries, limit, THRESHOLD_COUNT);
  }

  /** Each TI brush is chosen exactly when its own threshold holds (or it is
      the default) and the next one does not (or it is the last). */
  lemma TiColourOfBand(tries: nat, limit: nat, k: nat)
    requires k <= THRESHOLD_COUNT
    ensures TiColourOf(tries, limit) == LADDER[k] <==>
      (k == 0 || Below(tries, limit, k - 1)) && (k == THRESHOLD_COUNT || !Below(tries, limit, k))
  {
    BandIsLastSatisfied(tries, limit);
    assert forall i, j :: 0 <= i < j <= THRESHOLD_COUNT ==> LADDER[i] != LADDER[j];
  }

  /** At or above 0.8 of the limit the brush is DarkGray, and only there. */
  lemma TiDarkGray(tries: nat, limit: nat)
    ensures TiColourOf(tries, limit) == DarkGray <==> 10 * tries >= 8 * limit
  {
    TiColourOfBand(tries, limit, 0);
  }

  /** Below 0.02 of the limit the brush is Red, and only there. */
  lemma TiRed(tries: nat, limit: nat)
    ensures TiColourOf(tries, limit) == Red <==> 2 * limit > 100 * tries
  {
    TiColourOfBand(tries, limit, THRESHOLD_COUNT);
  }

  /** With a limit of 0 no threshold holds. */
  lemma TiZeroLimit(tries: nat)
    ensures TiColourOf(tries, 0) == DarkGray
  {
    TiDarkGray(tries, 0);
  }

  /** The TI branch as the program writes it: a default brush overwritten by
      every threshold that holds, in order. */
  method TiColour(tries: uint32, limit: uint32) returns (result: NamedColour)
    ensures result == TiColourOf(tries, limit)
  {
    result := DarkGray;
    if 8 * limit > 10 * tries { result := Gray; }
    if 6 * limit > 10 * tries { result := LightGray; }
    if 4 * limit > 10 * tries { result := LightBlue; }
    if 2 * limit > 10 * tries { result := Blue; }
    if 1 * limit > 10 * tries { result := Navy; }
    if 6 * limit > 100 * tries { result := Orange; }
    if 4 * limit > 100 * tries { result := Brown; }
    if 2 * limit > 100 * tries { result := Red; }
    BandIsLastSatisfied(tries, limit);
    var k := Band(tries, limit);
    assert k < THRESHOLD_COUNT ==> !Below(tries, limit, k);
    assert k > 0 ==> Below(tries, limit, k - 1);
  }

  // ---------------------------------------------------------------------
  // The single-expression schemes
  // ---------------------------------------------------------------------

  /** Black & White: Black at the limit, otherwise White for even counts and
      Black for odd ones. */
  function BlackWhiteOf(tries: uint32, limit: uint32): NamedColour {
    if tries == limit then Black
    else if tries % 2 == 0 then White
    else Black
  }

  /** Christmas: red is 8 times the remainder of t by 32, green 28 times
      its remainder by 10, blue 0, where t is the count cast to int. */
  function ChristmasOf(tries: uint32): Colour {
    var t := ToInt32(tries);
    Argb(Rem(t, 32) * 8, Rem(t, 10) * 28, 0)
  }

  /** Aquamarine: red 0, green 15 times the remainder of t by 18, blue 8
      times its remainder by 32, where t is the count cast to int. */
  function AquamarineOf(tries: uint32): Colour {
    var t := ToInt32(tries);
    Argb(0, Rem(t, 18) * 15, Rem(t, 32) * 8)
  }

  /** The "Random" scheme divides by every seed. */
  predicate SeedsNonZero(seeds: Seeds) {
    seeds.r >= 1 && seeds.g >= 1 && seeds.b >= 1
  }

  /** One channel of the Random scheme: the remainder of the count (cast to
      int) by the seed s, times the integer quotient 256 / s. Both operands of
      that division are positive, so C#'s division agrees with Dafny's. */
  function RandomChannel(tries: uint32, s: int): int
    requires s >= 1
  {
    Rem(ToInt32(tries), s) * (256 / s)
  }

  function RandomOf(tries: uint32, seeds: Seeds): Colour
    requires SeedsNonZero(seeds)
  {
    Argb(RandomChannel(tries, seeds.r), RandomChannel(tries, seeds.g), RandomChannel(tries, seeds.b))
  }

  /** `getColour`: the brush for an escape count under the selected scheme;
      any other index falls through to Black. */
  function ColourFor(scheme: int, tries: uint32, limit: uint32, seeds: Seeds): Colour
    requires scheme == RANDOM ==> SeedsNonZero(seeds)
  {
    if scheme == TI then Named(TiColourOf(tries, limit))
    else if scheme == BLACK_AND_WHITE then Named(BlackWhiteOf(tries, limit))
    else if scheme == CHRISTMAS then ChristmasOf(tries)
    else if scheme == AQUAMARINE then AquamarineOf(tries)
    else if scheme == RANDOM then RandomOf(tries, seeds)
    else Named(Black)
  }

  // ---------------------------------------------------------------------
  // Properties of the schemes
  // ---------------------------------------------------------------------

  /** Black & White: White exactly for even counts short of the limit. */
  lemma BlackWhiteParity(tries: uint32, limit: uint32, seeds: Seeds)
    ensures ColourFor(BLACK_AND_WHITE, tries, limit, seeds) == Named(White)
      <==> tries != limit && tries % 2 == 0
    ensures ColourFor(BLACK_AND_WHITE, tries, limit, seeds) == Named(Black)
      <==> tries == limit || tries % 2 == 1
  {
  }

  /** Any index outside the five schemes (a list with nothing selected has
      index -1) gives Black. */
  lemma UnknownSchemeIsBlack(scheme: int, tries: uint32, limit: uint32, seeds: Seeds)
    requires scheme < TI || scheme > RANDOM
    ensures ColourFor(scheme, tries, limit, seeds) == Named(Black)
  {
  }

  /** While the cast of the count does not wrap, Christmas is
      (8 * (tries mod 32), 28 * (tries mod 10), 0), whose channels are at
      most 248 and 252. */
  lemma ChristmasChannels(tries: uint32)
    requires tries < 0x8000_0000
    ensures ChristmasOf(tries) == Argb((tries % 32) * 8, (tries % 10) * 28, 0)
    ensures 0 <= ChristmasOf(tries).red <= 248 && 0 <= ChristmasOf(tries).green <= 252
  {
  }

  /** While the cast of the count does not wrap, Aquamarine is
      (0, 15 * (tries mod 18), 8 * (tries mod 32)), whose channels are at
      most 255 and 248. */
  lemma AquamarineChannels(tries: uint32)
    requires tries < 0x8000_0000
    ensures AquamarineOf(tries) == Argb(0, (tries % 18) * 15, (tries % 32) * 8)
    ensures 0 <= AquamarineOf(tries).green <= 255 && 0 <= AquamarineOf(tries).blue <= 248
  {
  }

  /** A Random channel `(t mod s) * (256 / s)` never exceeds 255: the
      remainder is at most s - 1 and s * (256 / s) is at most 256. */
  lemma RandomChannelRange(tries: uint32, s: int)
    requires s >= 1 && tries < 0x8000_0000
    ensures IsChannel(RandomChannel(tries, s))
  {
    var m, q := tries % s, 256 / s;
    assert 0 <= m <= s - 1;
    assert s * q <= 256;
    if q > 0 {
      assert m * q <= (s - 1) * q;
      assert (s - 1) * q == s * q - q;
    }
  }

  /** Every brush handed to `Color.FromArgb` has its channels in 0..255, as
      long as the cast of the count does not wrap. */
  lemma ColourForDrawable(scheme: int, tries: uint32, limit: uint32, seeds: Seeds)
    requires tries < 0x8000_0000
    requires scheme == RANDOM ==> SeedsNonZero(seeds)
    ensures Drawable(ColourFor(scheme, tries, limit, seeds))
  {
    if scheme == CHRISTMAS {
      ChristmasChannels(tries);
    } else if scheme == AQUAMARINE {
      AquamarineChannels(tries);
    } else if scheme == RANDOM {
      RandomChannelRange(tries, seeds.r);
      RandomChannelRange(tries, seeds.g);
      RandomChannelRange(tries, seeds.b);
    }
  }

  /** From 2^31 on, the count cast to int is negative and so is C#'s remainder: at
      `tries == 2^31` the Christmas green channel is -224, which
      `Color.FromArgb` rejects. */
  lemma ChristmasWrapsAt2To31()
    ensures ChristmasOf(0x8000_0000).green == -224
    ensures !Drawable(ChristmasOf(0x8000_0000))
  {
  }

  // ---------------------------------------------------------------------
  // The seeds
  // ---------------------------------------------------------------------

  /** The ranges the constructor draws the seeds from: [0, 127) for red and
      [0, 255) for green and blue (the upper bounds are exclusive). */
  predicate ConstructorSeeds(seeds: Seeds) {
    0 <= seeds.r < 127 && 0 <= seeds.g < 255 && 0 <= seeds.b < 255
  }

  /** Those ranges include 0, and then the Random scheme divides by zero. */
  lemma ConstructorSeedCanBeZero()
    ensures ConstructorSeeds(Seeds(0, 1, 1)) && !SeedsNonZero(Seeds(0, 1, 1))
  {
  }

  /** The same ranges with 0 excluded: [1, 127) and [1, 255). */
  predicate CorrectedSeeds(seeds: Seeds) {
    1 <= seeds.r < 127 && 1 <= seeds.g < 255 && 1 <= seeds.b < 255
  }

  /** Seeds from the corrected ranges make the Random scheme defined, and
      every one of its channels drawable while the cast of the count does not wrap. */
  lemma CorrectedSeedsDrawable(seeds: Seeds, tries: uint32)
    requires CorrectedSeeds(seeds) && tries < 0x8000_0000
    ensures SeedsNonZero(seeds) && ConstructorSeeds(seeds)
    ensures Drawable(RandomOf(tries, seeds))
  {
    ColourForDrawable(RANDOM, tries, 0, seeds);
  }
}
