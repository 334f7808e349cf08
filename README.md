# Mandelbrot viewer: palette, escape-time loop and paint loop

This project models the computational core of a small WinForms Mandelbrot
viewer (`Program.cs`, class `Mandelbrot`) and proves properties of that model.

- `numerics.dfy` (module `Numerics`): the C# integer behaviour the palette
  depends on. `uint` becomes the subset type `uint32`. The unchecked cast of a
  `uint` to `int` wraps at 2^31 (`ToInt32`). C#'s `%` truncates toward zero,
  so its result takes the sign of the dividend (`Rem`).
- `palette.dfy` (module `Palette`): `getColour`. The escape count, the
  iteration limit, the index of the selected scheme and the three seeds of
  the Random scheme are parameters. A brush is a predefined colour
  (`NamedColour`) or an RGB triple (`Argb`).
  - TI (index 0) is a default brush overwritten by each of eight tests
    `f * limit > tries`, for f = 0.8, 0.6, 0.4, 0.2, 0.1, 0.06, 0.04, 0.02.
    Each test is taken exactly, as in `8 * limit > 10 * tries`.
  - `TiColour` is that sequence of overwrites. It is proved equal to a
    reference definition, `TiColourOf`: the ladder entry at the position
    given by the number of thresholds that hold.
  - Black & White, Christmas, Aquamarine and Random are functions.
  - `ColourFor` dispatches on the scheme index. Any other index (for example
    -1, when nothing is selected) gives Black.
- `escape.dfy` (module `Escape`): the escape-time loop of the paint handler.
  - Doubles become exact reals.
  - The test `Math.Sqrt(a*a + b*b) < 2` becomes `a*a + b*b < 4.0`. Over the
    reals the two agree, because the argument is never negative.
  - `CountTries` is the loop itself, over `a`, `b`, `oldA` and `tries`. It is
    proved equal to `EscapeTime`: the first step whose orbit point lies
    outside radius 2, or the limit if there is none.
- `viewer.dfy` (module `Viewer`): the paint handler and the click handler.
  - `Paint` runs the nested row/column loop and writes into a 2-D array that
    stands for `FillRectangle`. Row `row` is drawn on line `height - row`, so
    lines 1..height are painted and line 0 is not.
  - `Recenter` is the click handler's new view.
  - The canvas size is a parameter. It is a constant 600×600 in the program.

The program neither clamps the channels it gives to `Color.FromArgb` nor
guards a zero Random seed. The model keeps the unclamped formulas, states the
range of each channel as a lemma, and requires non-zero seeds where the program
divides by them. The program accepts any `uint` iteration limit, including 0;
so does the model.

While the count is below 2^31, every channel given to `Color.FromArgb` lies in
0..255 (`ColourForDrawable`). From 2^31 on, the cast wraps to a negative
number and the channel can go negative (`ChristmasWrapsAt2To31`). An
iteration limit of at least 2^31 can produce such a count: the origin reaches
every limit (`OriginNeverEscapes`), so a limit of exactly 2^31 already gives an
undrawable Christmas brush (`LimitOf2To31CanBeUndrawable`).

## Model

| member | source | states |
|---|---|---|
| `Numerics.ToInt32` | Program.cs:168 | the cast of a `uint` to `int` lies in [-2^31, 2^31), is congruent to the input modulo 2^32, is the identity below 2^31 and negative from 2^31 on |
| `Numerics.Rem` | Program.cs:168-172 | C#'s remainder by a positive divisor: congruent to the dividend modulo n, in [0, n) for a non-negative dividend and in (-n, 0] for a negative one, which fixes it uniquely |
| `Numerics.RemOfNatural` | Program.cs:168-172 | for a non-negative dividend C#'s remainder equals Dafny's Euclidean `%` |
| `Palette.TiColourOf` | Program.cs:140-159 | no contract of its own: the reference TI brush, ladder entry at the band; `TiColour` is proved equal to it and `TiColourOfBand`, `TiDarkGray`, `TiRed`, `TiZeroLimit` state its meaning |
| `Palette.Below` | Program.cs:143-157 | no contract of its own: the TI test `f * limit > tries`, taken exactly as `num * limit > den * tries`; `BelowEarlier` and `BandIsLastSatisfied` carry its meaning |
| `Palette.CountBelow` | Program.cs:143-158 | the number of the first n TI thresholds that hold is at most n |
| `Palette.Band` | Program.cs:143-158 | the TI band lies in 0..8 |
| `Palette.BelowEarlier` | Program.cs:143-158 | the fractions decrease: if `tries` lies below one threshold, it lies below every earlier one |
| `Palette.CountBelowIsPrefix` | Program.cs:143-158 | among the first n thresholds, the ones that hold are exactly those before their count |
| `Palette.BandIsLastSatisfied` | Program.cs:140-159 | threshold i holds iff i is below the band, so the last threshold that holds decides the brush |
| `Palette.TiColourOfBand` | Program.cs:140-159 | the TI brush is ladder entry k iff threshold k-1 holds (or k = 0) and threshold k does not (or k = 8) |
| `Palette.TiDarkGray` | Program.cs:141-143 | the TI brush is DarkGray iff `tries >= 0.8 * limit` |
| `Palette.TiRed` | Program.cs:157-158 | the TI brush is Red iff `0.02 * limit > tries` |
| `Palette.TiZeroLimit` | Program.cs:140-159 | with limit 0 the TI brush is DarkGray |
| `Palette.TiColour` | Program.cs:140-159 | the sequence of overwriting tests yields the ladder entry of the band |
| `Palette.BlackWhiteOf` | Program.cs:160-166 | no contract of its own: Black & White; `BlackWhiteParity` states both directions of its choice |
| `Palette.ChristmasOf` | Program.cs:167-168 | no contract of its own: Christmas with the wrapping cast and C#'s `%`; `ChristmasChannels` and `ChristmasWrapsAt2To31` state its values |
| `Palette.AquamarineOf` | Program.cs:169-170 | no contract of its own: Aquamarine with the wrapping cast and C#'s `%`; `AquamarineChannels` states its values |
| `Palette.RandomChannel` | Program.cs:171-172 | no contract of its own: one Random channel, defined only for a seed of at least 1; `RandomChannelRange` states its range |
| `Palette.RandomOf` | Program.cs:171-172 | no contract of its own: the Random scheme, requiring all three seeds non-zero; `CorrectedSeedsDrawable` and `ColourForDrawable` state its range |
| `Palette.ColourFor` | Program.cs:139-175 | no contract of its own: `getColour`, the dispatch on the scheme index (requiring non-zero seeds only for scheme 4); `BlackWhiteParity`, `UnknownSchemeIsBlack` and `ColourForDrawable` state its properties |
| `Palette.BlackWhiteParity` | Program.cs:160-166 | for any seeds, Black & White gives White iff `tries != limit` and `tries` is even, and Black iff `tries == limit` or `tries` is odd |
| `Palette.UnknownSchemeIsBlack` | Program.cs:140-174 | a scheme index outside 0..4 gives Black |
| `Palette.ChristmasChannels` | Program.cs:167-168 | below 2^31, Christmas is (8·(tries mod 32), 28·(tries mod 10), 0), red ≤ 248, green ≤ 252 |
| `Palette.AquamarineChannels` | Program.cs:169-170 | below 2^31, Aquamarine is (0, 15·(tries mod 18), 8·(tries mod 32)), green ≤ 255, blue ≤ 248 |
| `Palette.RandomChannelRange` | Program.cs:171-172 | for a seed s ≥ 1, the channel `(tries mod s) · (256 / s)` lies in 0..255 |
| `Palette.ColourForDrawable` | Program.cs:139-175 | below 2^31, with non-zero seeds for scheme 4, every colour of every scheme has its channels in 0..255 |
| `Palette.ChristmasWrapsAt2To31` | Program.cs:168 | at `tries == 2^31` the cast wraps and the Christmas green channel is -224, outside 0..255 |
| `Palette.ConstructorSeeds` | Program.cs:41-43 | no contract of its own: the constructor's seed ranges [0, 127), [0, 255), [0, 255); `ConstructorSeedCanBeZero` and `CorrectedSeedsDrawable` carry its meaning |
| `Palette.ConstructorSeedCanBeZero` | Program.cs:41-43 | the constructor's seed ranges admit a zero seed, which the Random scheme divides by |
| `Palette.CorrectedSeeds` | Program.cs:41-43 | no contract of its own: the same ranges with 0 excluded; `CorrectedSeedsDrawable` carries its meaning |
| `Palette.CorrectedSeedsDrawable` | Program.cs:41-43 | seeds drawn from ranges excluding 0 lie within the original ranges, are non-zero, and give Random channels in 0..255 |
| `Escape.Escaped` | Program.cs:217 | no contract of its own: a point has escaped when its squared modulus is at least 4; `EscapeTest` ties it to the loop's test |
| `Escape.Step` | Program.cs:218-220 | no contract of its own: one step z·z + c; `OrbitNext` ties it to the loop body |
| `Escape.Orbit` | Program.cs:214-220 | no contract of its own: the n-th point from 0; `OrbitNext` and `OriginOrbitFixed` state its properties |
| `Escape.EscapeTest` | Program.cs:217 | the loop's test `a*a + b*b < 4` fails exactly when the point (a, b) has escaped |
| `Escape.EscapeFrom` | Program.cs:216-222 | counting from step n, the result lies in n..limit, no step from n up to it has escaped, and if it is below the limit its point has escaped |
| `Escape.EscapeTime` | Program.cs:214-222 | the escape count is at most the limit, no earlier orbit point has escaped, and a count below the limit means its point has escaped |
| `Escape.CountTries` | Program.cs:214-222 | the loop over `a`, `b`, `oldA` and `tries` terminates with exactly the escape count |
| `Escape.OrbitNext` | Program.cs:218-220 | the loop body's update of `a` and `b` is one step z·z + c of the orbit |
| `Escape.EscapeTimeUnique` | Program.cs:216-222 | any count at most the limit, with no earlier escape and an escape unless it is the limit, is the escape count |
| `Escape.EscapeTimeZeroLimit` | Program.cs:216-217 | with limit 0 the count is 0 |
| `Escape.OriginOrbitFixed` | Program.cs:214-220 | the orbit of the origin stays at the origin |
| `Escape.OriginNeverEscapes` | Program.cs:214-222 | the count of the origin is always the limit |
| `Escape.EscapeAfterOneStep` | Program.cs:214-222 | the point 2 + 2i has count 1 for every limit ≥ 1 |
| `Viewer.NormX` | Program.cs:211-212 | no contract of its own: the real part of the point of column `col`; `MappingIsAffine` and `RecenterOnClickedPoint` state its properties |
| `Viewer.NormY` | Program.cs:211-213 | no contract of its own: the imaginary part of the point of row `row`; `MappingIsAffine` and `RecenterOnClickedPoint` state its properties |
| `Viewer.PixelColour` | Program.cs:211-224 | no contract of its own: the palette brush of the escape count of a pixel's point; `Paint` is proved to fill each pixel with it |
| `Viewer.MappingIsAffine` | Program.cs:211-213 | neighbouring columns and rows lie one scale apart, and the middle column and row map to the middle of the view |
| `Viewer.PlotY` | Program.cs:224 | a row of the canvas is drawn on a line in 1..height |
| `Viewer.Precedes` | Program.cs:209-210 | no contract of its own: the loops' visit order, rows from the bottom and each row from the left; `Paint` proves its trace strictly ordered by it |
| `Viewer.Paint` | Program.cs:209-224 | pixel (col, row) is filled on line `height - row` with the palette colour of its escape count, line 0 is untouched, and the pixels are visited bottom row first, each row left to right, every canvas pixel exactly once, and each visited pixel holds its palette colour |
| `Viewer.LimitOf2To31CanBeUndrawable` | Program.cs:216-224 | with limit 2^31, the pixel that maps to the origin (column 1, row 1 of a 2-pixel-wide canvas at scale 1 around 0) gets a Christmas brush with a channel outside 0..255 |
| `Viewer.Recenter` | Program.cs:194-198 | no contract of its own: `onClick`'s new view; `RecenterOnClickedPoint`, `RecenterAtMiddle` and `RecenterOutside` state its properties |
| `Viewer.RecenterOnClickedPoint` | Program.cs:194-198 | a click inside the canvas moves the middle of the view to the point painted at that position and halves the scale |
| `Viewer.CancelWidth` | Program.cs:196-197 | the fraction x / width of a view `scale · width` wide is `scale · x` |
| `Viewer.RecenterAtMiddle` | Program.cs:194-198 | clicking the middle pixel keeps the middle and only halves the scale |
| `Viewer.RecenterOutside` | Program.cs:195 | a click to the right of the canvas leaves the view unchanged |

## Findings

| source | as written | input that shows it | evidently intended | confidence | as-written member | corrected member |
|---|---|---|---|---|---|---|
| Program.cs:41-43 | the Random seeds are drawn from [0, 127) and [0, 255), and line 172 divides 256 by each seed | a seed of 0, which those ranges allow, with scheme 4 selected: the paint handler then divides by zero | seeds drawn from ranges that start at 1 | high for the zero-seed case; not executed | `Palette.ConstructorSeedCanBeZero` | `Palette.CorrectedSeedsDrawable` |

## Left out

- Form construction, the text boxes, labels, list boxes, the OK button and `updateUI`: GUI plumbing with no logic to prove.
- The OK button's handler parses text with `double.Parse` and `uint.Parse` and reports failures in a message box. This is framework I/O. The model takes the parsed values as parameters.
- The example-preset handler only assigns literal constants to the view.
- `System.Random`: the seeds are parameters. The divide-by-zero case is the Findings row above.
- Brushes, `Graphics.FillRectangle`, `Invalidate` and the paint event itself: drawing-library calls. A filled pixel is one entry of a 2-D array of colours.
- Floating point: exact reals replace doubles. The model does not capture rounding, the inexactness of the literals 0.8 … 0.02 in the TI tests, overflow to infinity or NaN, or `Math.Sqrt`.
- Palette.ColourForDrawable: stated only for counts below 2^31. From 2^31 on the cast wraps, and `ChristmasWrapsAt2To31` shows a channel out of range.
