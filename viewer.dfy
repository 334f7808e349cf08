/** The paint handler and the click handler of the viewer: every pixel of
    the canvas is mapped to a point of the plane, its escape count is
    computed and the palette's brush fills it; a click on the canvas
    centres the view on the clicked pixel and halves the scale. */
module Viewer {
  import opened Numerics
  import opened Palette
  import opened Escape

  /** What the user controls: the point shown in the middle of the canvas,
      the width of one pixel in the plane, and the iteration limit. */
  datatype View = View(middleX: real, middleY: real, scale: real, limit: uint32)

  /** The real part of the point drawn in column `col`. The canvas width
      sets the size of the view along both axes. */
  function NormX(v: View, width: nat, col: int): real {
    var scaledSize := v.scale * width as real;
    v.scale * col as real + (v.middleX - scaledSize / 2.0)
  }

  /** The imaginary part of the point of row `row`, rows counted upwards. */
  function NormY(v: View, width: nat, row: int): real {
    var scaledSize := v.scale * width as real;
    v.scale * row as real + (v.middleY - scaledSize / 2.0)
  }

  /** Neighbouring columns and rows lie one `scale` apart, and the middle
      column and row of the view map to its middle point. */
  lemma MappingIsAffine(v: View, width: nat, col: int, row: int)
    ensures NormX(v, width, col + 1) - NormX(v, width, col) == v.scale
    ensures NormY(v, width, row + 1) - NormY(v, width, row) == v.scale
    ensures 2 * col == width ==> NormX(v, width, col) == v.middleX
    ensures 2 * row == width ==> NormY(v, width, row) == v.middleY
  {
  }

  /** The screen line on which row `row` is drawn: rows count upwards from
      the bottom edge, so row 0 lands on line `height`. */
  function PlotY(height: nat, row: nat): (y: nat)
    requires row < height
    ensures 1 <= y <= height
  {
    height - row
  }

  /** The brush of the pixel in column `col` and row `row`. */
  function PixelColour(v: View, width: nat, scheme: int, seeds: Seeds, col: int, row: int): Colour
    requires scheme == RANDOM ==> SeedsNonZero(seeds)
  {
    var tries := EscapeTime(Point(NormX(v, width, col), NormY(v, width, row)), v.limit);
    ColourFor(scheme, tries, v.limit, seeds)
  }

  // ---------------------------------------------------------------------
  // The order in which the paint handler visits the pixels
  // ---------------------------------------------------------------------

  datatype Cell = Cell(col: nat, row: nat)

  /** The paint handler's order: rows from the bottom, each row from the
      left. It is strict, so a trace ordered by it repeats no pixel. */
  predicate Precedes(x: Cell, y: Cell) {
    x.row < y.row || (x.row == y.row && x.col < y.col)
  }

  /** The paint handler: for every row from the bottom and every column from
      the left, count the tries of the pixel's point and fill the pixel at
      line `height - row` with the palette's brush. `grid[x, y]` is the
      drawing surface; line 0 is never painted. `visited` is the trace of the
      pixels in the order they are painted: every pixel of the canvas, each
      exactly once, and each holding its brush once the handler is done. */
  method Paint(v: View, width: nat, height: nat, scheme: int, seeds: Seeds, grid: array2<Colour>)
    returns (ghost visited: seq<Cell>)
    requires scheme == RANDOM ==> SeedsNonZero(seeds)
    requires grid.Length0 == width && grid.Length1 == height + 1
    modifies grid
    ensures forall x :: x in visited <==> x.col < width && x.row < height
    ensures forall i, j :: 0 <= i < j < |visited| ==> Precedes(visited[i], visited[j])
    ensures forall col, row :: 0 <= col < width && 0 <= row < height ==>
      grid[col, height - row] == PixelColour(v, width, scheme, seeds, col, row)
    ensures forall col :: 0 <= col < width ==> grid[col, 0] == old(grid[col, 0])
    ensures forall i :: 0 <= i < |visited| ==>
      (visited[i].col < width && visited[i].row < height &&
       grid[visited[i].col, height - visited[i].row] ==
         PixelColour(v, width, scheme, seeds, visited[i].col, visited[i].row))
  {
    visited := [];
    var row := 0;
    while row < height
      invariant row <= height
      invariant forall x :: x in visited <==> x.col < width && x.row < row
      invariant forall i, j :: 0 <= i < j < |visited| ==> Precedes(visited[i], visited[j])
      invariant forall c, r :: 0 <= c < width && 0 <= r < row ==>
        grid[c, height - r] == PixelColour(v, width, scheme, seeds, c, r)
      invariant forall c, y :: 0 <= c < width && 0 <= y <= height - row ==>
        grid[c, y] == old(grid[c, y])
    {
      var col := 0;
      while col < width
        invariant col <= width
        invariant forall x :: x in visited <==> (x.col < width && x.row < row) || (x.row == row && x.col < col)
        invariant forall i, j :: 0 <= i < j < |visited| ==> Precedes(visited[i], visited[j])
        invariant forall c, r :: 0 <= c < width && 0 <= r < row ==>
          grid[c, height - r] == PixelColour(v, width, scheme, seeds, c, r)
        invariant forall c :: 0 <= c < col ==>
          grid[c, height - row] == PixelColour(v, width, scheme, seeds, c, row)
        invariant forall c, y :: 0 <= c < width && 0 <= y < height - row ==>
          grid[c, y] == old(grid[c, y])
      {
        var tries := CountTries(Point(NormX(v, width, col), NormY(v, width, row)), v.limit);
        grid[col, PlotY(height, row)] := ColourFor(scheme, tries, v.limit, seeds);
        assert forall i :: 0 <= i < |visited| ==> Precedes(visited[i], Cell(col, row)) by {
          forall i | 0 <= i < |visited| ensures Precedes(visited[i], Cell(col, row)) {
            assert visited[i] in visited;
          }
        }
        visited := visited + [Cell(col, row)];
        col := col + 1;
      }
      row := row + 1;
    }
    forall i | 0 <= i < |visited|
      ensures visited[i].col < width && visited[i].row < height
    {
      assert visited[i] in visited;
    }
  }

  /** An iteration limit of 2^31 already yields a brush that `Color.FromArgb`
      rejects: on a 2-pixel-wide canvas at scale 1 around 0, pixel (1, 1) is
      the origin, which reaches the limit, and Christmas at a count of 2^31
      has a negative channel. */
  lemma LimitOf2To31CanBeUndrawable()
    ensures !Drawable(PixelColour(View(0.0, 0.0, 1.0, 0x8000_0000), 2, CHRISTMAS, Seeds(0, 0, 0), 1, 1))
  {
    var v := View(0.0, 0.0, 1.0, 0x8000_0000);
    assert Point(NormX(v, 2, 1), NormY(v, 2, 1)) == ORIGIN;
    OriginNeverEscapes(0x8000_0000);
    ChristmasWrapsAt2To31();
  }

  // ---------------------------------------------------------------------
  // The click handler
  // ---------------------------------------------------------------------

  /** A click at screen position (x, y): inside the canvas it moves the
      middle of the view to the clicked point and halves the scale; a click
      to the right of the canvas changes nothing. */
  function Recenter(v: View, width: nat, height: nat, x: int, y: int): View
    requires width > 0
  {
    if x < width then
      var scaledSize := v.scale * width as real;
      View(v.middleX - 0.5 * scaledSize + x as real / width as real * scaledSize,
           v.middleY - 0.5 * scaledSize + (height - y) as real / width as real * scaledSize,
           v.scale * 0.5, v.limit)
    else v
  }

  /** A click inside the canvas centres the view on the very point that the
      paint handler drew at that screen position (column x, line y, which is
      row `height - y`), at half the scale. */
  lemma RecenterOnClickedPoint(v: View, width: nat, height: nat, x: int, y: int)
    requires width > 0 && x < width
    ensures Recenter(v, width, height, x, y).middleX == NormX(v, width, x)
    ensures Recenter(v, width, height, x, y).middleY == NormY(v, width, height - y)
    ensures Recenter(v, width, height, x, y).scale == v.scale / 2.0
    ensures Recenter(v, width, height, x, y).limit == v.limit
  {
    var w, left, up := width as real, x as real, (height - y) as real;
    var scaledSize := v.scale * w;
    var r := Recenter(v, width, height, x, y);
    CancelWidth(left, w, v.scale);
    CancelWidth(up, w, v.scale);
    assert r.middleX == v.middleX - 0.5 * scaledSize + left / w * scaledSize;
    assert r.middleY == v.middleY - 0.5 * scaledSize + up / w * scaledSize;
    assert NormX(v, width, x) == v.scale * left + (v.middleX - scaledSize / 2.0);
    assert NormY(v, width, height - y) == v.scale * up + (v.middleY - scaledSize / 2.0);
  }

  /** The fraction a / w of a view w pixels wide spans a pixels. */
  lemma CancelWidth(a: real, w: real, scale: real)
    requires w > 0.0
    ensures a / w * (scale * w) == scale * a
  {
  }

  /** Clicking the pixel drawn at the middle of the view keeps the middle
      where it is and only halves the scale. */
  lemma RecenterAtMiddle(v: View, width: nat, height: nat, x: int, y: int)
    requires width > 0 && 2 * x == width && 2 * (height - y) == width
    ensures Recenter(v, width, height, x, y) == v.(scale := v.scale / 2.0)
  {
    RecenterOnClickedPoint(v, width, height, x, y);
    MappingIsAffine(v, width, x, height - y);
  }

  /** Clicks to the right of the canvas leave the view alone. */
  lemma RecenterOutside(v: View, width: nat, height: nat, x: int, y: int)
    requires width > 0 && x >= width
    ensures Recenter(v, width, height, x, y) == v
  {
  }
}
