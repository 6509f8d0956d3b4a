/** The geometry of AtlasCutter's slicing: which crop rectangles are cut from
    an image of a given size for a given tile width, tile height and row
    count.  The image is only its size; the pixels, the crop and the save are
    the image library's business and are represented by the `Tile` records. */
module Geometry {
  import opened Arith

  /** Width and height in pixels of the loaded atlas image. */
  datatype ImageSize = ImageSize(width: nat, height: nat)

  /** The three numbers the form supplies: tile width, tile height, row count. */
  datatype TileSpec = TileSpec(sizeX: int, sizeY: int, rowCount: int)

  /** One crop: the rectangle at (x, y) of size width x height, and the index
      that names its output file. */
  datatype Tile = Tile(index: nat, x: int, y: int, width: int, height: int)

  /** Slicing is only ever started with all three numbers strictly positive. */
  predicate Positive(spec: TileSpec) {
    spec.sizeX > 0 && spec.sizeY > 0 && spec.rowCount > 0
  }

  /** Number of whole tiles that fit across the image; a narrower remainder
      on the right is dropped. */
  function Columns(img: ImageSize, spec: TileSpec): (c: nat)
    requires spec.sizeX > 0
    ensures c * spec.sizeX <= img.width < (c + 1) * spec.sizeX
  {
    assert img.width == (img.width / spec.sizeX) * spec.sizeX + img.width % spec.sizeX;
    img.width / spec.sizeX
  }

  /** The loop bound `rowCount * columns`: the number of tiles requested,
      which is also the number the completion message reports. */
  function TotalTiles(img: ImageSize, spec: TileSpec): (n: nat)
    requires Positive(spec)
    ensures n == 0 <==> img.width < spec.sizeX
    ensures n > 0 ==> Columns(img, spec) > 0
  {
    var c := Columns(img, spec);
    if c == 0 then
      0
    else
      MulLe(1, c, spec.sizeX);
      MulLe(1, spec.rowCount, c);
      spec.rowCount * c
  }

  /** The crop rectangle for index `i`: column `i % columns`, row `i / columns`.
      Horizontally it is always inside the image, whatever the index, which
      is why AtlasCutter checks only the vertical edge. */
  function TileAt(img: ImageSize, spec: TileSpec, i: nat): (t: Tile)
    requires Positive(spec) && Columns(img, spec) > 0
    ensures t.index == i && t.width == spec.sizeX && t.height == spec.sizeY
    ensures 0 <= t.x && t.x + t.width <= img.width && 0 <= t.y
  {
    var c := Columns(img, spec);
    MulLe(i % c + 1, c, spec.sizeX);
    MulLe(0, i / c, spec.sizeY);
    Tile(i, (i % c) * spec.sizeX, (i / c) * spec.sizeY, spec.sizeX, spec.sizeY)
  }

  /** Tile `i` passes the vertical guard: its bottom edge is inside the image,
      that is, its row is one of the `height / sizeY` whole rows that fit. */
  predicate Fits(img: ImageSize, spec: TileSpec, i: nat)
    requires Positive(spec) && Columns(img, spec) > 0
    ensures Fits(img, spec, i) <==> i / Columns(img, spec) < img.height / spec.sizeY
  {
    var row := i / Columns(img, spec);
    MulLeIff(row + 1, img.height, spec.sizeY);
    TileAt(img, spec, i).y + spec.sizeY <= img.height
  }

  /** Closed form of how many tiles are cut: every requested row that fits
      vertically, times the number of columns. */
  function EmittedCount(img: ImageSize, spec: TileSpec): (k: nat)
    requires Positive(spec)
    ensures k <= TotalTiles(img, spec)
  {
    var c := Columns(img, spec);
    var rows := if spec.rowCount <= img.height / spec.sizeY then spec.rowCount else img.height / spec.sizeY;
    MulLe(rows, spec.rowCount, c);
    rows * c
  }

  /** The crops that are cut, in the order they are cut. */
  function Tiling(img: ImageSize, spec: TileSpec): (ts: seq<Tile>)
    requires Positive(spec)
    ensures |ts| == EmittedCount(img, spec)
    ensures forall n :: 0 <= n < |ts| ==> ts[n].index == n
  {
    var k := EmittedCount(img, spec);
    seq(k, n requires 0 <= n < k => TileAt(img, spec, n))
  }

  /** The rectangle lies entirely inside the image. */
  predicate Inside(t: Tile, img: ImageSize) {
    0 <= t.x && t.x + t.width <= img.width && 0 <= t.y && t.y + t.height <= img.height
  }

  /** The two rectangles share no pixel. */
  predicate Disjoint(s: Tile, t: Tile) {
    s.x + s.width <= t.x || t.x + t.width <= s.x || s.y + s.height <= t.y || t.y + t.height <= s.y
  }

  /** When the image is narrower than one tile there are no columns, nothing
      is requested and nothing is cut, so no division by a zero column count
      ever happens. */
  lemma NarrowImageCutsNothing(img: ImageSize, spec: TileSpec)
    requires Positive(spec) && img.width < spec.sizeX
    ensures Columns(img, spec) == 0 && TotalTiles(img, spec) == 0 && Tiling(img, spec) == []
  {
  }

  /** The vertical guard passes for index `i` of the requested range exactly
      when `i` is below the closed-form count: so the loop, which stops at
      the first failure, cuts precisely `EmittedCount` tiles, and a failing
      index is never followed by a passing one. */
  lemma FitsIffBelowCount(img: ImageSize, spec: TileSpec, i: nat)
    requires Positive(spec) && i < TotalTiles(img, spec)
    ensures Fits(img, spec, i) <==> i < EmittedCount(img, spec)
  {
    var c := Columns(img, spec);
    var q := i / c;
    var h := img.height / spec.sizeY;
    var rows := if spec.rowCount <= h then spec.rowCount else h;
    DivLtIff(i, spec.rowCount, c);
    DivLtIff(i, rows, c);
    MulLeIff(q + 1, img.height, spec.sizeY);
    assert (q + 1) * spec.sizeY == q * spec.sizeY + spec.sizeY;
  }

  /** The loop's stopping rule in closed form: all indices below the count
      pass the guard and, unless every requested tile was cut, the index at
      the count fails it. */
  lemma EmittedCountIsFirstFailure(img: ImageSize, spec: TileSpec)
    requires Positive(spec)
    ensures forall j: nat :: j < EmittedCount(img, spec) ==> Columns(img, spec) > 0 && Fits(img, spec, j)
    ensures EmittedCount(img, spec) < TotalTiles(img, spec) ==>
              Columns(img, spec) > 0 && !Fits(img, spec, EmittedCount(img, spec))
  {
    var k := EmittedCount(img, spec);
    forall j: nat | j < k ensures Columns(img, spec) > 0 && Fits(img, spec, j) {
      FitsIffBelowCount(img, spec, j);
    }
    if k < TotalTiles(img, spec) {
      FitsIffBelowCount(img, spec, k);
    }
  }

  /** Once the guard fails it fails for every later index: the vertical check
      is a hard stop, and stopping loses no tile that skipping would keep. */
  lemma GuardFailureIsFinal(img: ImageSize, spec: TileSpec, i: nat, j: nat)
    requires Positive(spec) && Columns(img, spec) > 0 && i <= j
    requires !Fits(img, spec, i)
    ensures !Fits(img, spec, j)
  {
    DivMonotone(i, j, Columns(img, spec));
    MulLe(i / Columns(img, spec), j / Columns(img, spec), spec.sizeY);
  }

  /** Every cut rectangle is sizeX by sizeY and lies inside the image. */
  lemma TileInside(img: ImageSize, spec: TileSpec, n: nat)
    requires Positive(spec) && n < EmittedCount(img, spec)
    ensures Tiling(img, spec)[n].width == spec.sizeX && Tiling(img, spec)[n].height == spec.sizeY
    ensures Inside(Tiling(img, spec)[n], img)
  {
    FitsIffBelowCount(img, spec, n);
    assert Tiling(img, spec)[n] == TileAt(img, spec, n);
  }

  /** Every rectangle of the whole cut lies inside the image. */
  lemma AllTilesInside(img: ImageSize, spec: TileSpec)
    requires Positive(spec)
    ensures forall t :: t in Tiling(img, spec) ==> Inside(t, img)
  {
    var ts := Tiling(img, spec);
    forall t | t in ts ensures Inside(t, img) {
      var n :| 0 <= n < |ts| && ts[n] == t;
      TileInside(img, spec, n);
    }
  }

  /** Tiles are laid out row-major: a smaller index is in an earlier row, or
      in the same row further left. */
  lemma RowMajor(img: ImageSize, spec: TileSpec, i: nat, j: nat)
    requires Positive(spec) && Columns(img, spec) > 0 && i < j
    ensures TileAt(img, spec, i).y < TileAt(img, spec, j).y
         || (TileAt(img, spec, i).y == TileAt(img, spec, j).y && TileAt(img, spec, i).x < TileAt(img, spec, j).x)
  {
    var c := Columns(img, spec);
    DivMonotone(i, j, c);
    if i / c < j / c {
      MulLt(i / c, j / c, spec.sizeY);
    } else {
      assert i == (i / c) * c + i % c;
      assert j == (j / c) * c + j % c;
      MulLt(i % c, j % c, spec.sizeX);
    }
  }

  /** Tiles with different indices never overlap. */
  lemma TilesDisjoint(img: ImageSize, spec: TileSpec, i: nat, j: nat)
    requires Positive(spec) && Columns(img, spec) > 0 && i != j
    ensures Disjoint(TileAt(img, spec, i), TileAt(img, spec, j))
  {
    var c := Columns(img, spec);
    var (a, b) := if i < j then (i, j) else (j, i);
    if a % c != b % c {
      var (l, r) := if a % c < b % c then (a % c, b % c) else (b % c, a % c);
      MulLe(l + 1, r, spec.sizeX);
      assert (l + 1) * spec.sizeX == l * spec.sizeX + spec.sizeX;
    } else {
      assert a == (a / c) * c + a % c;
      assert b == (b / c) * c + b % c;
      DivMonotone(a, b, c);
      MulLe(a / c + 1, b / c, spec.sizeY);
      assert (a / c + 1) * spec.sizeY == (a / c) * spec.sizeY + spec.sizeY;
    }
  }

  /** The completion message reports `TotalTiles`; that is never fewer than
      the tiles cut, and is exact only when the image is narrower than one
      tile or tall enough for every requested row. */
  lemma ReportedCount(img: ImageSize, spec: TileSpec)
    requires Positive(spec)
    ensures EmittedCount(img, spec) <= TotalTiles(img, spec)
    ensures EmittedCount(img, spec) == TotalTiles(img, spec) <==>
              (Columns(img, spec) == 0 || spec.rowCount * spec.sizeY <= img.height)
  {
    var c := Columns(img, spec);
    var h := img.height / spec.sizeY;
    MulLeIff(spec.rowCount, img.height, spec.sizeY);
    if c > 0 && h < spec.rowCount {
      MulLt(h, spec.rowCount, c);
    }
  }

  /** When every earlier tile passed the guard, tile `i` starts no lower than
      the image's bottom edge, so the slicing loop's `y + sizeY` is at most `height + sizeY`. */
  lemma RowStartsInsideImage(img: ImageSize, spec: TileSpec, i: nat)
    requires Positive(spec) && Columns(img, spec) > 0
    requires forall j :: 0 <= j < i ==> Fits(img, spec, j)
    ensures 0 <= TileAt(img, spec, i).x <= img.width && 0 <= TileAt(img, spec, i).y <= img.height
  {
    var c := Columns(img, spec);
    var row := i / c;
    assert i == row * c + i % c;
    MulLe(0, row, spec.sizeY);
    MulLe(i % c, c, spec.sizeX);
    if row > 0 {
      var j := i - c;
      DivModUnique(j, c, row - 1, i % c);
      assert Fits(img, spec, j);
      assert (row - 1) * spec.sizeY + spec.sizeY == row * spec.sizeY;
    }
  }

  /** The loop's exit state: every index before `i` passed the guard and `i`
      is the loop bound or the first failure; that `i` is the closed-form count. */
  lemma StopsAtFirstFailure(img: ImageSize, spec: TileSpec, i: nat)
    requires Positive(spec) && i <= TotalTiles(img, spec)
    requires forall j :: 0 <= j < i ==> Columns(img, spec) > 0 && Fits(img, spec, j)
    requires i < TotalTiles(img, spec) ==> !Fits(img, spec, i)
    ensures i == EmittedCount(img, spec)
  {
    EmittedCountIsFirstFailure(img, spec);
  }

  /** A 64 x 50 image cut into 16 x 16 tiles, 4 rows requested: 4 columns,
      16 tiles requested, but the fourth row would end at 64 > 50, so the
      cut stops after 12 tiles, the last at (48, 32). */
  lemma ShortImageExample()
    ensures var img, spec := ImageSize(64, 50), TileSpec(16, 16, 4);
            TotalTiles(img, spec) == 16 && |Tiling(img, spec)| == 12
            && Tiling(img, spec)[11] == Tile(11, 48, 32, 16, 16)
  {
  }
}
