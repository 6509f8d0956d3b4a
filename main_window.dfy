/** The two handlers of AtlasCutter's main window that carry logic: the
    Generate button's handler, which picks the three numbers from the form,
    and `ProcessAtlas`, which cuts the atlas into tiles.  The file system and
    the image library are parameters: whether the input file and the output
    folder exist, and the size of the image once loaded.  Each saved tile is
    recorded as a `Tile` in the run's output sequence. */
module MainWindow {
  import opened Wrappers
  import opened Geometry
  import opened TileNames
  import Arith

  /** Largest value of a C# `int`. */
  const MAX_INT32: int := 0x7FFF_FFFF

  /** The range of a C# `int`. */
  predicate InInt32(v: int) {
    -0x8000_0000 <= v <= MAX_INT32
  }

  /** A C# `int`, the type `int.TryParse` produces. */
  type Int32 = x: int | InInt32(x)

  const DEFAULT_TILE_SIZE_X: int := 16
  const DEFAULT_TILE_SIZE_Y: int := 16
  const DEFAULT_ROW_COUNT: int := 100
  const INVALID_INPUTS_MESSAGE: string := "Invalid inputs! Please enter positive numbers."

  /** What the Generate button decides: slice with these numbers, or show
      the error dialog with this message. */
  datatype Selection = Slice(spec: TileSpec) | ShowError(message: string)

  /** The value a text box contributes.  `None` stands for both a missing
      control and text that `int.TryParse` rejects; either way the default
      is used. */
  function FieldValue(field: Option<Int32>, default: int): int {
    match field
    case Some(v) => v
    case None => default
  }

  /** The Generate button's choice of numbers and of what to do with them. */
  function SelectParameters(sizeXField: Option<Int32>, sizeYField: Option<Int32>, rowCountField: Option<Int32>): (sel: Selection)
    ensures sel.Slice? ==> Positive(sel.spec)
    ensures sel.Slice? ==>
              (if sizeXField.Some? then sel.spec.sizeX == sizeXField.value else sel.spec.sizeX == DEFAULT_TILE_SIZE_X)
              && (if sizeYField.Some? then sel.spec.sizeY == sizeYField.value else sel.spec.sizeY == DEFAULT_TILE_SIZE_Y)
              && (if rowCountField.Some? then sel.spec.rowCount == rowCountField.value else sel.spec.rowCount == DEFAULT_ROW_COUNT)
    ensures sel.ShowError? <==>
              (sizeXField.Some? && sizeXField.value <= 0)
              || (sizeYField.Some? && sizeYField.value <= 0)
              || (rowCountField.Some? && rowCountField.value <= 0)
    ensures sel.ShowError? ==> sel.message == INVALID_INPUTS_MESSAGE
  {
    var sizeX := FieldValue(sizeXField, DEFAULT_TILE_SIZE_X);
    var sizeY := FieldValue(sizeYField, DEFAULT_TILE_SIZE_Y);
    var rowCount := FieldValue(rowCountField, DEFAULT_ROW_COUNT);
    if sizeX > 0 && sizeY > 0 && rowCount > 0 then
      Slice(TileSpec(sizeX, sizeY, rowCount))
    else
      ShowError(INVALID_INPUTS_MESSAGE)
  }

  /** The arithmetic of the slicing loop stays within C#'s `int`: the image
      size is an `int`, the loop bound `rowCount * columns` fits, and so does
      the guard's `y + sizeY` on every row the loop reaches.  The last row
      reached is `rowCount - 1` when all requested rows fit, and otherwise
      row `height / sizeY`, the first that does not. */
  predicate NoOverflow(img: ImageSize, spec: TileSpec)
    requires Positive(spec)
  {
    && img.width <= MAX_INT32
    && img.height <= MAX_INT32
    && TotalTiles(img, spec) <= MAX_INT32
    && (|| Columns(img, spec) == 0
        || spec.rowCount <= img.height / spec.sizeY
        || (img.height / spec.sizeY + 1) * spec.sizeY <= MAX_INT32)
  }

  /** Under `NoOverflow`, the guard's `y + sizeY` fits in a C# `int` for every
      index the loop reaches. */
  lemma GuardSumFits(img: ImageSize, spec: TileSpec, i: nat)
    requires Positive(spec) && NoOverflow(img, spec) && i < TotalTiles(img, spec)
    requires forall j :: 0 <= j < i ==> Fits(img, spec, j)
    ensures TileAt(img, spec, i).y + spec.sizeY <= MAX_INT32
  {
    var c := Columns(img, spec);
    var row := i / c;
    var h := img.height / spec.sizeY;
    Arith.DivLtIff(i, spec.rowCount, c);
    RowStartsInsideImage(img, spec, i);
    Arith.MulLeIff(row, img.height, spec.sizeY);
    assert (row + 1) * spec.sizeY == row * spec.sizeY + spec.sizeY;
    if spec.rowCount <= h {
      Arith.MulLeIff(row + 1, img.height, spec.sizeY);
    } else {
      Arith.MulLe(row + 1, h + 1, spec.sizeY);
    }
  }

  /** `NoOverflow` excludes nothing the loop can run without wrapping: when an
      image of C# `int` size with a fitting loop bound fails it, the loop
      reaches the index `EmittedCount` (every earlier index passes the guard)
      and there the guard's `y + sizeY` exceeds `int.MaxValue`. */
  lemma NoOverflowIsExact(img: ImageSize, spec: TileSpec)
    requires Positive(spec) && img.width <= MAX_INT32 && img.height <= MAX_INT32
    requires TotalTiles(img, spec) <= MAX_INT32 && !NoOverflow(img, spec)
    ensures var i := EmittedCount(img, spec);
            && i < TotalTiles(img, spec)
            && (forall j :: 0 <= j < i ==> Fits(img, spec, j))
            && TileAt(img, spec, i).y + spec.sizeY > MAX_INT32
  {
    var c := Columns(img, spec);
    var h := img.height / spec.sizeY;
    var i := EmittedCount(img, spec);
    assert i == h * c;
    Arith.MulLt(h, spec.rowCount, c);
    EmittedCountIsFirstFailure(img, spec);
    Arith.DivModUnique(i, c, h, 0);
    assert (h + 1) * spec.sizeY == h * spec.sizeY + spec.sizeY;
  }

  /** What one call of `ProcessAtlas` does: stop at once when the input file
      is missing, or create the output folder if needed, cut the tiles and
      report `reportedCount` tiles saved. */
  datatype Run =
    | InputMissing
    | Completed(createdOutputDir: bool, tiles: seq<Tile>, reportedCount: int)

  /** Cuts the atlas: a loop over `i` from 0 to `rowCount * columns` that
      stops for good at the first tile reaching below the image, and saves
      every tile before it. */
  method ProcessAtlas(inputExists: bool, outputDirExists: bool, img: ImageSize, spec: TileSpec) returns (run: Run)
    requires Positive(spec) && NoOverflow(img, spec)
    ensures run.InputMissing? <==> !inputExists
    ensures run.Completed? ==> run.createdOutputDir == !outputDirExists
    ensures run.Completed? ==> run.tiles == Tiling(img, spec)
    ensures run.Completed? ==> forall a, b :: 0 <= a < b < |run.tiles| ==>
              FileName(run.tiles[a].index) != FileName(run.tiles[b].index)
    ensures run.Completed? ==> run.reportedCount == TotalTiles(img, spec)
  {
    if !inputExists {
      return InputMissing;
    }
    var createdOutputDir := !outputDirExists;

    var columns := img.width / spec.sizeX;
    var totalTiles := spec.rowCount * columns;
    assert columns == Columns(img, spec) && totalTiles == TotalTiles(img, spec);
    assert InInt32(columns) && InInt32(totalTiles);
    var tiles: seq<Tile> := [];
    var i := 0;
    while i < totalTiles
      invariant 0 <= i <= totalTiles
      invariant |tiles| == i
      invariant forall j :: 0 <= j < i ==> Fits(img, spec, j) && tiles[j] == TileAt(img, spec, j)
    {
      var x := (i % columns) * spec.sizeX;
      var y := (i / columns) * spec.sizeY;
      assert TileAt(img, spec, i) == Tile(i, x, y, spec.sizeX, spec.sizeY);
      RowStartsInsideImage(img, spec, i);
      GuardSumFits(img, spec, i);
      assert InInt32(x) && InInt32(y) && InInt32(y + spec.sizeY) && InInt32(i + 1);
      if y + spec.sizeY > img.height {
        break;
      }
      tiles := tiles + [Tile(i, x, y, spec.sizeX, spec.sizeY)];
      i := i + 1;
    }
    StopsAtFirstFailure(img, spec, i);
    return Completed(createdOutputDir, tiles, totalTiles);
  }

  /** The Generate button: either the error dialog, or one run of
      `ProcessAtlas` with the selected numbers. */
  datatype Response = Rejected(message: string) | Ran(spec: TileSpec, run: Run)

  method OnGenerateClick(sizeXField: Option<Int32>, sizeYField: Option<Int32>, rowCountField: Option<Int32>,
                         inputExists: bool, outputDirExists: bool, img: ImageSize)
    returns (response: Response)
    requires SelectParameters(sizeXField, sizeYField, rowCountField).Slice? ==>
               NoOverflow(img, SelectParameters(sizeXField, sizeYField, rowCountField).spec)
    ensures response.Rejected? <==> SelectParameters(sizeXField, sizeYField, rowCountField).ShowError?
    ensures response.Rejected? ==> response.message == INVALID_INPUTS_MESSAGE
    ensures response.Ran? ==> response.spec == SelectParameters(sizeXField, sizeYField, rowCountField).spec
    ensures response.Ran? ==> (response.run.InputMissing? <==> !inputExists)
    ensures response.Ran? && response.run.Completed? ==>
              response.run.createdOutputDir == !outputDirExists
              && response.run.tiles == Tiling(img, response.spec)
              && response.run.reportedCount == TotalTiles(img, response.spec)
  {
    var sel := SelectParameters(sizeXField, sizeYField, rowCountField);
    if sel.Slice? {
      var run := ProcessAtlas(inputExists, outputDirExists, img, sel.spec);
      response := Ran(sel.spec, run);
    } else {
      response := Rejected(sel.message);
    }
  }
}
