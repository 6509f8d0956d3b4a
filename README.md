# AtlasCutter tile slicing, modelled in Dafny

AtlasCutter is a small desktop tool that cuts a texture atlas (`example.png`)
into equal tiles and saves each one as `Output/{i}.png`. The window has three
text boxes: tile width, tile height and row count. The Generate button reads
them and, if all three are positive, calls `ProcessAtlas`. That method
computes `columns = width / sizeX` and walks `i` from 0 up to
`rowCount * columns`. It places tile `i` at column `i % columns` and row
`i / columns`. The loop stops for good at the first tile whose bottom edge
would fall below the image. Every tile before that one is cropped and saved.

This project models that logic:

- `geometry.dfy` (module `Geometry`): the image is only its size, and the
  cut is a sequence of `Tile(index, x, y, width, height)` records. The
  functions give the column count, the loop bound, the rectangle for each
  index, the vertical guard, the closed-form number of tiles cut and the
  tiles themselves. The lemmas prove what the slicing guarantees: every tile
  is inside the image, tiles never overlap, the order is row-major, the
  guard is a hard stop, the count has a closed form, and the reported count
  compares to the actual one as stated below.
- `tile_names.dfy` (module `TileNames`): the `"{i}.png"` file names. Indices
  are written in decimal and read back, so different tiles get different
  files.
- `main_window.dfy` (module `MainWindow`): the Generate button's parameter
  selection as a function, and `ProcessAtlas` as a method. The method's loop,
  with its `break`, is proved to produce exactly the specified tiles.
  `OnGenerateClick` ties the two together.
- `arith.dfy` (module `Arith`) holds the lemmas about multiplication and
  division that the proofs use. `wrappers.dfy` holds `Option`.

The file system and the image library become inputs. These are whether the
input file exists, whether the output folder exists, and the loaded image's
width and height. A missing input file ends the run before the output folder
is created, so `InputMissing` records no folder creation.

C#'s `/` and `%` truncate toward zero and Dafny's are Euclidean. Every
operand here is non-negative (width, index) and every divisor is positive,
so the two agree.

Non-numeric text is not rejected: a missing text box, or text that
`int.TryParse` rejects, silently takes the default (16, 16, 100). Only a
parsed value that is zero or negative brings up the error dialog.

The completion message prints `rowCount * columns`. When at least one tile
fits across the image and the image is too short for the requested rows,
that number is larger than the number of files written (`Geometry.ReportedCount` says exactly when the two differ).

## Model

| member | source | states |
|---|---|---|
| `Geometry.Columns` | AtlasCutter/MainWindow.axaml.cs:89 | the column count is the largest number of whole tiles that fit across the image: `c * sizeX <= width < (c + 1) * sizeX` |
| `Geometry.TotalTiles` | AtlasCutter/MainWindow.axaml.cs:89-90 | the loop bound is zero exactly when the image is narrower than one tile, and a positive bound implies a positive column count |
| `Geometry.TileAt` | AtlasCutter/MainWindow.axaml.cs:94-95 | tile `i` carries index `i`, is `sizeX` by `sizeY`, and lies horizontally inside the image for every index, with `x` and `y` never negative |
| `Geometry.Fits` | AtlasCutter/MainWindow.axaml.cs:95-97 | the negated break guard holds exactly when the tile's row `i / columns` is one of the `height / sizeY` whole rows that fit in the image |
| `Geometry.EmittedCount` | AtlasCutter/MainWindow.axaml.cs:92-102 | the closed form `min(rowCount, height / sizeY) * columns` never exceeds the loop bound `rowCount * columns` |
| `Geometry.Tiling` | AtlasCutter/MainWindow.axaml.cs:92-101 | the cut tiles are `EmittedCount` many and tile `n` carries index `n`: indices are contiguous from 0, with no gap or repeat |
| `Geometry.NarrowImageCutsNothing` | AtlasCutter/MainWindow.axaml.cs:89-95 | an image narrower than one tile has zero columns and zero requested tiles, and nothing is cut, so `i % columns` is never evaluated with a zero divisor |
| `Geometry.FitsIffBelowCount` | AtlasCutter/MainWindow.axaml.cs:92-97 | inside the loop bound, index `i` passes the vertical guard exactly when `i` is below the closed-form count |
| `Geometry.EmittedCountIsFirstFailure` | AtlasCutter/MainWindow.axaml.cs:92-97 | every index below the closed-form count passes the guard, and when fewer tiles than requested are cut, the index at the count fails it |
| `Geometry.GuardFailureIsFinal` | AtlasCutter/MainWindow.axaml.cs:95-97 | once an index fails the vertical guard, every later index fails it too, so breaking out loses no tile that skipping would have kept |
| `Geometry.StopsAtFirstFailure` | AtlasCutter/MainWindow.axaml.cs:92-97 | a loop exit where all earlier indices passed and the exit index is the bound or fails the guard is exactly the closed-form count |
| `Geometry.RowStartsInsideImage` | AtlasCutter/MainWindow.axaml.cs:94-97 | when every earlier index passed the guard, tile `i` starts within the image, so the guard's `y + sizeY` is at most `height + sizeY` |
| `Geometry.TileInside` | AtlasCutter/MainWindow.axaml.cs:94-99 | every cut tile is `sizeX` by `sizeY` and lies inside the image: `0 <= x`, `x + sizeX <= width`, `0 <= y`, `y + sizeY <= height` |
| `Geometry.AllTilesInside` | AtlasCutter/MainWindow.axaml.cs:94-99 | every rectangle in the whole cut lies inside the image |
| `Geometry.RowMajor` | AtlasCutter/MainWindow.axaml.cs:94-95 | a smaller index lies in an earlier row, or in the same row further left |
| `Geometry.TilesDisjoint` | AtlasCutter/MainWindow.axaml.cs:94-95 | rectangles for different indices share no pixel |
| `Geometry.ReportedCount` | AtlasCutter/MainWindow.axaml.cs:90-104 | the reported `rowCount * columns` is never below the number of tiles cut, and equals it exactly when there are no columns or all requested rows fit in the height |
| `Geometry.ShortImageExample` | AtlasCutter/MainWindow.axaml.cs:89-101 | a 64 x 50 image with 16 x 16 tiles and 4 rows requests 16 tiles but cuts 12, the last at (48, 32) |
| `TileNames.Decimal` | AtlasCutter/MainWindow.axaml.cs:100 | the decimal rendering of an index is non-empty, all digits, one digit exactly for indices below 10, with no leading zero |
| `TileNames.DecimalRoundTrip` | AtlasCutter/MainWindow.axaml.cs:100 | reading a decimal rendering back gives the index rendered |
| `TileNames.FileName` | AtlasCutter/MainWindow.axaml.cs:100 | a tile's file name is its index's digits followed by `.png`, and the digits read back as the index |
| `TileNames.FileNamesDistinct` | AtlasCutter/MainWindow.axaml.cs:100-101 | different indices get different file names, so no saved tile overwrites another |
| `MainWindow.SelectParameters` | AtlasCutter/MainWindow.axaml.cs:48-59 | an absent or unparsable field takes its default (16, 16, 100); slicing is chosen only with all three values positive; the error message is shown exactly when some parsed value is zero or negative |
| `MainWindow.ProcessAtlas` | AtlasCutter/MainWindow.axaml.cs:74-105 | a missing input file ends the run with nothing created; otherwise the output folder is created when absent, the loop's saved tiles are exactly `Tiling`, no two saved tiles get the same file name, and the reported count is `rowCount * columns`; its body also proves that every intermediate value fits in a C# `int` |
| `MainWindow.GuardSumFits` | AtlasCutter/MainWindow.axaml.cs:92-97 | under `NoOverflow`, the guard's `y + sizeY` stays within a C# `int` at every index the loop reaches |
| `MainWindow.NoOverflowIsExact` | AtlasCutter/MainWindow.axaml.cs:90-97 | when an image of `int` size with an `int` loop bound fails `NoOverflow`, the loop reaches index `EmittedCount`, and there the guard's `y + sizeY` exceeds `int.MaxValue` |
| `MainWindow.OnGenerateClick` | AtlasCutter/MainWindow.axaml.cs:41-60 | the error dialog is shown exactly when the selection rejects the numbers; otherwise `ProcessAtlas` runs with the selected numbers and its outcome is as stated above |

## Left out

- The Avalonia window: construction, `FindControl`, default texts and button wiring (MainWindow.axaml.cs:21-39). The async modal dialog of `ShowDialog` becomes the `ShowError` / `Rejected` message.
- `int.TryParse`: each text box is given as its parse result, an `Option` of a 32-bit integer. `None` covers both a missing control and unparsable text.
- `File.Exists`, `Directory.Exists` and `Directory.CreateDirectory`: given as booleans, with the creation recorded in the run. The fixed names `example.png` and `Output` are not modelled.
- `Image.Load`, `Clone`/`Crop` and `Save` from ImageSharp: the image is its width and height, and each crop-and-save becomes a `Tile` record. A file that exists but cannot be decoded (an exception) is not modelled.
- `Path.Combine`: only the file name `"{i}.png"` is modelled, not the folder prefix or the platform's path separator.
- `Console.WriteLine`: the completion message's count is recorded as `reportedCount`. The missing-file message is the `InputMissing` outcome.
- MainWindow.ProcessAtlas: requires `NoOverflow` and does not model C#'s unchecked 32-bit wrap-around. `NoOverflow` asks that the image's width and height are C# `int`s, that `rowCount * columns` fits, and that `y + sizeY` fits on every row the loop reaches. For an image of `int` size, any input outside this bound wraps in C#: either `rowCount * columns` or, as `MainWindow.NoOverflowIsExact` proves, `y + sizeY` at a row the loop reaches. Within the bound, the method proves every intermediate value stays in range.
- MainWindow.OnGenerateClick: requires `NoOverflow` for the selected numbers, for the same reason.
