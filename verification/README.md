# Minesweeper engine model

This is a Dafny model of the core of a web Minesweeper game: the engine class `Game` and the text converters around it.

**The engine.** A `Game` has these parts:
- a field size;
- a mine list;
- a dictionary of flags (red flag or tentative);
- a dictionary of uncovered cells, each holding its warning count, or 255 for an exposed mine;
- a move counter and an optional result.

It deploys mines from random draws (`Create`). It counts the mines around a cell, plays moves with a recursive flood fill, and sets or clears flags. It also renders its state as a grid of characters (`FieldState`) and rebuilds a state from such a grid.

**The converters.**
- The grid is written as text and read back (`FieldStateConverter`).
- The client gets the uncovered map as text (`FieldDataResolver`).
- Point lists and sizes are stored as `"XxY;XxY"` and `"WxH"` (`PointsConverter`, `SizeConverter`).
- The client joins URL segments (`DataService.join` / `buildUrl`).

## How the model is organised

- `Game` is a class whose fields the methods update in place. Each method has a `modifies` frame listing only the fields the source assigns. An exception becomes a `Result`/`Outcome` value carrying an `Error` kind, with no change to the state (`unchanged(this)`).
- Every loop of the source is an imperative Dafny method with loop invariants:
  - the offset pass of `Create` (`MakeUnique`) works in place on an `array<int>`;
  - the mine check of the constructor (`New`) walks the mine list;
  - the loss exposure of `Move` (`ExposeMines`) writes each mine into the uncovered map;
  - `GenerateFieldState` and `GetCharGrid` fill an `array2<char>` indexed `[x, y]`, as `char[,]` is;
  - the two loops of `SetGameState` (`ScanGrid` over rows, `ScanRow` over the cells of a row) read such a grid into the maps;
  - `GetString` and `Resolve` append to a string.
- `Uncover` is a recursive method. It returns, as a ghost value, the order in which it reached the cells. Its contract is the predicate `Flooded`, in `Flood`:
  - the map only grows;
  - each added cell is in the field, not flagged, and holds its warning count;
  - every cell after the first was reached from an earlier zero-count neighbour;
  - every zero-count cell added has all its in-field neighbours uncovered or flagged.
- Counting, the grid format, the number and pair formats, `string.Join`/`string.Split` and the URL join are functions. Lemmas state round trips and error cases.

## Model

| member | source | states |
|---|---|---|
| Model.Game.constructor | Minesweeper/Model/Game.cs:17-20 | The parameterless constructor gives an empty game: empty field, no mines, flags or uncovered cells, no moves, no result and no cached grid. |
| Model.Game.Init | Minesweeper/Model/Game.cs:36-37 | Once the checks have passed, the game holds the given field and mine list, with nothing flagged or uncovered and no result. |
| Model.Game.New | Minesweeper/Model/Game.cs:28-38 | Construction fails with an argument error exactly when a side is outside 1..255 or a mine lies outside the field; otherwise it gives a fresh valid game with that field and mine list and empty state. |
| Model.Game.Create | Minesweeper/Model/Game.cs:45-70 | Fails exactly when mines >= W*H or the field is rejected by the constructor. Otherwise it deploys exactly `mines` distinct mines. The i-th lies at the linear position of the i-th smallest draw plus the number of repeated draws up to it. The positions strictly increase, lie within i of the i-th smallest draw, and never reach W*H-1. |
| Deployment.Insert | Minesweeper/Model/Game.cs:54 | Inserting into an ascending sequence keeps it ascending and adds exactly that value. |
| Deployment.SortAscending | Minesweeper/Model/Game.cs:52-55 | `orderby pos` yields an ascending permutation of the draws. |
| Deployment.SortedWithin | Minesweeper/Model/Game.cs:53-54 | Sorting keeps every draw inside the range it was drawn from. |
| Deployment.Repeats | Minesweeper/Model/Game.cs:57-64 | The running offset at position i counts at most i repeats. |
| Deployment.MakeUnique | Minesweeper/Model/Game.cs:57-64 | The in-place offset pass moves position i of a sorted array up by exactly the number of positions 1..i equal to their predecessor; the offset is never reset. The result is strictly increasing, and position i moves up by at most i. |
| Deployment.OffsetStep | Minesweeper/Model/Game.cs:59-63 | One step of the pass on sorted positions pushes a position exactly when it repeats its predecessor, and the offset then grows by one. |
| Deployment.Unique | Minesweeper/Model/Game.cs:57-64 | Moving each sorted position up by its repeats gives strictly increasing positions, each moved by at most its index. |
| Deployment.Apart | Minesweeper/Model/Game.cs:57-64 | Two moved positions keep their order strictly. |
| Deployment.OffsetCarries | Minesweeper/Model/Game.cs:57-64 | In the sorted draws 0, 0, 5 the offset carries on: the second 0 moves to 1 and 5 to 6. |
| Deployment.Deploy | Minesweeper/Model/Game.cs:52-64 | The i-th deployed position is the i-th smallest draw plus the repeats up to it. With draws in [0, cells - k), the k positions strictly increase, stay within i of the i-th smallest draw, and lie in [0, cells - 1). |
| Deployment.ToPointInField | Minesweeper/Model/Game.cs:68 | A linear position below W*H wraps to a cell of the field, and the wrap is undone by the row-major index. |
| Deployment.ToPoints | Minesweeper/Model/Game.cs:68 | The wrap is applied to every position, in order. |
| Deployment.ToPointsInField | Minesweeper/Model/Game.cs:68 | Strictly increasing in-field positions wrap to distinct in-field points that keep their order. |
| Model.Game.IsInField | Minesweeper/Model/Game.cs:301-304 | A position is in the field exactly when it is one of the field's cells. |
| Model.Game.GetWarningCount | Minesweeper/Model/Game.cs:225-229 | Fails with an argument error exactly outside the field; otherwise it is the number of listed mines in the 3x3 block around the position, cast to a byte. |
| Warnings.CountNear | Minesweeper/Model/Game.cs:228 | The count never exceeds the length of the mine list. |
| Warnings.CountNearIsIndexCount | Minesweeper/Model/Game.cs:228 | The count is the number of list entries near the position, repeated entries included. |
| Warnings.CountNearDistinct | Minesweeper/Model/Game.cs:228 | For a list without repeats, the count is the number of distinct mines near the position. |
| Warnings.AtMostNine | Minesweeper/Model/Game.cs:228 | For distinct mines the count is at most 9, so the byte cast loses nothing. |
| Warnings.CountNearZero | Minesweeper/Model/Game.cs:228 | The count is zero exactly when no listed mine is near the position. |
| Warnings.ZeroWarning | Minesweeper/Model/Game.cs:228 | For distinct mines the byte count is zero exactly when no mine is near the position. |
| Warnings.Wraps | Minesweeper/Model/Game.cs:228 | A list repeating one mine 256 times wraps the byte to a count of 0. |
| Model.Game.Move | Minesweeper/Model/Game.cs:234-257 | Fails when a result is set (invalid operation) or the position is uncovered, flagged or outside the field (argument), changing nothing. On success: moves + 1, cache dropped; on a mine every mine is exposed as 255; otherwise the flood from the position; the result is Win when W*H - mines == uncovered count, even after a Lose, else Lose on a mine. |
| Model.Game.Play | Minesweeper/Model/Game.cs:241-255 | The state changes of a move that passed its checks, as in `Move`, keeping the game's invariant. |
| Model.Game.ExposeMines | Minesweeper/Model/Game.cs:248 | Losing adds every listed mine as 255 to the uncovered map, flagged mines included, and keeps every other entry. |
| Model.Exposed | Minesweeper/Model/Game.cs:248 | The entries a loss adds are exactly the listed mines, each holding 255. |
| Model.Game.Uncover | Minesweeper/Model/Game.cs:284-299 | A flagged or uncovered start adds nothing. Otherwise the start comes first, and every added cell is in the field, unflagged and holds its warning count. Later cells are in-field orthogonal neighbours of an earlier zero-count cell. Every zero-count cell added has all its in-field neighbours uncovered or flagged. No key is removed or changed. |
| Flood.InFieldOnly | Minesweeper/Model/Game.cs:296 | The filter keeps exactly the points that lie in the field. |
| Flood.Neighbours | Minesweeper/Model/Game.cs:294-297 | The neighbours visited are exactly the in-field cells one step left, right, up or down. |
| Flood.Start | Minesweeper/Model/Game.cs:289-291 | Recording the start's count ends the flood when the count is not 0 and starts spreading when it is. |
| Flood.Extend | Minesweeper/Model/Game.cs:298 | Folding in the flood from a neighbour keeps the spreading state and leaves that neighbour uncovered or flagged. |
| Flood.Finish | Minesweeper/Model/Game.cs:298 | Once every neighbour of the start is uncovered or flagged, the flood is complete. |
| Flood.AddsUnflagged | Minesweeper/Model/Game.cs:286-290 | A flood adds only unflagged cells of the field and keeps every earlier entry. |
| Flood.StopsAtWarning | Minesweeper/Model/Game.cs:291 | A start whose count is not 0 is the only cell uncovered. |
| Flood.AvoidsMines | Minesweeper/Model/Game.cs:291-298 | With no mine listed twice, no cell reached through a neighbour is a mine. |
| Model.Game.Flag | Minesweeper/Model/Game.cs:262-279 | Fails when a result is set (invalid operation), on the same kind again, on an uncovered cell or outside the field (argument), changing nothing. Otherwise only the flags (and the cache) change: a kind sets or replaces the flag, and no kind removes it, a no-op when absent. |
| Grid.DigitValue | Minesweeper/Model/Game.cs:170 | Values up to 9 render as their own digit and read back as that value. |
| Grid.ParseCell | Minesweeper/Model/Game.cs:164-175 | Reading one rendered cell gives back its flag, or its value when the cell is neither flagged nor an exposed mine. |
| Grid.ParseRender | Minesweeper/Model/Game.cs:158-214 | For uncovered values that are at most 9 or 255, parsing a rendered grid gives every in-field flag, and every in-field uncovered value that is neither flagged nor 255; 'X' reads back as covered. Values 10..254 render as their first digit and read back as a different value, so they are excluded. |
| Grid.RoundTrip | Minesweeper/Model/Game.cs:158-214 | With in-field, non-overlapping flags and values up to 9, parsing the rendered grid reproduces both maps exactly. |
| Grid.RenderParse | Minesweeper/Model/Game.cs:158-214 | Rendering what a grid parses to gives the grid back exactly when every character is '.', '#', '?' or a digit. |
| Model.Game.GenerateFieldState | Minesweeper/Model/Game.cs:137-180 | The fresh W x H grid holds, at [x, y], the flag character, else 'X' or the first digit of the value, else '.'. |
| Model.Game.FieldState | Minesweeper/Model/Game.cs:118-122 | The getter returns the cached grid, building and caching the rendering when there is none. A cache that was the rendering stays so, and the result is the rendering. |
| Model.Game.SetFieldState | Minesweeper/Model/Game.cs:123-129 | The setter rebuilds the state as `SetGameState` does and caches the given grid. The cache is the rendering of the new state exactly when every character is '.', '#', '?' or a digit. |
| Model.Game.SetGameState | Minesweeper/Model/Game.cs:185-215 | Only an empty-field game accepts a grid (else invalid operation, nothing changed). The field takes the grid's size; the flags and uncovered values become exactly those the grid's characters describe. |
| Model.ScanGrid | Minesweeper/Model/Game.cs:198-214 | The row-by-row scan yields the flags and values of every cell of the grid. |
| Model.ScanRow | Minesweeper/Model/Game.cs:198-214 | Scanning row y adds the flags and values of that row's cells. |
| Model.ReadNothing | Minesweeper/Model/Game.cs:192-193 | The scan starts from empty maps. |
| Model.ReadCell | Minesweeper/Model/Game.cs:200-213 | A digit adds an uncovered value, '#' a red flag, '?' a tentative flag, and any other character nothing. |
| Model.NextRow | Minesweeper/Model/Game.cs:198 | A scan to the end of row y is a scan to the start of row y + 1. |
| Model.ReadAll | Minesweeper/Model/Game.cs:198-214 | The complete scan is the parsed flags and values, all in the field and never a flag and a value on one cell. |
| Model.CanonicalRows | Minesweeper/Model/Game.cs:123-129 | Every grid cell is canonical exactly when every character of its rows is. |
| Scenarios.LoseThenWin | Minesweeper/Model/Game.cs:244-255 | On a 3x1 field with the mine in the middle, playing x = 0 and then the mine ends the game as Win, not Lose. |
| Scenarios.StepBesideMine | Minesweeper/Model/Game.cs:289-291 | The first move beside the mine uncovers that cell alone, with count 1. |
| Scenarios.StepOnMine | Minesweeper/Model/Game.cs:244-255 | Stepping on the mine with 1 cell already uncovered sets the result to Win. |
| Scenarios.IntoMine | Minesweeper/Model/Game.cs:244-249 | A first move onto a mine leaves exactly the mine uncovered as 255, the result Lose and one move. |
| Scenarios.OneMineNear | Minesweeper/Model/Game.cs:228 | The mine at x = 1 counts for x = 0. |
| Scenarios.Exposing | Minesweeper/Model/Game.cs:248 | Exposing the one mine adds exactly its cell. |
| FieldStateConverter.GetString | Minesweeper/Model/FieldStateConverter.cs:7-16 | Writes rows y = 0..H-1 of characters x = 0..W-1, with "\r\n" only between two rows. |
| FieldStateConverter.WrittenLength | Minesweeper/Model/FieldStateConverter.cs:9-15 | The written text has W*H + 2*(H-1) characters. |
| FieldStateConverter.GetCharGrid | Minesweeper/Model/FieldStateConverter.cs:18-27 | The grid is as wide as the first line and as high as the line count; it fails with index out of range exactly when a later line is shorter than the first, and holds each line cut to the first line's length. |
| FieldStateConverter.ParseRowsFails | Minesweeper/Model/FieldStateConverter.cs:22-24 | Reading fails exactly when some line is shorter than the first. |
| FieldStateConverter.Truncates | Minesweeper/Model/FieldStateConverter.cs:22-24 | A longer later line is cut silently: "ab\r\nabc" reads as the rows "ab", "ab". |
| FieldStateConverter.ParseJoin | Minesweeper/Model/FieldStateConverter.cs:7-27 | A grid of at least one row with no '\r' reads back as itself after being written. |
| FieldStateConverter.JoinParse | Minesweeper/Model/FieldStateConverter.cs:7-27 | Text whose lines all have one length is read and written back unchanged. |
| FieldStateConverter.NoRows | Minesweeper/Model/FieldStateConverter.cs:13-21 | A grid with no rows is written as "", which reads back as one empty row. |
| Text.SplitJoin | Minesweeper/Data/Mapping/PointsConverter.cs:13-14 | Splitting a join gives the parts back when no part holds the separator's first character. |
| Text.JoinSplit | Minesweeper/Model/FieldStateConverter.cs:20 | Joining the parts of a split gives any text back. |
| FieldDataResolver.ResolveRows | Minesweeper/Dto/Profiles/FieldDataResolver.cs:32-53 | There is one row per line of the field. |
| FieldDataResolver.Resolve | Minesweeper/Dto/Profiles/FieldDataResolver.cs:12-57 | The text is the field's rows, each cell 'X' for 255, the decimal text of any other present value, '.' when absent, with "\r\n" only between rows. |
| FieldDataResolver.RowFree | Minesweeper/Dto/Profiles/FieldDataResolver.cs:36-50 | No cell text holds a line break character. |
| FieldDataResolver.Lines | Minesweeper/Dto/Profiles/FieldDataResolver.cs:32-53 | For height >= 1 the text splits into exactly Height lines, the rows. |
| FieldDataResolver.EmptyRow | Minesweeper/Dto/Profiles/FieldDataResolver.cs:50 | With no entries every row is all dots. |
| FieldDataResolver.RowIgnoresOthers | Minesweeper/Dto/Profiles/FieldDataResolver.cs:32-37 | A row reads only its own cells. |
| FieldDataResolver.IgnoresOutside | Minesweeper/Dto/Profiles/FieldDataResolver.cs:32-37 | Entries outside the field make no difference. |
| FieldDataResolver.RowRendered | Minesweeper/Dto/Profiles/FieldDataResolver.cs:36-50 | With values up to 9 or 255, a row is the rendered row of a game with no flags. |
| FieldDataResolver.MatchesRender | Minesweeper/Dto/Profiles/FieldDataResolver.cs:36-50 | With values up to 9 or 255 the rows are the rendered grid of a game with these uncovered cells and no flags. |
| Numbers.DigitsText | Minesweeper/Model/Mapping/SizeConverter.cs:11 | The decimal text of a number is one or more digits, a single digit below 10. |
| Numbers.ParseInt | Minesweeper/Model/Mapping/SizeConverter.cs:12 | Parsing fails only with a format or an overflow error. |
| Numbers.ParseIntText | Minesweeper/Model/Mapping/SizeConverter.cs:11-12 | Parsing reads back the text of every 32-bit int. |
| Numbers.IntTextPlain | Minesweeper/Model/Mapping/SizeConverter.cs:11 | Number text never holds 'x', ';' or '\r'. |
| Numbers.ParsePairText | Minesweeper/Model/Mapping/SizeConverter.cs:11-12 | Parsing "{a}x{b}" gives back a and b. |
| Numbers.ParsePairNeedsSeparator | Minesweeper/Model/Mapping/SizeConverter.cs:12 | Text without an 'x' fails. |
| Numbers.ParsePairIgnoresExtra | Minesweeper/Model/Mapping/SizeConverter.cs:12 | Fields after the second are ignored. |
| SizeConverter.RoundTrip | Minesweeper/Model/Mapping/SizeConverter.cs:11-12 | Parsing the written "WxH" gives the size back, negative components included. |
| SizeConverter.FitsColumn | Minesweeper/Model/Mapping/SizeConverter.cs:11-13 | For sides 1..255 the text is at most 7 characters, the mapping hint. |
| SizeConverter.TextShape | Minesweeper/Model/Mapping/SizeConverter.cs:12 | Text without an 'x' fails; further 'x' fields are ignored. |
| PointsConverter.Tokens | Minesweeper/Data/Mapping/PointsConverter.cs:13 | One "{X}x{Y}" token per point, in list order. |
| PointsConverter.ParsePoints | Minesweeper/Data/Mapping/PointsConverter.cs:14 | A successful parse gives one point per token. |
| PointsConverter.ParseTokens | Minesweeper/Data/Mapping/PointsConverter.cs:14 | Reading the tokens of a point list gives the list back. |
| PointsConverter.RoundTrip | Minesweeper/Data/Mapping/PointsConverter.cs:13-14 | Parsing the written text gives back every non-empty list, in order and with repeats. |
| PointsConverter.EmptyListDoesNotRoundTrip | Minesweeper/Data/Mapping/PointsConverter.cs:13-14 | The empty list is written as "", which fails to parse with a format error. |
| PointsConverter.TokenShape | Minesweeper/Data/Mapping/PointsConverter.cs:14 | A token without an 'x' fails; fields after the second are ignored. |
| Url.NonEmpty | Minesweeper/ClientApp/src/app/data.service.ts:34 | The filter keeps only non-empty segments. |
| Url.DropsEmpty | Minesweeper/ClientApp/src/app/data.service.ts:34 | An empty segment anywhere makes no difference. |
| Url.Fails | Minesweeper/ClientApp/src/app/data.service.ts:32-40 | The join fails exactly when no segment is left (the reduce of an empty array), or when a kept segment other than the first starts with '/'. |
| Url.Single | Minesweeper/ClientApp/src/app/data.service.ts:33-39 | A single non-empty segment comes back unchanged, whatever it starts with. |
| Url.Append | Minesweeper/ClientApp/src/app/data.service.ts:35-38 | A further segment is glued on with one '/', none when the URL already ends in '/'. |
| Url.StartsAndEnds | Minesweeper/ClientApp/src/app/data.service.ts:33-39 | The URL starts with the first kept segment and ends with the last one. |
| Url.BuildUrlOrder | Minesweeper/ClientApp/src/app/data.service.ts:28-30 | `buildUrl()` puts the base URL first and the collection segment after it. |

## Left out

- HTTP controllers, persistence, DTOs and AutoMapper, and the Angular UI. Of persistence only the two converters' lambdas are modelled.
- `System.Random` in `Create`: the draws are an input sequence with values in [0, W*H - mines).
- Model.Game.Create: the `short` casts at Minesweeper/Model/Game.cs:53,57 are not modelled. Positions are mathematical integers, so the model does not show the overflow that a field larger than 32767 cells would cause.
- Model.Game.constructor: the model's empty game has an empty mine list. In the source `Game()` leaves `Mines` null, so on a game the FieldState setter filled, whose mines were never assigned, `GetWarningCount` and `Move` would throw `ArgumentNullException`. The model goes on with no mines instead. The persistence layer always sets the mines, so this case does not arise there.
- Model.Game.New: the null check on the mine list (an `ArgumentNullException`) is not modelled; Dafny sequences are never null. The same holds for the null grid in `SetGameState`.
- `Guid` ids, `Owner` and `IllegalActionException`, which the engine never throws.
- `Environment.NewLine` behind `AppendLine` is fixed to "\r\n", the separator `GetCharGrid` splits on.
- Model.ReadCell: `char.IsNumber` is modelled for ASCII '0'..'9' only. Other Unicode digit characters are not modelled.
- Numbers.ParseInt: the whitespace and culture-specific signs that `int.Parse` accepts are not modelled. It reads an optional '+' or '-' followed by ASCII digits.
- Model.Game.Uncover: recursion depth is not modelled, and neither is any stack overflow on a large field. The discovery order is a ghost out-value that the source does not have.
- Model.Game.FieldState: the model does not claim that the cache always equals the rendering. The setter stores the given grid as it is, and a grid holding 'X' or another character differs from the rendering of what it parses to. `CacheFresh` states when the cache is the rendering, and `SetFieldState` says exactly when that holds.
- Flood.AvoidsMines: stated for mine lists without repeats, as `Create` produces. With 256 copies of one mine the byte count wraps to 0 (`Warnings.Wraps`).
- Where the engine's documentation and its code disagree, the model follows the code:
  - `Create` rejects only mines >= W*H, although the API documentation asks for fewer than W*H - 1 mines.
  - The win check after a move overwrites a `Lose` from the same move (`Scenarios.LoseThenWin`).
  - Text with lines of unequal length is not left undefined: a shorter later line fails, and a longer one is cut.
