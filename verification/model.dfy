/** The game engine: class Game of Minesweeper/Model/Game.cs. */
module Model {
  import opened Wrappers
  import opened Types
  import opened Warnings
  import opened Flood
  import opened Grid
  import Numbers
  import Deployment
  import FieldStateConverter

  /** The uncovered entries a lost game adds: every listed mine, exposed. */
  function Exposed(mines: seq<Point>): (exposed: map<Point, Byte>)
    ensures exposed.Keys == set m | m in mines
    ensures forall m :: m in exposed ==> exposed[m] == Mine
  {
    map m | m in mines :: Mine
  }

  /** `q` comes before column x of row y in the row-by-row scan of a grid. */
  predicate Scanned(q: Point, x: int, y: int) {
    q.y < y || (q.y == y && q.x < x)
  }

  /** Every cell of the grid is canonical exactly when every character of its rows is. */
  lemma CanonicalRows(grid: array2<char>)
    ensures var rows := FieldStateConverter.Rows(grid);
      (forall x, y :: 0 <= x < grid.Length0 && 0 <= y < grid.Length1 ==> Canonical(grid[x, y])) <==>
      (forall j, i :: 0 <= j < |rows| && 0 <= i < |rows[j]| ==> Canonical(rows[j][i]))
  {
    var rows := FieldStateConverter.Rows(grid);
    if forall x, y :: 0 <= x < grid.Length0 && 0 <= y < grid.Length1 ==> Canonical(grid[x, y]) {
      forall j, i | 0 <= j < |rows| && 0 <= i < |rows[j]| ensures Canonical(rows[j][i]) {
        assert rows[j][i] == grid[i, j];
      }
    }
    if forall j, i :: 0 <= j < |rows| && 0 <= i < |rows[j]| ==> Canonical(rows[j][i]) {
      forall x, y | 0 <= x < grid.Length0 && 0 <= y < grid.Length1 ensures Canonical(grid[x, y]) {
        assert rows[y][x] == grid[x, y];
      }
    }
  }

  /** The flags of the cells scanned before column x of row y. */
  function ScannedFlags(field: Size, rows: seq<string>, x: int, y: int): map<Point, FlagKind>
    requires Rectangular(field, rows)
  {
    map q | q in Cells(field) && Scanned(q, x, y) && ParseFlag(rows[q.y][q.x]).Some? :: ParseFlag(rows[q.y][q.x]).value
  }

  /** The uncovered values of the cells scanned before column x of row y. */
  function ScannedValues(field: Size, rows: seq<string>, x: int, y: int): map<Point, Byte>
    requires Rectangular(field, rows)
  {
    map q | q in Cells(field) && Scanned(q, x, y) && ParseValue(rows[q.y][q.x]).Some? :: ParseValue(rows[q.y][q.x]).value
  }

  /** Before the scan starts nothing has been read. */
  lemma ReadNothing(field: Size, rows: seq<string>)
    requires Rectangular(field, rows)
    ensures ScannedFlags(field, rows, 0, 0) == map[] && ScannedValues(field, rows, 0, 0) == map[]
  {
    assert ScannedFlags(field, rows, 0, 0).Keys == {};
    assert ScannedValues(field, rows, 0, 0).Keys == {};
  }

  /** Reading the cell at (x, y) adds its value when it is a digit, a red flag for '#',
      a tentative flag for '?', and nothing for any other character. */
  lemma ReadCell(field: Size, rows: seq<string>, x: int, y: int)
    requires Rectangular(field, rows) && 0 <= x < field.width && 0 <= y < field.height
    ensures var (c, p) := (rows[y][x], Point(x, y));
      Numbers.IsDigit(c) ==>
        ScannedValues(field, rows, x + 1, y) == ScannedValues(field, rows, x, y)[p := c as int - '0' as int] &&
        ScannedFlags(field, rows, x + 1, y) == ScannedFlags(field, rows, x, y)
    ensures var (c, p) := (rows[y][x], Point(x, y));
      c == '#' ==>
        ScannedValues(field, rows, x + 1, y) == ScannedValues(field, rows, x, y) &&
        ScannedFlags(field, rows, x + 1, y) == ScannedFlags(field, rows, x, y)[p := RedFlag]
    ensures var (c, p) := (rows[y][x], Point(x, y));
      c == '?' ==>
        ScannedValues(field, rows, x + 1, y) == ScannedValues(field, rows, x, y) &&
        ScannedFlags(field, rows, x + 1, y) == ScannedFlags(field, rows, x, y)[p := Tentative]
    ensures var c := rows[y][x];
      !Numbers.IsDigit(c) && c != '#' && c != '?' ==>
        ScannedValues(field, rows, x + 1, y) == ScannedValues(field, rows, x, y) &&
        ScannedFlags(field, rows, x + 1, y) == ScannedFlags(field, rows, x, y)
  {
  }

  /** A scan to the end of row y is a scan to the start of row y + 1. */
  lemma NextRow(field: Size, rows: seq<string>, y: int)
    requires Rectangular(field, rows)
    ensures ScannedFlags(field, rows, field.width, y) == ScannedFlags(field, rows, 0, y + 1)
    ensures ScannedValues(field, rows, field.width, y) == ScannedValues(field, rows, 0, y + 1)
  {
  }

  /** A scan of the whole grid yields the parsed maps, inside the field and never
      both a flag and a value for one cell. */
  lemma ReadAll(field: Size, rows: seq<string>)
    requires Rectangular(field, rows)
    ensures var flags := ScannedFlags(field, rows, 0, field.height);
      flags == ParsedFlags(field, rows) && forall q :: q in flags ==> InField(field, q)
    ensures var values := ScannedValues(field, rows, 0, field.height);
      values == ParsedUncovered(field, rows) &&
      forall q :: q in values ==> InField(field, q) && q !in ScannedFlags(field, rows, 0, field.height)
  {
  }

  /** The loops of `SetGameState`: the grid read row by row, a digit giving an
      uncovered value, '#' a red flag and '?' a tentative flag. */
  method ScanGrid(grid: array2<char>) returns (flags: map<Point, FlagKind>, uncovered: map<Point, Byte>)
    ensures var field := Size(grid.Length0, grid.Length1);
      flags == ScannedFlags(field, FieldStateConverter.Rows(grid), 0, field.height) &&
      uncovered == ScannedValues(field, FieldStateConverter.Rows(grid), 0, field.height)
  {
    var field := Size(grid.Length0, grid.Length1);
    ghost var rows := FieldStateConverter.Rows(grid);
    ReadNothing(field, rows);
    flags, uncovered := map[], map[];
    var y := 0;
    while y < field.height
      invariant 0 <= y <= field.height
      invariant flags == ScannedFlags(field, rows, 0, y) && uncovered == ScannedValues(field, rows, 0, y)
    {
      flags, uncovered := ScanRow(grid, y, flags, uncovered);
      NextRow(field, rows, y);
      y := y + 1;
    }
  }

  /** The inner loop of `SetGameState`: row y read cell by cell into the maps. */
  method ScanRow(grid: array2<char>, y: int, flags0: map<Point, FlagKind>, uncovered0: map<Point, Byte>)
    returns (flags: map<Point, FlagKind>, uncovered: map<Point, Byte>)
    requires 0 <= y < grid.Length1
    requires var field := Size(grid.Length0, grid.Length1);
      flags0 == ScannedFlags(field, FieldStateConverter.Rows(grid), 0, y) &&
      uncovered0 == ScannedValues(field, FieldStateConverter.Rows(grid), 0, y)
    ensures var field := Size(grid.Length0, grid.Length1);
      flags == ScannedFlags(field, FieldStateConverter.Rows(grid), field.width, y) &&
      uncovered == ScannedValues(field, FieldStateConverter.Rows(grid), field.width, y)
  {
    var field := Size(grid.Length0, grid.Length1);
    ghost var rows := FieldStateConverter.Rows(grid);
    flags, uncovered := flags0, uncovered0;
    var x := 0;
    while x < field.width
      invariant 0 <= x <= field.width
      invariant flags == ScannedFlags(field, rows, x, y) && uncovered == ScannedValues(field, rows, x, y)
    {
      var p := Point(x, y);
      var c := grid[x, y];
      assert c == rows[y][x];
      ReadCell(field, rows, x, y);
      if Numbers.IsDigit(c) {
        uncovered := uncovered[p := c as int - '0' as int];
      } else if c == '#' {
        flags := flags[p := RedFlag];
      } else if c == '?' {
        flags := flags[p := Tentative];
      }
      x := x + 1;
    }
  }

  class Game {
    var field: Size
    var moves: int
    var mines: seq<Point>
    var flags: map<Point, FlagKind>
    /** Uncovered positions with their warning count, or Mine for an exposed mine. */
    var uncovered: map<Point, Byte>
    var result: Option<GameResult>
    /** The cached grid behind the FieldState property; null until it is asked for. */
    var fieldState: array2?<char>

    /** Every position the game records lies in the field, and a flagged position is
        uncovered only as an exposed mine (a lost game exposes flagged mines too). */
    predicate Valid()
      reads this
    {
      field.width >= 0 && field.height >= 0 && moves >= 0 &&
      (forall m :: m in mines ==> InField(field, m)) &&
      (forall q :: q in flags ==> InField(field, q)) &&
      (forall q :: q in uncovered ==> InField(field, q)) &&
      (forall q :: q in uncovered && q in flags ==> uncovered[q] == Mine)
    }

    /** The cached grid, when there is one, is the rendering of the current state. */
    ghost predicate CacheFresh()
      reads this, fieldState
    {
      fieldState != null ==>
        field.width >= 0 && field.height >= 0 &&
        fieldState.Length0 == field.width && fieldState.Length1 == field.height &&
        FieldStateConverter.Rows(fieldState) == RenderRows(field, flags, uncovered)
    }

    /** `Game()`: the empty game the persistence layer fills through the FieldState setter. */
    constructor ()
      ensures Valid() && CacheFresh() && field.IsEmpty()
      ensures mines == [] && flags == map[] && uncovered == map[]
      ensures moves == 0 && result == None && fieldState == null
    {
      field := Size(0, 0);
      moves := 0;
      mines := [];
      flags := map[];
      uncovered := map[];
      result := None;
      fieldState := null;
    }

    /** `Game(field, mines)` once its argument checks have passed. */
    constructor Init(field: Size, mines: seq<Point>)
      requires ValidField(field)
      requires forall m :: m in mines ==> InField(field, m)
      ensures Valid() && CacheFresh()
      ensures this.field == field && this.mines == mines
      ensures flags == map[] && uncovered == map[]
      ensures moves == 0 && result == None && fieldState == null
    {
      this.field := field;
      moves := 0;
      this.mines := mines;
      flags := map[];
      uncovered := map[];
      result := None;
      fieldState := null;
    }

    /** `Game(field, mines)`: sides must lie in 1..255 and every mine in the field. */
    static method New(field: Size, mines: seq<Point>) returns (r: Result<Game, Error>)
      ensures r.Failure? <==> !ValidField(field) || exists m :: m in mines && !InField(field, m)
      ensures r.Failure? ==> r.error == Argument
      ensures r.Success? ==> fresh(r.value) && r.value.Valid() && r.value.CacheFresh()
      ensures r.Success? ==> r.value.field == field && r.value.mines == mines
      ensures r.Success? ==> r.value.flags == map[] && r.value.uncovered == map[]
      ensures r.Success? ==> r.value.moves == 0 && r.value.result == None
    {
      if field.width <= 0 || field.height <= 0 {
        return Failure(Argument);
      }
      if field.width >= 256 || field.height >= 256 {
        return Failure(Argument);
      }
      var i := 0;
      while i < |mines|
        invariant 0 <= i <= |mines|
        invariant forall k :: 0 <= k < i ==> InField(field, mines[k])
      {
        if !InField(field, mines[i]) {
          return Failure(Argument);
        }
        i := i + 1;
      }
      var game := new Game.Init(field, mines);
      return Success(game);
    }

    /** `Create`: rejects `mines >= W*H`; otherwise deploys one mine per draw, the i-th at
        the linear position of the i-th smallest draw plus the repeats up to it. The
        positions strictly increase, stay within `i` of the i-th smallest draw and never
        reach the last cell W*H-1. */
    static method Create(field: Size, mines: UInt16, draws: seq<int>) returns (r: Result<Game, Error>)
      requires |draws| == mines
      requires mines < field.width * field.height ==>
        forall i :: 0 <= i < |draws| ==> 0 <= draws[i] < field.width * field.height - mines
      ensures r.Failure? <==> mines >= field.width * field.height || !ValidField(field)
      ensures r.Failure? ==> r.error == Argument
      ensures r.Success? ==> fresh(r.value) && r.value.Valid() && r.value.field == field
      ensures r.Success? ==> r.value.moves == 0 && r.value.result == None
      ensures r.Success? ==> r.value.flags == map[] && r.value.uncovered == map[]
      ensures r.Success? ==> |r.value.mines| == mines && Distinct(r.value.mines)
      ensures r.Success? ==> forall i, j :: 0 <= i < j < mines ==>
        Deployment.Linear(r.value.mines[i], field.width) < Deployment.Linear(r.value.mines[j], field.width)
      ensures r.Success? ==> forall i :: 0 <= i < mines ==>
        Deployment.Linear(r.value.mines[i], field.width) ==
          Deployment.SortAscending(draws)[i] + Deployment.Repeats(Deployment.SortAscending(draws), i)
      ensures r.Success? ==> forall i :: 0 <= i < mines ==>
        Deployment.SortAscending(draws)[i] <= Deployment.Linear(r.value.mines[i], field.width)
          <= Deployment.SortAscending(draws)[i] + i
      ensures r.Success? ==> forall i :: 0 <= i < mines ==>
        Deployment.Linear(r.value.mines[i], field.width) < field.width * field.height - 1
    {
      var cells := field.width * field.height;
      if mines >= cells {
        return Failure(Argument);
      }
      var positions := Deployment.Deploy(draws, cells);
      var points := Deployment.ToPoints(positions, field.width);
      if ValidField(field) {
        Deployment.ToPointsInField(positions, field);
        assert forall m :: m in points ==> InField(field, m);
      }
      r := New(field, points);
    }

    /** `IsInField`: membership in the field's set of cells. */
    function IsInField(position: Point): (b: bool)
      reads this
      ensures b <==> position in Cells(field)
    {
      position.x >= 0 && position.y >= 0 && position.x < field.width && position.y < field.height
    }

    /** `GetWarningCount`: rejects a position outside the field, otherwise the number of
        listed mines in the 3x3 block around it, cast to a byte. */
    function GetWarningCount(position: Point): (r: Result<Byte, Error>)
      reads this
      ensures r.Failure? <==> !InField(field, position)
      ensures r.Failure? ==> r.error == Argument
      ensures r.Success? ==> r.value == WarningCount(mines, position)
    {
      if !IsInField(position) then Failure(Argument)
      else Success(WarningCount(mines, position))
    }

    /** `GenerateFieldState`: the grid of rendered cells, [x, y]. */
    method GenerateFieldState() returns (grid: array2<char>)
      requires field.width >= 0 && field.height >= 0
      ensures fresh(grid)
      ensures grid.Length0 == field.width && grid.Length1 == field.height
      ensures FieldStateConverter.Rows(grid) == RenderRows(field, flags, uncovered)
    {
      grid := new char[field.width, field.height];
      var y := 0;
      while y < field.height
        invariant 0 <= y <= field.height
        invariant forall j, i :: 0 <= j < y && 0 <= i < field.width ==>
          grid[i, j] == RenderCell(flags, uncovered, Point(i, j))
      {
        var x := 0;
        while x < field.width
          invariant 0 <= x <= field.width
          invariant forall j, i :: 0 <= j < y && 0 <= i < field.width ==>
            grid[i, j] == RenderCell(flags, uncovered, Point(i, j))
          invariant forall i :: 0 <= i < x ==> grid[i, y] == RenderCell(flags, uncovered, Point(i, y))
        {
          var p := Point(x, y);
          if p in flags {
            grid[x, y] := if flags[p] == RedFlag then '#' else '?';
          } else if p in uncovered {
            var value := uncovered[p];
            grid[x, y] := if value == Mine then 'X' else Numbers.DigitsText(value)[0];
          } else {
            grid[x, y] := '.';
          }
          x := x + 1;
        }
        y := y + 1;
      }
      ghost var rows := FieldStateConverter.Rows(grid);
      ghost var render := RenderRows(field, flags, uncovered);
      assert forall j | 0 <= j < field.height :: rows[j] == render[j];
    }

    /** The FieldState getter: builds and caches the grid when there is none. */
    method FieldState() returns (grid: array2<char>)
      requires field.width >= 0 && field.height >= 0
      modifies this`fieldState
      ensures fieldState == grid
      ensures old(fieldState) != null ==> grid == old(fieldState)
      ensures old(fieldState) == null ==> fresh(grid)
      ensures old(CacheFresh()) ==> CacheFresh()
      ensures CacheFresh() ==> FieldStateConverter.Rows(grid) == RenderRows(field, flags, uncovered)
    {
      if fieldState == null {
        fieldState := GenerateFieldState();
      }
      grid := fieldState;
    }

    /** The FieldState setter: rebuilds the state from the grid, then caches the grid
        itself, which is the rendering of the new state exactly when every character is
        '.', '#', '?' or a digit. */
    method SetFieldState(grid: array2<char>) returns (r: Outcome<Error>)
      requires Valid()
      modifies this`field, this`flags, this`uncovered, this`fieldState
      ensures r == if old(field).IsEmpty() then Pass else Fail(InvalidOperation)
      ensures r.Fail? ==> unchanged(this)
      ensures Valid()
      ensures r.Pass? ==> field == Size(grid.Length0, grid.Length1) && fieldState == grid
      ensures r.Pass? ==> flags == ParsedFlags(field, FieldStateConverter.Rows(grid))
      ensures r.Pass? ==> uncovered == ParsedUncovered(field, FieldStateConverter.Rows(grid))
      ensures r.Pass? ==> (CacheFresh() <==>
        forall x, y :: 0 <= x < grid.Length0 && 0 <= y < grid.Length1 ==> Canonical(grid[x, y]))
    {
      r := SetGameState(grid);
      if r.Fail? {
        return;
      }
      fieldState := grid;
      ghost var rows := FieldStateConverter.Rows(grid);
      RenderParse(field, rows);
      CanonicalRows(grid);
    }

    /** `SetGameState`: only an empty game accepts a grid; the field takes the grid's
        size, '#' and '?' become flags, digits become uncovered values, and every other
        character, 'X' included, is dropped. */
    method SetGameState(grid: array2<char>) returns (r: Outcome<Error>)
      requires Valid()
      modifies this`field, this`flags, this`uncovered
      ensures r == if old(field).IsEmpty() then Pass else Fail(InvalidOperation)
      ensures r.Fail? ==> unchanged(this)
      ensures Valid()
      ensures r.Pass? ==> field == Size(grid.Length0, grid.Length1)
      ensures r.Pass? ==> Rectangular(field, FieldStateConverter.Rows(grid))
      ensures r.Pass? ==> flags == ParsedFlags(field, FieldStateConverter.Rows(grid))
      ensures r.Pass? ==> uncovered == ParsedUncovered(field, FieldStateConverter.Rows(grid))
    {
      if !field.IsEmpty() {
        return Fail(InvalidOperation);
      }
      assert forall m :: m !in mines;
      field := Size(grid.Length0, grid.Length1);
      flags, uncovered := ScanGrid(grid);
      r := Pass;
      ghost var rows := FieldStateConverter.Rows(grid);
      ReadAll(field, rows);
      assert rows == FieldStateConverter.Rows(grid);
    }

    /** `Move`: the four guards first, with nothing changed when one fails; then one more
        move, an exposed field on a mine (Lose), the flood from the position, and Win as
        soon as the uncovered count equals W*H minus the listed mines, even after a Lose. */
    method Move(position: Point) returns (r: Outcome<Error>, ghost order: seq<Point>)
      requires Valid()
      modifies this`moves, this`result, this`uncovered, this`fieldState
      ensures Valid()
      ensures r == if old(result).Some? then Fail(InvalidOperation)
                   else if position in old(uncovered) || position in flags || !InField(field, position)
                   then Fail(Argument)
                   else Pass
      ensures r.Fail? ==> unchanged(this)
      ensures r.Pass? ==> moves == old(moves) + 1 && fieldState == null
      ensures r.Pass? && position in mines ==> uncovered == old(uncovered) + Exposed(mines) && order == []
      ensures r.Pass? && position !in mines ==>
        Flooded(field, mines, flags, old(uncovered), uncovered, position, order)
      ensures r.Pass? ==> result == (if field.width * field.height - |mines| == |uncovered| then Some(Win)
                                     else if position in mines then Some(Lose) else None)
    {
      order := [];
      if result.Some? {
        return Fail(InvalidOperation), order;
      }
      if position in uncovered {
        return Fail(Argument), order;
      }
      if position in flags {
        return Fail(Argument), order;
      }
      if !IsInField(position) {
        return Fail(Argument), order;
      }
      order := Play(position);
      r := Pass;
    }

    /** The part of `Move` after its guards. */
    method Play(position: Point) returns (ghost order: seq<Point>)
      requires Valid() && result.None?
      requires position !in uncovered && position !in flags && InField(field, position)
      modifies this`moves, this`result, this`uncovered, this`fieldState
      ensures Valid()
      ensures moves == old(moves) + 1 && fieldState == null
      ensures position in mines ==> uncovered == old(uncovered) + Exposed(mines) && order == []
      ensures position !in mines ==> Flooded(field, mines, flags, old(uncovered), uncovered, position, order)
      ensures result == (if field.width * field.height - |mines| == |uncovered| then Some(Win)
                         else if position in mines then Some(Lose) else None)
    {
      moves := moves + 1;
      fieldState := null;
      if position in mines {
        result := Some(Lose);
        ExposeMines();
      }
      ghost var before := uncovered;
      order := Uncover(position);
      AddsUnflagged(field, mines, flags, before, uncovered, position, order);
      if position in mines {
        assert uncovered == before;
      }
      if field.width * field.height - |mines| == |uncovered| {
        result := Some(Win);
      }
    }

    /** Losing uncovers every listed mine as an exposed mine. */
    method ExposeMines()
      requires Valid()
      modifies this`uncovered
      ensures Valid()
      ensures uncovered == old(uncovered) + Exposed(mines)
    {
      var i := 0;
      while i < |mines|
        invariant 0 <= i <= |mines|
        invariant uncovered == old(uncovered) + Exposed(mines[..i])
      {
        assert mines[..i + 1] == mines[..i] + [mines[i]];
        uncovered := uncovered[mines[i] := Mine];
        i := i + 1;
      }
      assert mines[..i] == mines;
    }

    /** `Flag`: rejects a finished game, the same kind twice, an uncovered position and a
        position outside the field; otherwise sets, replaces or clears the flag. */
    method Flag(position: Point, kind: Option<FlagKind>) returns (r: Outcome<Error>)
      requires Valid()
      modifies this`flags, this`fieldState
      ensures Valid()
      ensures r == if result.Some? then Fail(InvalidOperation)
                   else if kind.Some? && position in old(flags) && old(flags)[position] == kind.value
                   then Fail(Argument)
                   else if position in uncovered || !InField(field, position) then Fail(Argument)
                   else Pass
      ensures r.Fail? ==> unchanged(this)
      ensures r.Pass? ==> fieldState == null
      ensures r.Pass? ==> flags == (if kind.Some? then old(flags)[position := kind.value]
                                    else old(flags) - {position})
    {
      if result.Some? {
        return Fail(InvalidOperation);
      }
      if kind.Some? && position in flags && flags[position] == kind.value {
        return Fail(Argument);
      }
      if position in uncovered {
        return Fail(Argument);
      }
      if !IsInField(position) {
        return Fail(Argument);
      }
      fieldState := null;
      if kind.Some? {
        flags := flags[position := kind.value];
      } else if position in flags {
        flags := flags - {position};
      }
      r := Pass;
    }

    /** `Uncover`: records the position's warning count unless it is flagged or uncovered,
        and when the count is 0 goes on with its neighbours in the field. */
    method Uncover(position: Point) returns (ghost order: seq<Point>)
      requires InField(field, position)
      modifies this`uncovered
      ensures Flooded(field, mines, flags, old(uncovered), uncovered, position, order)
      decreases |Cells(field) - uncovered.Keys|
    {
      if position in flags {
        return [];
      }
      if position in uncovered {
        return [];
      }
      var warning := GetWarningCount(position).value;
      ghost var before := uncovered;
      Start(field, mines, flags, before, position);
      uncovered := uncovered[position := warning];
      order := [position];
      if warning > 0 {
        return;
      }
      ghost var bound := |Cells(field) - uncovered.Keys|;
      assert Cells(field) - before.Keys == (Cells(field) - uncovered.Keys) + {position};
      var neighbours := Neighbours(field, position);
      var i := 0;
      while i < |neighbours|
        invariant 0 <= i <= |neighbours|
        invariant Spreading(field, mines, flags, before, uncovered, position, order)
        invariant forall k :: 0 <= k < i ==> neighbours[k] in uncovered || neighbours[k] in flags
        invariant |Cells(field) - uncovered.Keys| <= bound
      {
        var n := neighbours[i];
        ghost var mid := uncovered;
        var sub := Uncover(n);
        Extend(field, mines, flags, before, mid, uncovered, position, order, n, sub);
        KeysGrow(mid, uncovered);
        SubsetCard(Cells(field) - uncovered.Keys, Cells(field) - mid.Keys);
        CoveredStep(neighbours, i, mid, uncovered, flags);
        order := order + sub;
        i := i + 1;
      }
      Finish(field, mines, flags, before, uncovered, position, order);
    }
  }
}
