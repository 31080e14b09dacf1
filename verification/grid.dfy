/** The grid-of-characters view of a game's state: how one cell is rendered
    (Game.GenerateFieldState) and how a character is read back (Game.SetGameState),
    in Minesweeper/Model/Game.cs. Rows are indexed by y, characters within a row by x. */
module Grid {
  import opened Wrappers
  import opened Types
  import Numbers

  function FlagChar(kind: FlagKind): char {
    if kind == RedFlag then '#' else '?'
  }

  /** `value == Mine ? 'X' : $"{value}"[0]`: the first decimal digit of any other value. */
  function ValueChar(v: Byte): char {
    if v == Mine then 'X' else Numbers.DigitsText(v)[0]
  }

  /** A flag takes precedence over an uncovered value; '.' marks a covered cell. */
  function RenderCell(flags: map<Point, FlagKind>, uncovered: map<Point, Byte>, p: Point): char {
    if p in flags then FlagChar(flags[p])
    else if p in uncovered then ValueChar(uncovered[p])
    else '.'
  }

  /** The rendered rows y = 0..height-1, each holding the cells x = 0..width-1. */
  function RenderRows(field: Size, flags: map<Point, FlagKind>, uncovered: map<Point, Byte>): seq<string>
    requires field.width >= 0 && field.height >= 0
  {
    seq(field.height, y =>
      seq(field.width, x => RenderCell(flags, uncovered, Point(x, y))))
  }

  /** `rows` holds `height` rows of `width` characters. */
  predicate Rectangular(field: Size, rows: seq<string>) {
    |rows| == field.height && forall y :: 0 <= y < |rows| ==> |rows[y]| == field.width
  }

  function ParseFlag(c: char): Option<FlagKind> {
    if c == '#' then Some(RedFlag) else if c == '?' then Some(Tentative) else None
  }

  /** A digit is an uncovered cell holding its value; every other character is not. */
  function ParseValue(c: char): Option<Byte> {
    if Numbers.IsDigit(c) then Some(c as int - '0' as int) else None
  }

  /** The flags a grid describes. */
  function ParsedFlags(field: Size, rows: seq<string>): map<Point, FlagKind>
    requires Rectangular(field, rows)
  {
    map p | p in Cells(field) && ParseFlag(rows[p.y][p.x]).Some? :: ParseFlag(rows[p.y][p.x]).value
  }

  /** The uncovered values a grid describes; 'X' and '.' (and any other character) give none. */
  function ParsedUncovered(field: Size, rows: seq<string>): map<Point, Byte>
    requires Rectangular(field, rows)
  {
    map p | p in Cells(field) && ParseValue(rows[p.y][p.x]).Some? :: ParseValue(rows[p.y][p.x]).value
  }

  /** A character that reads back as what it says: '.', '#', '?' or a digit. */
  predicate Canonical(c: char) {
    c == '.' || c == '#' || c == '?' || Numbers.IsDigit(c)
  }

  /** Values up to 9 render as their own digit and read back as themselves. */
  lemma DigitValue(v: Byte)
    requires v <= 9
    ensures ValueChar(v) == Numbers.DigitChar(v)
    ensures ParseValue(ValueChar(v)) == Some(v)
  {
  }

  /** Reading one rendered cell gives back its flag, or its value when it is neither
      flagged nor an exposed mine. */
  lemma ParseCell(flags: map<Point, FlagKind>, uncovered: map<Point, Byte>, p: Point)
    requires p in uncovered ==> uncovered[p] <= 9 || uncovered[p] == Mine
    ensures ParseFlag(RenderCell(flags, uncovered, p)) == if p in flags then Some(flags[p]) else None
    ensures ParseValue(RenderCell(flags, uncovered, p)) ==
      if p !in flags && p in uncovered && uncovered[p] != Mine then Some(uncovered[p]) else None
  {
    if p !in flags && p in uncovered && uncovered[p] != Mine {
      DigitValue(uncovered[p]);
    }
  }

  /** Reading a rendered grid gives back every in-field flag, and every in-field
      uncovered value that is neither flagged nor an exposed mine; an exposed mine
      ('X') reads back as covered. */
  lemma ParseRender(field: Size, flags: map<Point, FlagKind>, uncovered: map<Point, Byte>)
    requires field.width >= 0 && field.height >= 0
    requires forall p :: p in uncovered ==> uncovered[p] <= 9 || uncovered[p] == Mine
    ensures Rectangular(field, RenderRows(field, flags, uncovered))
    ensures ParsedFlags(field, RenderRows(field, flags, uncovered))
         == map p | p in flags && InField(field, p) :: flags[p]
    ensures ParsedUncovered(field, RenderRows(field, flags, uncovered))
         == map p | p in uncovered && InField(field, p) && p !in flags && uncovered[p] != Mine :: uncovered[p]
  {
    var rows := RenderRows(field, flags, uncovered);
    forall p | InField(field, p)
      ensures ParseFlag(rows[p.y][p.x]) == if p in flags then Some(flags[p]) else None
      ensures ParseValue(rows[p.y][p.x]) ==
        if p !in flags && p in uncovered && uncovered[p] != Mine then Some(uncovered[p]) else None
    {
      assert rows[p.y][p.x] == RenderCell(flags, uncovered, p);
      ParseCell(flags, uncovered, p);
    }
    FlagsOfCells(field, rows, flags);
    ValuesOfCells(field, rows, flags, uncovered);
  }

  /** The flags parsed from rows whose characters each stand for a cell's flag. */
  lemma FlagsOfCells(field: Size, rows: seq<string>, flags: map<Point, FlagKind>)
    requires Rectangular(field, rows)
    requires forall p :: InField(field, p) ==>
      (ParseFlag(rows[p.y][p.x]) == if p in flags then Some(flags[p]) else None)
    ensures ParsedFlags(field, rows) == map p | p in flags && InField(field, p) :: flags[p]
  {
  }

  /** The values parsed from rows whose characters each stand for a cell's value. */
  lemma ValuesOfCells(field: Size, rows: seq<string>, flags: map<Point, FlagKind>, uncovered: map<Point, Byte>)
    requires Rectangular(field, rows)
    requires forall p :: InField(field, p) ==> (ParseValue(rows[p.y][p.x]) ==
      if p !in flags && p in uncovered && uncovered[p] != Mine then Some(uncovered[p]) else None)
    ensures ParsedUncovered(field, rows)
         == map p | p in uncovered && InField(field, p) && p !in flags && uncovered[p] != Mine :: uncovered[p]
  {
  }

  /** With flags and uncovered values inside the field, apart from each other and
      below 10, reading the rendered grid reproduces both maps exactly. */
  lemma RoundTrip(field: Size, flags: map<Point, FlagKind>, uncovered: map<Point, Byte>)
    requires field.width >= 0 && field.height >= 0
    requires forall p :: p in flags ==> InField(field, p)
    requires forall p :: p in uncovered ==> InField(field, p) && p !in flags && uncovered[p] <= 9
    ensures Rectangular(field, RenderRows(field, flags, uncovered))
    ensures ParsedFlags(field, RenderRows(field, flags, uncovered)) == flags
    ensures ParsedUncovered(field, RenderRows(field, flags, uncovered)) == uncovered
  {
    ParseRender(field, flags, uncovered);
  }

  /** Rendering what a grid reads as gives the grid back exactly when every character
      is '.', '#', '?' or a digit. */
  lemma RenderParse(field: Size, rows: seq<string>)
    requires field.width >= 0 && field.height >= 0 && Rectangular(field, rows)
    ensures RenderRows(field, ParsedFlags(field, rows), ParsedUncovered(field, rows)) == rows
        <==> forall y, x :: 0 <= y < |rows| && 0 <= x < |rows[y]| ==> Canonical(rows[y][x])
  {
    var flags := ParsedFlags(field, rows);
    var uncovered := ParsedUncovered(field, rows);
    var back := RenderRows(field, flags, uncovered);
    forall y, x | 0 <= y < |rows| && 0 <= x < |rows[y]|
      ensures back[y][x] == rows[y][x] <==> Canonical(rows[y][x])
    {
      var c := rows[y][x];
      var p := Point(x, y);
      assert p in Cells(field);
      if Numbers.IsDigit(c) {
        DigitValue(c as int - '0' as int);
      }
    }
    if forall y, x :: 0 <= y < |rows| && 0 <= x < |rows[y]| ==> Canonical(rows[y][x]) {
      forall y | 0 <= y < |rows| ensures back[y] == rows[y] {
        assert forall x :: 0 <= x < |rows[y]| ==> back[y][x] == rows[y][x];
      }
    }
  }
}
