/** Conversion of the char grid to multi-line text and back
    (Minesweeper/Model/FieldStateConverter.cs). The grid is indexed [x, y]. */
module FieldStateConverter {
  import opened Wrappers
  import opened Types
  import opened Text

  /** The rows of a grid: row y holds grid[0, y] .. grid[Length0 - 1, y]. */
  ghost function Rows(grid: array2<char>): (rows: seq<string>)
    reads grid
    ensures |rows| == grid.Length1
    ensures forall y :: 0 <= y < |rows| ==> |rows[y]| == grid.Length0
    ensures forall y, x :: 0 <= y < grid.Length1 && 0 <= x < grid.Length0 ==> rows[y][x] == grid[x, y]
  {
    seq(grid.Length1, (y: int) reads grid requires 0 <= y < grid.Length1 =>
      seq(grid.Length0, (x: int) reads grid requires 0 <= x < grid.Length0 => grid[x, y]))
  }

  /** `GetString`: rows y = 0..height-1 of characters x = 0..width-1, with a line
      break between two rows and none after the last. */
  method GetString(src: array2<char>) returns (s: string)
    ensures s == Join(Rows(src), CrLf)
  {
    ghost var rows := Rows(src);
    s := "";
    var y := 0;
    while y < src.Length1
      invariant 0 <= y <= src.Length1
      invariant s == JoinedPrefix(rows, y, CrLf)
    {
      ghost var before := s;
      var x := 0;
      while x < src.Length0
        invariant 0 <= x <= src.Length0
        invariant s == before + rows[y][..x]
      {
        s := s + [src[x, y]];
        x := x + 1;
      }
      assert rows[y][..x] == rows[y];
      JoinedPrefixNext(rows, y, CrLf, s);
      if y < src.Length1 - 1 {
        s := s + CrLf;
      }
      y := y + 1;
    }
    JoinedPrefixAll(rows, CrLf);
  }

  /** What `GetCharGrid` reads from a text: the lines split at "\r\n", each cut to the
      length of the first; none when a later line is shorter than the first. */
  function ParseRows(src: string): (r: Option<seq<string>>)
  {
    var lines := Split(src, CrLf);
    var width := |lines[0]|;
    if forall y :: 0 <= y < |lines| ==> width <= |lines[y]|
    then Some(seq(|lines|, (y: int) requires 0 <= y < |lines| => lines[y][..width]))
    else None
  }

  /** `GetCharGrid`: a grid as wide as the first line and as high as the number of lines;
      a later line shorter than the first runs out of range. */
  method GetCharGrid(src: string) returns (r: Result<array2<char>, Error>)
    ensures r.Success? <==> ParseRows(src).Some?
    ensures r.Failure? ==> r.error == IndexOutOfRange
    ensures r.Success? ==> fresh(r.value) && Rows(r.value) == ParseRows(src).value
    ensures r.Success? ==> r.value.Length0 == |Split(src, CrLf)[0]| && r.value.Length1 == |Split(src, CrLf)|
  {
    var lines := Split(src, CrLf);
    var width := |lines[0]|;
    var result := new char[width, |lines|];
    var y := 0;
    while y < |lines|
      invariant 0 <= y <= |lines|
      invariant forall k :: 0 <= k < y ==> width <= |lines[k]|
      invariant forall k, x :: 0 <= k < y && 0 <= x < width ==> result[x, k] == lines[k][x]
    {
      var x := 0;
      while x < width
        invariant 0 <= x <= width
        invariant x > 0 ==> x <= |lines[y]|
        invariant forall k, i :: 0 <= k < y && 0 <= i < width ==> result[i, k] == lines[k][i]
        invariant forall i :: 0 <= i < x ==> result[i, y] == lines[y][i]
      {
        if x >= |lines[y]| {
          return Failure(IndexOutOfRange);
        }
        result[x, y] := lines[y][x];
        x := x + 1;
      }
      y := y + 1;
    }
    r := Success(result);
    ghost var parsed := ParseRows(src).value;
    assert forall k | 0 <= k < |lines| :: Rows(result)[k] == parsed[k];
  }

  /** Two lines break the grid when the later one is shorter than the first. */
  lemma ParseRowsFails(src: string)
    ensures var lines := Split(src, CrLf);
      ParseRows(src).None? <==> exists y :: 0 <= y < |lines| && |lines[y]| < |lines[0]|
  {
  }

  /** A grid of at least one row, without '\r' in any cell, reads back as itself. */
  lemma ParseJoin(rows: seq<string>)
    requires |rows| >= 1
    requires forall y :: 0 <= y < |rows| ==> |rows[y]| == |rows[0]|
    requires forall y, x :: 0 <= y < |rows| && 0 <= x < |rows[y]| ==> rows[y][x] != '\r'
    ensures ParseRows(Join(rows, CrLf)) == Some(rows)
  {
    assert forall y :: 0 <= y < |rows| ==> FreeOf(rows[y], CrLf);
    SplitJoin(rows, CrLf);
    var width := |rows[0]|;
    assert forall y :: 0 <= y < |rows| ==> rows[y][..width] == rows[y];
    assert ParseRows(Join(rows, CrLf)).value == rows;
  }

  /** Text whose lines all have the same length is written back exactly as it was read. */
  lemma JoinParse(src: string)
    requires var lines := Split(src, CrLf);
      forall y :: 0 <= y < |lines| ==> |lines[y]| == |lines[0]|
    ensures ParseRows(src).Some? && Join(ParseRows(src).value, CrLf) == src
  {
    var lines := Split(src, CrLf);
    assert forall y :: 0 <= y < |lines| ==> lines[y][..|lines[0]|] == lines[y];
    assert ParseRows(src).value == lines;
    JoinSplit(src, CrLf);
  }

  /** Lines longer than the first are cut without notice. */
  lemma Truncates()
    ensures ParseRows("ab\r\nabc") == Some(["ab", "ab"])
  {
    TwoLines();
    var lines := Split("ab\r\nabc", CrLf);
    assert lines[1][..2] == "ab";
    assert forall y :: 0 <= y < |lines| ==> |lines[0]| <= |lines[y]|;
    assert ParseRows("ab\r\nabc").Some?;
    var parsed := ParseRows("ab\r\nabc").value;
    assert |parsed| == 2 && parsed[0] == "ab" && parsed[1] == "ab";
    assert parsed == ["ab", "ab"];
  }

  /** The text of Truncates has two lines. */
  lemma TwoLines()
    ensures Split("ab\r\nabc", CrLf) == ["ab", "abc"]
  {
    assert FreeOf("ab", CrLf) && FreeOf("abc", CrLf);
    SplitJoin(["ab", "abc"], CrLf);
    assert Join(["ab", "abc"], CrLf) == "ab\r\nabc";
  }

  /** A grid with no rows is written as "", which reads back as one empty row:
      the round trip needs at least one row. */
  lemma NoRows()
    ensures Join([], CrLf) == ""
    ensures ParseRows("") == Some([""])
  {
    assert Split("", CrLf) == [""];
    assert ParseRows("").value == [""];
  }

  /** The written text holds width*height characters and two per line break. */
  lemma WrittenLength(rows: seq<string>, width: nat)
    requires |rows| >= 1
    requires forall y :: 0 <= y < |rows| ==> |rows[y]| == width
    ensures |Join(rows, CrLf)| == width * |rows| + 2 * (|rows| - 1)
  {
    JoinUniformLength(rows, CrLf, width);
  }
}
