/** FieldDataResolver.Resolve (Minesweeper/Dto/Profiles/FieldDataResolver.cs): the text
    the client receives for the uncovered map of a game. */
module FieldDataResolver {
  import opened Types
  import opened Text
  import Numbers
  import Grid
  import Model

  /** 'X' for an exposed mine, the full decimal text of any other value, '.' when absent. */
  function CellText(data: map<Point, Byte>, p: Point): string {
    if p in data then (if data[p] == Mine then "X" else Numbers.DigitsText(data[p])) else "."
  }

  /** The cells x = 0..width-1 of row y, one after the other. */
  function RowText(data: map<Point, Byte>, y: int, width: nat): string {
    if width == 0 then "" else RowText(data, y, width - 1) + CellText(data, Point(width - 1, y))
  }

  /** The rows y = 0..height-1 of a field. */
  function ResolveRows(field: Size, data: map<Point, Byte>): (rows: seq<string>)
    requires field.width >= 0 && field.height >= 0
    ensures |rows| == field.height
  {
    seq(field.height, y => RowText(data, y, field.width))
  }

  /** `Resolve`: the rows of the source's field, with a line break between two rows. */
  method Resolve(source: Model.Game, sourceMember: map<Point, Byte>) returns (s: string)
    requires source.Valid()
    ensures s == Join(ResolveRows(source.field, sourceMember), CrLf)
  {
    var field := source.field;
    ghost var rows := ResolveRows(field, sourceMember);
    s := "";
    var y := 0;
    while y < field.height
      invariant 0 <= y <= field.height
      invariant s == JoinedPrefix(rows, y, CrLf)
    {
      ghost var before := s;
      var x := 0;
      while x < field.width
        invariant 0 <= x <= field.width
        invariant s == before + RowText(sourceMember, y, x)
      {
        var p := Point(x, y);
        var piece;
        if p in sourceMember {
          var value := sourceMember[p];
          if value == Mine {
            piece := "X";
          } else {
            piece := Numbers.DigitsText(value);
          }
        } else {
          piece := ".";
        }
        RowStep(before, sourceMember, y, x);
        s := s + piece;
        x := x + 1;
      }
      assert rows[y] == RowText(sourceMember, y, field.width);
      JoinedPrefixNext(rows, y, CrLf, s);
      if y < field.height - 1 {
        s := s + CrLf;
      }
      y := y + 1;
    }
    JoinedPrefixAll(rows, CrLf);
  }

  /** Writing the cell at x extends the text of row y by one cell. */
  lemma RowStep(before: string, data: map<Point, Byte>, y: int, x: nat)
    ensures before + RowText(data, y, x) + CellText(data, Point(x, y)) == before + RowText(data, y, x + 1)
  {
  }

  /** No cell text contains the line separator's first character. */
  lemma {:induction false} RowFree(data: map<Point, Byte>, y: int, width: nat)
    ensures FreeOf(RowText(data, y, width), CrLf)
  {
    if width > 0 {
      RowFree(data, y, width - 1);
      var p := Point(width - 1, y);
      if p in data && data[p] != Mine {
        var digits := Numbers.DigitsText(data[p]);
        assert forall i :: 0 <= i < |digits| ==> Numbers.IsDigit(digits[i]);
      }
    }
  }

  /** A field of height at least 1 gives one line per row when the text is split at
      line breaks. */
  lemma Lines(field: Size, data: map<Point, Byte>)
    requires field.width >= 0 && field.height >= 1
    ensures Split(Join(ResolveRows(field, data), CrLf), CrLf) == ResolveRows(field, data)
    ensures |Split(Join(ResolveRows(field, data), CrLf), CrLf)| == field.height
  {
    var rows := ResolveRows(field, data);
    forall y | 0 <= y < |rows| ensures FreeOf(rows[y], CrLf) {
      RowFree(data, y, field.width);
    }
    SplitJoin(rows, CrLf);
  }

  /** With no entries every row is `width` dots. */
  lemma {:induction false} EmptyRow(y: int, width: nat)
    ensures RowText(map[], y, width) == seq(width, _ => '.')
  {
    if width > 0 {
      EmptyRow(y, width - 1);
      assert seq(width, _ => '.') == seq(width - 1, _ => '.') + ".";
    }
  }

  /** Entries outside the row's first `width` cells do not change it. */
  lemma {:induction false} RowIgnoresOthers(data: map<Point, Byte>, other: map<Point, Byte>, y: int, width: nat)
    requires forall x :: 0 <= x < width ==> (Point(x, y) in data <==> Point(x, y) in other)
    requires forall x :: 0 <= x < width && Point(x, y) in data ==> data[Point(x, y)] == other[Point(x, y)]
    ensures RowText(data, y, width) == RowText(other, y, width)
  {
    if width > 0 {
      RowIgnoresOthers(data, other, y, width - 1);
    }
  }

  /** Only entries inside the field are read: dropping the others changes nothing. */
  lemma IgnoresOutside(field: Size, data: map<Point, Byte>)
    requires field.width >= 0 && field.height >= 0
    ensures ResolveRows(field, data) == ResolveRows(field, map p | p in data && InField(field, p) :: data[p])
  {
    var inside := map p | p in data && InField(field, p) :: data[p];
    forall y | 0 <= y < field.height ensures RowText(data, y, field.width) == RowText(inside, y, field.width) {
      RowIgnoresOthers(data, inside, y, field.width);
    }
  }

  /** With values up to 9 or exposed mines, a row is the rendered row of a game with
      these uncovered cells and no flags. */
  lemma {:induction false} RowRendered(data: map<Point, Byte>, y: int, width: nat)
    requires forall p :: p in data ==> data[p] <= 9 || data[p] == Mine
    ensures RowText(data, y, width) == seq(width, x => Grid.RenderCell(map[], data, Point(x, y)))
  {
    if width > 0 {
      RowRendered(data, y, width - 1);
      var p := Point(width - 1, y);
      if p in data && data[p] != Mine {
        Grid.DigitValue(data[p]);
      }
      assert seq(width, x => Grid.RenderCell(map[], data, Point(x, y)))
          == seq(width - 1, x => Grid.RenderCell(map[], data, Point(x, y))) + [Grid.RenderCell(map[], data, p)];
    }
  }

  /** With values up to 9 or exposed mines, the resolved text is the text of the rendered
      grid of a game with these uncovered cells and no flags. */
  lemma MatchesRender(field: Size, data: map<Point, Byte>)
    requires field.width >= 0 && field.height >= 0
    requires forall p :: p in data ==> data[p] <= 9 || data[p] == Mine
    ensures ResolveRows(field, data) == Grid.RenderRows(field, map[], data)
  {
    forall y | 0 <= y < field.height
      ensures RowText(data, y, field.width) == Grid.RenderRows(field, map[], data)[y]
    {
      RowRendered(data, y, field.width);
    }
  }
}
