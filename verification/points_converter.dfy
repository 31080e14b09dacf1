/** The persistence conversion of a point list to "XxY;XxY" text and back
    (Minesweeper/Data/Mapping/PointsConverter.cs). */
module PointsConverter {
  import opened Wrappers
  import opened Types
  import Text
  import Numbers

  /** The token written for one point: "{X}x{Y}". */
  function PointToken(p: Point): string {
    Numbers.PairText(p.x, p.y)
  }

  /** The tokens of a point list, in list order. */
  function Tokens(points: seq<Point>): (tokens: seq<string>)
    ensures |tokens| == |points|
    ensures forall i :: 0 <= i < |points| ==> tokens[i] == PointToken(points[i])
  {
    seq(|points|, i requires 0 <= i < |points| => PointToken(points[i]))
  }

  /** model -> db: one token per point, in list order, joined by ';'. */
  function ToText(points: seq<Point>): string {
    Text.Join(Tokens(points), ";")
  }

  /** One token read back as a point. */
  function ParsePoint(token: string): Result<Point, Error> {
    var pair :- Numbers.ParsePair(token);
    Success(Point(pair.0, pair.1))
  }

  /** The tokens read in order; the first token that fails decides the error (`ToList()`). */
  function ParsePoints(tokens: seq<string>): (r: Result<seq<Point>, Error>)
    ensures r.Success? ==> |r.value| == |tokens|
  {
    if |tokens| == 0 then Success([])
    else
      var p :- ParsePoint(tokens[0]);
      var rest :- ParsePoints(tokens[1..]);
      Success([p] + rest)
  }

  /** db -> model: split on ';' and read every token. */
  function FromText(text: string): Result<seq<Point>, Error> {
    ParsePoints(Text.Split(text, ";"))
  }

  predicate InInt32(points: seq<Point>) {
    forall i :: 0 <= i < |points| ==> IsInt32(points[i].x) && IsInt32(points[i].y)
  }

  lemma {:induction false} ParseTokens(points: seq<Point>)
    requires InInt32(points)
    ensures ParsePoints(Tokens(points)) == Success(points)
    decreases |points|
  {
    if |points| > 0 {
      Numbers.ParsePairText(points[0].x, points[0].y);
      TokensTail(points);
      assert InInt32(points[1..]);
      ParseTokens(points[1..]);
      ParseCons(Tokens(points), points);
    }
  }

  lemma TokensTail(points: seq<Point>)
    requires |points| > 0
    ensures Tokens(points)[1..] == Tokens(points[1..])
  {
  }

  /** The first token read and the rest read give the whole list. */
  lemma ParseCons(tokens: seq<string>, points: seq<Point>)
    requires |tokens| > 0 && |points| > 0
    requires ParsePoint(tokens[0]) == Success(points[0])
    requires ParsePoints(tokens[1..]) == Success(points[1..])
    ensures ParsePoints(tokens) == Success(points)
  {
    assert ParsePoints(tokens) == Success([points[0]] + points[1..]);
    HeadTail(points);
  }

  /** Reading written text gives back the same points, in the same order and with the
      same repetitions, for every non-empty list. */
  lemma RoundTrip(points: seq<Point>)
    requires |points| >= 1 && InInt32(points)
    ensures FromText(ToText(points)) == Success(points)
  {
    var tokens := Tokens(points);
    forall i | 0 <= i < |tokens|
      ensures Text.FreeOf(tokens[i], ";")
    {
      Numbers.IntTextPlain(points[i].x);
      Numbers.IntTextPlain(points[i].y);
    }
    Text.SplitJoin(tokens, ";");
    ParseTokens(points);
  }

  /** The empty list is written as "", which does not read back: `int.Parse("")` fails. */
  lemma EmptyListDoesNotRoundTrip()
    ensures ToText([]) == ""
    ensures FromText("") == Failure(Format)
  {
    assert Text.Join([""], ";") == "";
    Text.SplitJoin([""], ";");
    assert Text.Split("", "x") == [""] by {
      assert Text.Join([""], "x") == "";
      Text.SplitJoin([""], "x");
    }
  }

  /** A token without an 'x' fails; fields after the second are ignored. */
  lemma TokenShape(a: string, b: string, rest: string)
    requires forall i :: 0 <= i < |a| ==> a[i] != 'x'
    requires forall i :: 0 <= i < |b| ==> b[i] != 'x'
    ensures ParsePoint(a).Failure?
    ensures ParsePoint(a + "x" + b + "x" + rest) == ParsePoint(a + "x" + b)
  {
    Numbers.ParsePairNeedsSeparator(a);
    Numbers.ParsePairIgnoresExtra(a, b, rest);
  }
}
