/** Whole games played on the model, each ending in a state the engine promises. */
module Scenarios {
  import opened Wrappers
  import opened Types
  import opened Warnings
  import opened Flood
  import opened Model

  /** The 3x1 game with its one mine in the middle, no flags, no result yet and the
      given uncovered cells. */
  predicate ThreeByOne(game: Game, uncovered: map<Point, Byte>)
    reads game
  {
    game.Valid() && game.field == Size(3, 1) && game.mines == [Point(1, 0)] &&
    game.flags == map[] && game.uncovered == uncovered && game.result == None
  }

  /** On a 3x1 field whose middle cell is the mine, stepping on x = 0 and then on the
      mine loses the game, yet the win check that follows finds 3 - 1 = 2 uncovered
      cells and turns the result into Win. */
  method LoseThenWin() returns (r: Option<GameResult>)
    ensures r == Some(Win)
  {
    var game := new Game.Init(Size(3, 1), [Point(1, 0)]);
    StepBesideMine(game);
    StepOnMine(game);
    r := game.result;
  }

  /** x = 0 has the mine next to it, so the first move uncovers it alone, with count 1. */
  method StepBesideMine(game: Game)
    requires ThreeByOne(game, map[])
    modifies game
    ensures ThreeByOne(game, map[Point(0, 0) := 1])
  {
    OneMineNear();
    assert game.field.width * game.field.height - |game.mines| == 2;
    var first, order := game.Move(Point(0, 0));
    StopsAtWarning(game.field, game.mines, game.flags, map[], game.uncovered, Point(0, 0), order);
  }

  /** The mine exposes itself: 2 cells uncovered, and 3 - 1 of them are needed to win. */
  method StepOnMine(game: Game)
    requires ThreeByOne(game, map[Point(0, 0) := 1])
    modifies game
    ensures game.result == Some(Win)
  {
    Exposing(map[Point(0, 0) := 1]);
    assert game.field.width * game.field.height - |game.mines| == 2;
    var second, none := game.Move(Point(1, 0));
  }

  /** Stepping on the mine as the first move uncovers the mine alone and loses. */
  method IntoMine() returns (uncovered: map<Point, Byte>, r: Option<GameResult>, moves: int)
    ensures uncovered == map[Point(1, 0) := Mine]
    ensures r == Some(Lose) && moves == 1
  {
    var game := new Game.Init(Size(3, 1), [Point(1, 0)]);
    Exposing(map[]);
    assert game.field.width * game.field.height - |game.mines| == 2;
    var outcome, order := game.Move(Point(1, 0));
    uncovered, r, moves := game.uncovered, game.result, game.moves;
  }

  /** The mine is next to x = 0. */
  lemma OneMineNear()
    ensures WarningCount([Point(1, 0)], Point(0, 0)) == 1
  {
    assert [Point(1, 0)][..0] == [];
  }

  /** Exposing the one mine adds exactly the mine's cell to what was uncovered. */
  lemma Exposing(before: map<Point, Byte>)
    requires Point(1, 0) !in before
    ensures before + Exposed([Point(1, 0)]) == before[Point(1, 0) := Mine]
    ensures |before + Exposed([Point(1, 0)])| == |before| + 1
  {
    ExposedOne();
    assert before + map[Point(1, 0) := Mine] == before[Point(1, 0) := Mine];
  }

  /** The one mine exposed. */
  lemma ExposedOne()
    ensures Exposed([Point(1, 0)]) == map[Point(1, 0) := Mine]
  {
    assert Exposed([Point(1, 0)]).Keys == {Point(1, 0)};
  }
}
