/** The warning count of a position: how many mines lie in the 3x3 block around it
    (Game.GetWarningCount in Minesweeper/Model/Game.cs). */
module Warnings {
  import opened Types

  /** The mine lies in the 3x3 block centred on `p`, the cell itself included. */
  predicate Near(m: Point, p: Point) {
    m.x >= p.x - 1 && m.x <= p.x + 1 && m.y >= p.y - 1 && m.y <= p.y + 1
  }

  /** `Mines.Count(m => Near(m, p))`: every entry of the list counts, repeated ones too. */
  function CountNear(mines: seq<Point>, p: Point): (n: nat)
    ensures n <= |mines|
  {
    if |mines| == 0 then 0
    else CountNear(mines[..|mines| - 1], p) + (if Near(mines[|mines| - 1], p) then 1 else 0)
  }

  /** The count after the `(byte)` cast of GetWarningCount. */
  function WarningCount(mines: seq<Point>, p: Point): Byte {
    CountNear(mines, p) % 256
  }

  /** The positions of the mine list whose entry lies near `p`. */
  function NearIndices(mines: seq<Point>, p: Point): set<int> {
    set i | 0 <= i < |mines| && Near(mines[i], p)
  }

  /** No position appears twice in the list. */
  predicate Distinct(mines: seq<Point>) {
    forall i, j :: 0 <= i < j < |mines| ==> mines[i] != mines[j]
  }

  /** The mines lying near `p`, as a set of positions. */
  function NearMines(mines: seq<Point>, p: Point): set<Point> {
    set m | m in mines && Near(m, p)
  }

  /** The nine positions of the 3x3 block centred on `p`. */
  function Block(p: Point): set<Point> {
    { Point(p.x - 1, p.y - 1), Point(p.x, p.y - 1), Point(p.x + 1, p.y - 1),
      Point(p.x - 1, p.y),     Point(p.x, p.y),     Point(p.x + 1, p.y),
      Point(p.x - 1, p.y + 1), Point(p.x, p.y + 1), Point(p.x + 1, p.y + 1) }
  }

  /** The count is the number of list entries near `p`. */
  lemma {:induction false} CountNearIsIndexCount(mines: seq<Point>, p: Point)
    ensures CountNear(mines, p) == |NearIndices(mines, p)|
    decreases |mines|
  {
    if |mines| > 0 {
      var n := |mines| - 1;
      var init := mines[..n];
      CountNearIsIndexCount(init, p);
      assert NearIndices(init, p) == set i | 0 <= i < n && Near(mines[i], p);
      if Near(mines[n], p) {
        assert NearIndices(mines, p) == NearIndices(init, p) + {n};
      } else {
        assert NearIndices(mines, p) == NearIndices(init, p);
      }
    }
  }

  /** With no repeated positions, the count is the number of distinct mines near `p`. */
  lemma {:induction false} CountNearDistinct(mines: seq<Point>, p: Point)
    requires Distinct(mines)
    ensures CountNear(mines, p) == |NearMines(mines, p)|
    decreases |mines|
  {
    if |mines| > 0 {
      var n := |mines| - 1;
      var init := mines[..n];
      assert Distinct(init);
      CountNearDistinct(init, p);
      assert mines == init + [mines[n]];
      assert mines[n] !in init;
      if Near(mines[n], p) {
        assert NearMines(mines, p) == NearMines(init, p) + {mines[n]};
      } else {
        assert NearMines(mines, p) == NearMines(init, p);
      }
    }
  }

  lemma SubsetCard(a: set<Point>, b: set<Point>)
    requires a <= b
    ensures |a| <= |b|
  {
    assert b == a + (b - a);
  }

  /** Distinct mines give at most nine warnings, so the byte cast loses nothing. */
  lemma AtMostNine(mines: seq<Point>, p: Point)
    requires Distinct(mines)
    ensures CountNear(mines, p) <= 9
    ensures WarningCount(mines, p) == CountNear(mines, p)
  {
    CountNearDistinct(mines, p);
    assert NearMines(mines, p) <= Block(p);
    SubsetCard(NearMines(mines, p), Block(p));
  }

  /** A zero count means no entry of the list lies near `p`, and conversely. */
  lemma {:induction false} CountNearZero(mines: seq<Point>, p: Point)
    ensures CountNear(mines, p) == 0 <==> forall m :: m in mines ==> !Near(m, p)
    decreases |mines|
  {
    if |mines| > 0 {
      var n := |mines| - 1;
      CountNearZero(mines[..n], p);
      assert mines == mines[..n] + [mines[n]];
    }
  }

  /** For distinct mines the recorded warning is zero exactly when no mine is near. */
  lemma ZeroWarning(mines: seq<Point>, p: Point)
    requires Distinct(mines)
    ensures WarningCount(mines, p) == 0 <==> forall m :: m in mines ==> !Near(m, p)
  {
    AtMostNine(mines, p);
    CountNearZero(mines, p);
  }

  lemma {:induction false} CountRepeated(m: Point, k: nat)
    ensures CountNear(seq(k, i => m), m) == k
  {
    if k > 0 {
      assert seq(k, i => m)[..k - 1] == seq(k - 1, i => m);
      CountRepeated(m, k - 1);
    }
  }

  /** A repeated list can wrap the byte: 256 copies of one mine read as no warning at all. */
  lemma Wraps(m: Point)
    ensures WarningCount(seq(256, i => m), m) == 0
  {
    CountRepeated(m, 256);
  }
}
