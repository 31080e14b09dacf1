/** The pieces of Game.Create that deploy mines: ordering the random draws, the
    in-place pass that makes the linear positions unique, and the wrap of a linear
    position into two dimensions (Minesweeper/Model/Game.cs). */
module Deployment {
  import opened Types

  predicate Sorted(s: seq<int>) {
    forall i, j :: 0 <= i < j < |s| ==> s[i] <= s[j]
  }

  predicate StrictlyIncreasing(s: seq<int>) {
    forall i, j :: 0 <= i < j < |s| ==> s[i] < s[j]
  }

  /** One value placed into an ascending sequence. */
  function Insert(x: int, s: seq<int>): (r: seq<int>)
    requires Sorted(s)
    ensures Sorted(r) && multiset(r) == multiset(s) + multiset{x}
  {
    if |s| == 0 || x <= s[0] then [x] + s
    else
      var tail := Insert(x, s[1..]);
      InsertBehind(x, s, tail);
      [s[0]] + tail
  }

  /** Putting the head of `s` before the insertion into its tail keeps the order and
      the values. */
  lemma InsertBehind(x: int, s: seq<int>, tail: seq<int>)
    requires Sorted(s) && |s| > 0 && s[0] < x
    requires Sorted(tail) && multiset(tail) == multiset(s[1..]) + multiset{x}
    ensures Sorted([s[0]] + tail) && multiset([s[0]] + tail) == multiset(s) + multiset{x}
  {
    assert s == [s[0]] + s[1..];
    forall j | 0 <= j < |tail| ensures s[0] <= tail[j] {
      assert tail[j] in multiset(tail);
      assert tail[j] == x || tail[j] in multiset(s[1..]);
    }
  }

  /** `orderby pos`: the draws in ascending order. */
  function SortAscending(s: seq<int>): (r: seq<int>)
    ensures Sorted(r) && multiset(r) == multiset(s) && |r| == |s|
  {
    if |s| == 0 then []
    else
      assert s == [s[0]] + s[1..];
      Insert(s[0], SortAscending(s[1..]))
  }

  /** Sorting keeps every value within the bounds that held for the draws. */
  lemma SortedWithin(s: seq<int>, lo: int, hi: int)
    requires forall i :: 0 <= i < |s| ==> lo <= s[i] < hi
    ensures forall i :: 0 <= i < |SortAscending(s)| ==> lo <= SortAscending(s)[i] < hi
  {
    var r := SortAscending(s);
    forall i | 0 <= i < |r| ensures lo <= r[i] < hi {
      assert r[i] in multiset(r);
      assert r[i] in s;
    }
  }

  /** How many of the positions 1..i equal their predecessor: the running offset of the
      uniqueness pass at position i of a sorted array. */
  function Repeats(s: seq<int>, i: int): (r: nat)
    requires 0 <= i < |s|
    ensures r <= i
  {
    if i == 0 then 0 else Repeats(s, i - 1) + (if s[i] == s[i - 1] then 1 else 0)
  }

  /** The uniqueness pass: a position that does not exceed its (already moved) predecessor
      raises the offset just enough to pass it, and the offset carries over to all later
      positions without ever being reset. On a sorted array that happens exactly at a
      repeated value, so position i moves up by the number of repeats up to i. The result
      is strictly increasing and position i moves up by at most i. */
  method MakeUnique(minePos: array<int>)
    requires Sorted(minePos[..])
    modifies minePos
    ensures forall i :: 0 <= i < minePos.Length ==>
      minePos[i] == old(minePos[i]) + Repeats(old(minePos[..]), i)
    ensures StrictlyIncreasing(minePos[..])
    ensures forall i :: 0 <= i < minePos.Length ==> old(minePos[i]) <= minePos[i] <= old(minePos[i]) + i
  {
    ghost var o := minePos[..];
    if minePos.Length == 0 { return; }
    var n, offset := 1, 0;
    while n < minePos.Length
      invariant 1 <= n <= minePos.Length
      invariant offset == Repeats(o, n - 1)
      invariant forall i :: n <= i < minePos.Length ==> minePos[i] == o[i]
      invariant forall i :: 0 <= i < n ==> minePos[i] == o[i] + Repeats(o, i)
    {
      var previous, current := minePos[n - 1], minePos[n];
      OffsetStep(o, n, offset);
      if current + offset <= previous {
        offset := previous - current + 1;
      }
      minePos[n] := current + offset;
      n := n + 1;
    }
    Unique(o, minePos[..]);
  }

  /** One step of the pass on a sorted sequence: the position is pushed exactly when it
      repeats its predecessor, and then the offset grows by one. */
  lemma OffsetStep(o: seq<int>, n: int, offset: int)
    requires Sorted(o) && 0 < n < |o| && offset == Repeats(o, n - 1)
    ensures o[n] + offset <= o[n - 1] + offset <==> o[n] == o[n - 1]
    ensures Repeats(o, n) == if o[n] == o[n - 1] then (o[n - 1] + offset) - o[n] + 1 else offset
  {
    assert o[n - 1] <= o[n];
  }

  /** Moving each position of a sorted sequence up by its repeats makes it strictly
      increasing, with position i moved up by at most i. */
  lemma Unique(o: seq<int>, r: seq<int>)
    requires Sorted(o) && |r| == |o|
    requires forall i :: 0 <= i < |r| ==> r[i] == o[i] + Repeats(o, i)
    ensures StrictlyIncreasing(r)
    ensures forall i :: 0 <= i < |r| ==> o[i] <= r[i] <= o[i] + i
  {
    forall i, j | 0 <= i < j < |r| ensures r[i] < r[j] {
      Apart(o, i, j);
    }
  }

  /** Moved positions further apart in a sorted sequence keep their order strictly. */
  lemma {:induction false} Apart(o: seq<int>, i: int, j: int)
    requires Sorted(o) && 0 <= i < j < |o|
    ensures o[i] + Repeats(o, i) < o[j] + Repeats(o, j)
    decreases j - i
  {
    if j > i + 1 {
      Apart(o, i, j - 1);
    }
    assert o[j - 1] <= o[j];
  }

  /** The offset is never reset: in the sorted draws 0, 0, 5 the repeated 0 moves to 1,
      and 5 still moves on to 6. */
  lemma OffsetCarries()
    ensures Repeats([0, 0, 5], 1) == 1 && Repeats([0, 0, 5], 2) == 1
  {
  }

  /** `new Point(p % width, p / width)`: a non-negative linear position, row by row. */
  function ToPoint(pos: int, width: int): Point
    requires width != 0
  {
    Point(pos % width, pos / width)
  }

  /** The linear position of a point in a field of the given width. */
  function Linear(p: Point, width: int): int {
    p.y * width + p.x
  }

  /** Every linear position below width*height wraps to a point of the field, and
      the wrap is undone by Linear (so distinct positions give distinct points). */
  lemma ToPointInField(pos: int, field: Size)
    requires field.width > 0 && 0 <= pos < field.width * field.height
    ensures InField(field, ToPoint(pos, field.width))
    ensures Linear(ToPoint(pos, field.width), field.width) == pos
  {
    var w := field.width;
    var q := pos / w;
    assert pos == q * w + pos % w;
  }

  /** `minePos.Select(p => new Point(p % width, p / width))`. */
  function ToPoints(positions: seq<int>, width: int): (points: seq<Point>)
    requires width != 0
    ensures |points| == |positions|
    ensures forall i :: 0 <= i < |points| ==> points[i] == ToPoint(positions[i], width)
  {
    seq(|positions|, i requires 0 <= i < |positions| => ToPoint(positions[i], width))
  }

  /** Strictly increasing positions inside the field wrap to points of the field that
      differ from each other and keep the positions' order. */
  lemma ToPointsInField(positions: seq<int>, field: Size)
    requires field.width > 0 && StrictlyIncreasing(positions)
    requires forall i :: 0 <= i < |positions| ==> 0 <= positions[i] < field.width * field.height
    ensures forall i :: 0 <= i < |positions| ==>
      InField(field, ToPoints(positions, field.width)[i]) &&
      Linear(ToPoints(positions, field.width)[i], field.width) == positions[i]
    ensures forall i, j :: 0 <= i < j < |positions| ==>
      ToPoints(positions, field.width)[i] != ToPoints(positions, field.width)[j]
  {
    var points := ToPoints(positions, field.width);
    forall i | 0 <= i < |positions|
      ensures InField(field, points[i]) && Linear(points[i], field.width) == positions[i]
    {
      ToPointInField(positions[i], field);
    }
  }

  /** The linear positions Create deploys for k = |draws| mines in a field of `cells`
      cells: the draws in ascending order, made unique by the offset pass, so the i-th
      is the i-th smallest draw plus the number of repeats up to it. They strictly
      increase, stay within i of the i-th smallest draw, and for draws taken from
      [0, cells - k) they lie in [0, cells - 1): the last cell is never mined. */
  method Deploy(draws: seq<int>, cells: int) returns (positions: seq<int>)
    requires forall i :: 0 <= i < |draws| ==> 0 <= draws[i] < cells - |draws|
    ensures |positions| == |draws| && StrictlyIncreasing(positions)
    ensures forall i :: 0 <= i < |positions| ==>
      positions[i] == SortAscending(draws)[i] + Repeats(SortAscending(draws), i)
    ensures forall i :: 0 <= i < |positions| ==>
      SortAscending(draws)[i] <= positions[i] <= SortAscending(draws)[i] + i
    ensures forall i :: 0 <= i < |positions| ==> 0 <= positions[i] < cells - 1
  {
    var sorted := SortAscending(draws);
    SortedWithin(draws, 0, cells - |draws|);
    var minePos := new int[|sorted|](i requires 0 <= i < |sorted| => sorted[i]);
    assert minePos[..] == sorted;
    MakeUnique(minePos);
    positions := minePos[..];
    forall i | 0 <= i < |positions| ensures 0 <= positions[i] < cells - 1 {
      assert 0 <= sorted[i] < cells - |draws|;
    }
  }
}
