/** What one call of Game.Uncover (Minesweeper/Model/Game.cs) does to the uncovered map:
    the cells it adds, the values it records and the order in which it reaches them. */
module Flood {
  import opened Types
  import opened Warnings

  /** `q` is one step left, right, up or down from `p`. */
  predicate Adjacent(p: Point, q: Point) {
    (p.x == q.x && (p.y - q.y == 1 || q.y - p.y == 1)) ||
    (p.y == q.y && (p.x - q.x == 1 || q.x - p.x == 1))
  }

  /** The points of `ps` that lie in the field, in their order. */
  function InFieldOnly(field: Size, ps: seq<Point>): (r: seq<Point>)
    ensures forall q :: q in r <==> q in ps && InField(field, q)
  {
    if |ps| == 0 then []
    else (if InField(field, ps[0]) then [ps[0]] else []) + InFieldOnly(field, ps[1..])
  }

  /** The neighbours Uncover visits: p + (1,0), (0,1), (-1,0), (0,-1), those in the field. */
  function Neighbours(field: Size, p: Point): (ns: seq<Point>)
    ensures forall q :: q in ns <==> InField(field, q) && Adjacent(p, q)
  {
    InFieldOnly(field, [p.Plus(Size(1, 0)), p.Plus(Size(0, 1)), p.Plus(Size(-1, 0)), p.Plus(Size(0, -1))])
  }

  /** Entries already present keep their key and value. */
  predicate Grows(before: map<Point, Byte>, after: map<Point, Byte>) {
    forall q :: q in before ==> q in after && after[q] == before[q]
  }

  lemma KeysGrow(before: map<Point, Byte>, after: map<Point, Byte>)
    requires Grows(before, after)
    ensures before.Keys <= after.Keys
  {
  }

  /** Covering one more neighbour keeps the neighbours before it covered. */
  lemma CoveredStep(ns: seq<Point>, i: int, mid: map<Point, Byte>, after: map<Point, Byte>,
                    flags: map<Point, FlagKind>)
    requires 0 <= i < |ns| && mid.Keys <= after.Keys
    requires forall k :: 0 <= k < i ==> ns[k] in mid || ns[k] in flags
    requires ns[i] in after || ns[i] in flags
    ensures forall k :: 0 <= k <= i ==> ns[k] in after || ns[k] in flags
  {
  }

  predicate NoRepeats(order: seq<Point>) {
    forall i, j :: 0 <= i < j < |order| ==> order[i] != order[j]
  }

  /** `order` lists exactly the keys that were added. */
  ghost predicate Records(before: map<Point, Byte>, after: map<Point, Byte>, order: seq<Point>) {
    forall q :: (q in after && q !in before) <==> q in order
  }

  /** Every added cell lies in the field, is not flagged and holds its warning count. */
  predicate Counted(field: Size, mines: seq<Point>, flags: map<Point, FlagKind>,
                    after: map<Point, Byte>, order: seq<Point>)
  {
    forall q :: q in order ==>
      InField(field, q) && q !in flags && q in after && after[q] == WarningCount(mines, q)
  }

  /** Every added cell after the first is a neighbour of an earlier added cell whose count is 0. */
  predicate Discovered(after: map<Point, Byte>, order: seq<Point>) {
    forall i :: 0 < i < |order| ==> Reached(after, order, i)
  }

  /** The i-th added cell is a neighbour of an earlier added cell whose count is 0. */
  predicate Reached(after: map<Point, Byte>, order: seq<Point>, i: int)
    requires 0 <= i < |order|
  {
    exists j :: 0 <= j < i && order[j] in after && after[order[j]] == 0 && Adjacent(order[j], order[i])
  }

  /** Around every added cell whose count is 0, every neighbour in the field is
      uncovered or flagged. */
  ghost predicate Closed(field: Size, flags: map<Point, FlagKind>, after: map<Point, Byte>, order: seq<Point>) {
    forall q :: q in order && q in after && after[q] == 0 ==>
      forall n :: InField(field, n) && Adjacent(q, n) ==> n in after || n in flags
  }

  /** A flagged or already uncovered start adds nothing; otherwise the start comes first. */
  predicate Starts(flags: map<Point, FlagKind>, before: map<Point, Byte>, p: Point, order: seq<Point>) {
    if p in flags || p in before then order == [] else |order| >= 1 && order[0] == p
  }

  /** The effect of uncovering `p`, with `order` the cells in the order they are reached. */
  ghost predicate Flooded(field: Size, mines: seq<Point>, flags: map<Point, FlagKind>,
                    before: map<Point, Byte>, after: map<Point, Byte>, p: Point, order: seq<Point>)
  {
    Grows(before, after) && NoRepeats(order) && Records(before, after, order) &&
    Counted(field, mines, flags, after, order) && Discovered(after, order) &&
    Closed(field, flags, after, order) && Starts(flags, before, p, order)
  }

  /** Uncover's state while it visits the neighbours of a start `p` whose count is 0:
      `p` comes first, and the cells after it are closed already. */
  ghost predicate Spreading(field: Size, mines: seq<Point>, flags: map<Point, FlagKind>,
                      before: map<Point, Byte>, after: map<Point, Byte>, p: Point, order: seq<Point>)
  {
    Grows(before, after) && NoRepeats(order) && Records(before, after, order) &&
    Counted(field, mines, flags, after, order) && Discovered(after, order) &&
    |order| >= 1 && order[0] == p && p in after && after[p] == 0 &&
    Closed(field, flags, after, order[1..])
  }

  /** A flood adds only cells of the field that carry no flag. */
  lemma AddsUnflagged(field: Size, mines: seq<Point>, flags: map<Point, FlagKind>,
                      before: map<Point, Byte>, after: map<Point, Byte>, p: Point, order: seq<Point>)
    requires Flooded(field, mines, flags, before, after, p, order)
    ensures forall q :: q in after ==> q in before || (InField(field, q) && q !in flags)
    ensures forall q :: q in before ==> q in after && after[q] == before[q]
  {
    forall q | q in after && q !in before ensures InField(field, q) && q !in flags {
      assert q in order;
    }
  }

  /** Recording the start: a count other than 0 ends the flood, a count of 0 starts spreading. */
  lemma Start(field: Size, mines: seq<Point>, flags: map<Point, FlagKind>,
              before: map<Point, Byte>, p: Point)
    requires InField(field, p) && p !in flags && p !in before
    ensures var after := before[p := WarningCount(mines, p)];
      if WarningCount(mines, p) == 0 then Spreading(field, mines, flags, before, after, p, [p])
      else Flooded(field, mines, flags, before, after, p, [p])
  {
  }

  /** Folding in the flood from a neighbour `n` of the start keeps the spreading state
      and leaves `n` uncovered or flagged. */
  lemma Extend(field: Size, mines: seq<Point>, flags: map<Point, FlagKind>,
               before: map<Point, Byte>, mid: map<Point, Byte>, after: map<Point, Byte>,
               p: Point, order: seq<Point>, n: Point, sub: seq<Point>)
    requires Spreading(field, mines, flags, before, mid, p, order)
    requires Flooded(field, mines, flags, mid, after, n, sub)
    requires Adjacent(p, n)
    ensures Spreading(field, mines, flags, before, after, p, order + sub)
    ensures n in after || n in flags
  {
    ExtendRepeats(before, mid, after, order, sub);
    ExtendCounted(field, mines, flags, mid, after, order, sub);
    ExtendDiscovered(mid, after, p, order, n, sub);
    ExtendClosed(field, flags, mid, after, order, sub);
    assert (order + sub)[0] == p;
  }

  /** The two lists of added cells do not overlap, and together they list every added key. */
  lemma ExtendRepeats(before: map<Point, Byte>, mid: map<Point, Byte>, after: map<Point, Byte>,
                      order: seq<Point>, sub: seq<Point>)
    requires Grows(before, mid) && Grows(mid, after)
    requires NoRepeats(order) && Records(before, mid, order)
    requires NoRepeats(sub) && Records(mid, after, sub)
    ensures Grows(before, after)
    ensures NoRepeats(order + sub) && Records(before, after, order + sub)
  {
    var all := order + sub;
    forall i, j | 0 <= i < j < |all| ensures all[i] != all[j] {
      if j >= |order| && i < |order| {
        assert all[i] in order && all[j] in sub;
      } else if i >= |order| {
        assert all[i] == sub[i - |order|] && all[j] == sub[j - |order|];
      }
    }
  }

  lemma ExtendCounted(field: Size, mines: seq<Point>, flags: map<Point, FlagKind>,
                      mid: map<Point, Byte>, after: map<Point, Byte>, order: seq<Point>, sub: seq<Point>)
    requires Grows(mid, after)
    requires Counted(field, mines, flags, mid, order) && Counted(field, mines, flags, after, sub)
    ensures Counted(field, mines, flags, after, order + sub)
  {
  }

  lemma ExtendDiscovered(mid: map<Point, Byte>, after: map<Point, Byte>,
                         p: Point, order: seq<Point>, n: Point, sub: seq<Point>)
    requires Grows(mid, after)
    requires |order| >= 1 && order[0] == p && p in mid && mid[p] == 0 && Adjacent(p, n)
    requires Discovered(mid, order) && Discovered(after, sub)
    requires |sub| >= 1 ==> sub[0] == n
    ensures Discovered(after, order + sub)
  {
    var all := order + sub;
    forall i | 0 < i < |all| ensures Reached(after, all, i) {
      if i < |order| {
        assert Reached(mid, order, i);
        var j :| 0 <= j < i && order[j] in mid && mid[order[j]] == 0 && Adjacent(order[j], order[i]);
        assert all[j] == order[j] && all[i] == order[i];
        assert all[j] in after && after[all[j]] == 0 && Adjacent(all[j], all[i]);
      } else if i == |order| {
        assert all[0] == p && all[i] == n;
        assert all[0] in after && after[all[0]] == 0 && Adjacent(all[0], all[i]);
      } else {
        var k := i - |order|;
        assert Reached(after, sub, k);
        var j :| 0 <= j < k && sub[j] in after && after[sub[j]] == 0 && Adjacent(sub[j], sub[k]);
        assert all[|order| + j] == sub[j] && all[i] == sub[k];
        assert all[|order| + j] in after && after[all[|order| + j]] == 0 && Adjacent(all[|order| + j], all[i]);
      }
    }
  }

  lemma ExtendClosed(field: Size, flags: map<Point, FlagKind>,
                     mid: map<Point, Byte>, after: map<Point, Byte>, order: seq<Point>, sub: seq<Point>)
    requires |order| >= 1 && Grows(mid, after)
    requires forall q :: q in order ==> q in mid
    requires Closed(field, flags, mid, order[1..]) && Closed(field, flags, after, sub)
    ensures Closed(field, flags, after, (order + sub)[1..])
  {
    assert (order + sub)[1..] == order[1..] + sub;
    forall q | q in order[1..] + sub && q in after && after[q] == 0
      ensures forall m :: InField(field, m) && Adjacent(q, m) ==> m in after || m in flags
    {
      if q in order[1..] {
        assert q in mid && mid[q] == 0;
      }
    }
  }

  /** Once every neighbour of the start is uncovered or flagged, the flood is complete. */
  lemma Finish(field: Size, mines: seq<Point>, flags: map<Point, FlagKind>,
               before: map<Point, Byte>, after: map<Point, Byte>, p: Point, order: seq<Point>)
    requires Spreading(field, mines, flags, before, after, p, order)
    requires forall n :: n in Neighbours(field, p) ==> n in after || n in flags
    ensures Flooded(field, mines, flags, before, after, p, order)
  {
    assert p in order && p !in before;
    forall q | q in order && q in after && after[q] == 0
      ensures forall m :: InField(field, m) && Adjacent(q, m) ==> m in after || m in flags
    {
      if q != p {
        var i :| 0 <= i < |order| && order[i] == q;
        assert order[1..][i - 1] == q;
      }
    }
  }

  /** A cell whose count is not 0 is the only one its flood uncovers. */
  lemma StopsAtWarning(field: Size, mines: seq<Point>, flags: map<Point, FlagKind>,
                       before: map<Point, Byte>, after: map<Point, Byte>, p: Point, order: seq<Point>)
    requires Flooded(field, mines, flags, before, after, p, order)
    requires p !in flags && p !in before && WarningCount(mines, p) != 0
    ensures order == [p]
    ensures after == before[p := WarningCount(mines, p)]
  {
    assert order[0] == p && after[p] == WarningCount(mines, p);
    assert |order| >= 2 ==> !Reached(after, order, 1);
    assert |order| == 1;
    assert forall q :: q in after && q !in before ==> q == p;
  }

  /** With no mine listed twice, no cell reached through a neighbour is a mine: the flood
      spreads only from cells with no mine in their 3x3 block. */
  lemma AvoidsMines(field: Size, mines: seq<Point>, flags: map<Point, FlagKind>,
                    before: map<Point, Byte>, after: map<Point, Byte>, p: Point, order: seq<Point>)
    requires Flooded(field, mines, flags, before, after, p, order)
    requires Distinct(mines)
    ensures forall i :: 0 < i < |order| ==> order[i] !in mines
  {
    forall i | 0 < i < |order| ensures order[i] !in mines {
      assert Reached(after, order, i);
      var j :| 0 <= j < i && order[j] in after && after[order[j]] == 0 && Adjacent(order[j], order[i]);
      assert WarningCount(mines, order[j]) == 0;
      ZeroWarning(mines, order[j]);
      assert Near(order[i], order[j]);
    }
  }
}
