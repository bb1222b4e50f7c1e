/**
 * Counting the mines around a cell, over the set of mine positions: the count the nested
 * offset loops compute, and what it equals.
 */
module Neighbourhood {
  import opened Grid

  /** The mined cells among the 8-neighbours of p. */
  ghost function MinedNeighbours(mines: set<Pos>, p: Pos): set<Pos>
  {
    set q | q in mines && Adjacent(p, q)
  }

  /** The number of offsets o in the list for which p + o is a mine, counted from the back. */
  ghost function MinesAmong(mines: set<Pos>, p: Pos, offsets: seq<(int, int)>): (r: nat)
    ensures r <= |offsets|
  {
    if offsets == [] then 0
    else
      var o := offsets[|offsets| - 1];
      MinesAmong(mines, p, offsets[..|offsets| - 1]) + (if (p.0 + o.0, p.1 + o.1) in mines then 1 else 0)
  }

  /** Extending the offsets by one adds that offset's cell to the count. */
  lemma MinesAmongStep(mines: set<Pos>, p: Pos, offsets: seq<(int, int)>, k: nat)
    requires k < |offsets|
    ensures MinesAmong(mines, p, offsets[..k + 1]) ==
            MinesAmong(mines, p, offsets[..k]) + (if (p.0 + offsets[k].0, p.1 + offsets[k].1) in mines then 1 else 0)
  {
    assert offsets[..k + 1][..k] == offsets[..k];
  }

  /**
   * One step of the nested dx/dy loops: visiting offset (dx, dy) adds the mine at
   * p + (dx, dy), if any, to the count of the offsets visited before it.
   */
  lemma OffsetStep(mines: set<Pos>, p: Pos, dx: int, dy: int)
    requires -1 <= dx <= 1 && -1 <= dy <= 1 && (dx, dy) != (0, 0)
    ensures MinesAmong(mines, p, NeighbourOffsets[..OffsetIndex(dx, dy + 1)]) ==
            MinesAmong(mines, p, NeighbourOffsets[..OffsetIndex(dx, dy)]) + (if (p.0 + dx, p.1 + dy) in mines then 1 else 0)
  {
    var k := OffsetIndex(dx, dy);
    assert OffsetIndex(dx, dy + 1) == k + 1;
    assert NeighbourOffsets[k] == (dx, dy);
    assert (p.0 + NeighbourOffsets[k].0, p.1 + NeighbourOffsets[k].1) == (p.0 + dx, p.1 + dy);
    MinesAmongStep(mines, p, NeighbourOffsets, k);
  }

  /** The listed offsets that lead from p to a mine. */
  ghost function MineOffsets(mines: set<Pos>, p: Pos, offsets: seq<(int, int)>): set<(int, int)>
  {
    set o | o in offsets && (p.0 + o.0, p.1 + o.1) in mines
  }

  /** The last offset joins the mined offsets of the others exactly when it leads to a mine. */
  lemma MineOffsetsLast(mines: set<Pos>, p: Pos, offsets: seq<(int, int)>)
    requires offsets != []
    ensures var o := offsets[|offsets| - 1];
      MineOffsets(mines, p, offsets) ==
      MineOffsets(mines, p, offsets[..|offsets| - 1]) + (if (p.0 + o.0, p.1 + o.1) in mines then {o} else {})
  {
    var prefix, o := offsets[..|offsets| - 1], offsets[|offsets| - 1];
    forall r | r in MineOffsets(mines, p, offsets)
      ensures r in MineOffsets(mines, p, prefix) || r == o
    {
      var k :| 0 <= k < |offsets| && offsets[k] == r;
      if k < |prefix| {
        assert prefix[k] == r;
      }
    }
  }

  /** Over offsets without repeats, the count is the number of offsets leading to a mine. */
  lemma {:induction false} MinesAmongCountsOffsets(mines: set<Pos>, p: Pos, offsets: seq<(int, int)>)
    requires Distinct(offsets)
    ensures MinesAmong(mines, p, offsets) == |MineOffsets(mines, p, offsets)|
  {
    if offsets == [] {
      assert MineOffsets(mines, p, offsets) == {};
    } else {
      var prefix := offsets[..|offsets| - 1];
      MinesAmongCountsOffsets(mines, p, prefix);
      MineOffsetsSizeStep(mines, p, offsets);
    }
  }

  /** Dropping the last of offsets without repeats changes the mined offsets by that one offset at most. */
  lemma MineOffsetsSizeStep(mines: set<Pos>, p: Pos, offsets: seq<(int, int)>)
    requires offsets != [] && Distinct(offsets)
    ensures var o := offsets[|offsets| - 1];
      |MineOffsets(mines, p, offsets)| ==
      |MineOffsets(mines, p, offsets[..|offsets| - 1])| + (if (p.0 + o.0, p.1 + o.1) in mines then 1 else 0)
  {
    var prefix, o := offsets[..|offsets| - 1], offsets[|offsets| - 1];
    MineOffsetsLast(mines, p, offsets);
    AddFreshSize(MineOffsets(mines, p, prefix), MineOffsets(mines, p, offsets), o, (p.0 + o.0, p.1 + o.1) in mines);
  }

  /** A mined neighbour q of p is p shifted by an offset that leads to a mine. */
  lemma NeighbourFromOffset(mines: set<Pos>, p: Pos, q: Pos)
    requires q in MinedNeighbours(mines, p)
    ensures q in Shift(MineOffsets(mines, p, NeighbourOffsets), p)
  {
    var o := (q.0 - p.0, q.1 - p.1);
    assert NeighbourOffsets[OffsetIndex(o.0, o.1)] == o;
    assert (p.0 + o.0, p.1 + o.1) == q;
    assert o in MineOffsets(mines, p, NeighbourOffsets);
    ShiftMember(MineOffsets(mines, p, NeighbourOffsets), p, o);
  }

  /** An offset that leads from p to a mine reaches a mined neighbour of p. */
  lemma OffsetToNeighbour(mines: set<Pos>, p: Pos, o: (int, int))
    requires o in MineOffsets(mines, p, NeighbourOffsets)
    ensures (p.0 + o.0, p.1 + o.1) in MinedNeighbours(mines, p)
  {
    OffsetsAreNeighbourhood(p, (p.0 + o.0, p.1 + o.1));
  }

  /** The mined neighbours of p are p shifted by the offsets that lead to a mine. */
  lemma MinedNeighboursAreShiftedOffsets(mines: set<Pos>, p: Pos)
    ensures MinedNeighbours(mines, p) == Shift(MineOffsets(mines, p, NeighbourOffsets), p)
  {
    var offsets := MineOffsets(mines, p, NeighbourOffsets);
    forall q | q in MinedNeighbours(mines, p)
      ensures q in Shift(offsets, p)
    {
      NeighbourFromOffset(mines, p, q);
    }
    forall q | q in Shift(offsets, p)
      ensures q in MinedNeighbours(mines, p)
    {
      var o :| o in offsets && q == (p.0 + o.0, p.1 + o.1);
      OffsetToNeighbour(mines, p, o);
    }
  }

  /**
   * The count over the eight offsets is the number of mines among the 8-neighbours of p,
   * and therefore lies in 0..8.
   */
  lemma CountIsMinedNeighbours(mines: set<Pos>, p: Pos)
    ensures MinesAmong(mines, p, NeighbourOffsets) == |MinedNeighbours(mines, p)|
    ensures MinesAmong(mines, p, NeighbourOffsets) <= 8
  {
    NeighbourOffsetsDistinct();
    MinesAmongCountsOffsets(mines, p, NeighbourOffsets);
    MinedNeighboursAreShiftedOffsets(mines, p);
    ShiftSize(MineOffsets(mines, p, NeighbourOffsets), p);
  }

  /** The count is zero exactly when no 8-neighbour of p is a mine. */
  lemma CountZeroIffNoMinedNeighbour(mines: set<Pos>, p: Pos)
    ensures MinesAmong(mines, p, NeighbourOffsets) == 0 <==> forall q :: Adjacent(p, q) ==> q !in mines
  {
    CountIsMinedNeighbours(mines, p);
    if MinesAmong(mines, p, NeighbourOffsets) == 0 {
      assert MinedNeighbours(mines, p) == {};
      forall q | Adjacent(p, q)
        ensures q !in mines
      {
        assert q !in MinedNeighbours(mines, p);
      }
    } else {
      var q :| q in MinedNeighbours(mines, p);
      assert Adjacent(p, q) && q in mines;
    }
  }
}
