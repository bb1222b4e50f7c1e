/** Coordinates, the 8-neighbourhood and the rectangle of cells of a minefield. */
module Grid {

  /** A cell position (x, y): x selects the column array `cells[x]`, y the cell in it. */
  type Pos = (int, int)

  /** q is one of the up to eight cells around p (diagonals included, p itself excluded). */
  predicate Adjacent(p: Pos, q: Pos)
  {
    p != q && -1 <= q.0 - p.0 <= 1 && -1 <= q.1 - p.1 <= 1
  }

  /** The offsets (dx, dy) in the order the nested `dx`/`dy` loops visit them, with (0, 0) skipped. */
  const NeighbourOffsets: seq<(int, int)> :=
    [(-1, -1), (-1, 0), (-1, 1), (0, -1), (0, 1), (1, -1), (1, 0), (1, 1)]

  /**
   * Position of offset (dx, dy) in NeighbourOffsets: the number of offsets the loops have
   * visited on reaching (dx, dy); a loop variable equal to 2 stands for a finished loop.
   */
  function OffsetIndex(dx: int, dy: int): (k: nat)
    requires (-1 <= dx <= 1 && -1 <= dy <= 2) || (dx == 2 && dy == -1)
    ensures k <= |NeighbourOffsets|
    ensures dx <= 1 && dy <= 1 && (dx, dy) != (0, 0) ==> k < |NeighbourOffsets| && NeighbourOffsets[k] == (dx, dy)
  {
    3 * (dx + 1) + (dy + 1) - (if dx > 0 || (dx == 0 && dy > 0) then 1 else 0)
  }

  /** The offsets list is exactly the 8-neighbourhood. */
  lemma OffsetsAreNeighbourhood(p: Pos, q: Pos)
    ensures Adjacent(p, q) <==> (q.0 - p.0, q.1 - p.1) in NeighbourOffsets
  {
  }

  /** All positions of a w x h grid. */
  ghost function Block(w: nat, h: nat): (s: set<Pos>)
    ensures forall p :: p in s <==> 0 <= p.0 < w && 0 <= p.1 < h
  {
    set x: int, y: int | 0 <= x < w && 0 <= y < h :: (x, y)
  }

  /** The cells of column x of a grid of height h. */
  ghost function Column(x: int, h: nat): (s: set<Pos>)
    ensures forall p :: p in s <==> p.0 == x && 0 <= p.1 < h
  {
    set y: int | 0 <= y < h :: (x, y)
  }

  lemma {:induction false} ColumnSize(x: int, h: nat)
    ensures |Column(x, h)| == h
  {
    if h > 0 {
      ColumnSize(x, h - 1);
      assert Column(x, h) == Column(x, h - 1) + {(x, h - 1)};
    } else {
      assert Column(x, h) == {};
    }
  }

  /** A w x h grid has exactly w * h cells. */
  lemma {:induction false} BlockSize(w: nat, h: nat)
    ensures |Block(w, h)| == w * h
  {
    if w > 0 {
      BlockSize(w - 1, h);
      ColumnSize(w - 1, h);
      BlockSplit(w, h);
      assert (w - 1) * h + h == w * h;
    } else {
      assert Block(w, h) == {};
    }
  }

  /** No element occurs twice: the last one is new and the rest are repeat-free. */
  predicate Distinct<T(==)>(s: seq<T>)
  {
    s == [] || (s[|s| - 1] !in s[..|s| - 1] && Distinct(s[..|s| - 1]))
  }

  /** The eight offsets are pairwise different. */
  lemma NeighbourOffsetsDistinct()
    ensures Distinct(NeighbourOffsets)
  {
    var n := NeighbourOffsets;
    assert Distinct(n[..1]);
    assert Distinct(n[..2]) by { assert n[..2][..1] == n[..1]; }
    assert Distinct(n[..3]) by { assert n[..3][..2] == n[..2]; }
    assert Distinct(n[..4]) by { assert n[..4][..3] == n[..3]; }
    assert Distinct(n[..5]) by { assert n[..5][..4] == n[..4]; }
    assert Distinct(n[..6]) by { assert n[..6][..5] == n[..5]; }
    assert Distinct(n[..7]) by { assert n[..7][..6] == n[..6]; }
    assert n[..7] == n[..|n| - 1];
  }

  /** A grid of w > 0 columns is the grid of its first w - 1 columns plus the last column. */
  lemma BlockSplit(w: nat, h: nat)
    requires w > 0
    ensures Block(w, h) == Block(w - 1, h) + Column(w - 1, h)
    ensures Block(w - 1, h) !! Column(w - 1, h)
  {
  }

  /** The cells p + o for the offsets o in s. */
  ghost function Shift(s: set<(int, int)>, p: Pos): set<Pos>
  {
    set o | o in s :: (p.0 + o.0, p.1 + o.1)
  }

  /** p shifted by a member of s is in the shift of s. */
  lemma ShiftMember(s: set<(int, int)>, p: Pos, o: (int, int))
    requires o in s
    ensures (p.0 + o.0, p.1 + o.1) in Shift(s, p)
  {
  }

  /** Shifting by p is one-to-one, so it keeps the number of elements. */
  lemma {:induction false} ShiftSize(s: set<(int, int)>, p: Pos)
    ensures |Shift(s, p)| == |s|
  {
    if s == {} {
      assert Shift(s, p) == {};
    } else {
      var o :| o in s;
      var r := s - {o};
      ShiftSize(r, p);
      assert Shift(s, p) == Shift(r, p) + {(p.0 + o.0, p.1 + o.1)};
      AddFreshSize(Shift(r, p), Shift(s, p), (p.0 + o.0, p.1 + o.1), true);
    }
  }

  /** Adding an element not yet present, or nothing, grows a set by one or by zero. */
  lemma AddFreshSize<T>(a: set<T>, b: set<T>, e: T, add: bool)
    requires e !in a && b == a + (if add then {e} else {})
    ensures |b| == |a| + (if add then 1 else 0)
  {
  }

  /** Adding one element to the second operand of a union adds it to the union. */
  lemma UnionAddOne<T>(a: set<T>, b: set<T>, e: T)
    ensures a + b + {e} == a + (b + {e})
  {
  }

  /** A subset is no larger than its superset. */
  lemma SubsetSize<T>(a: set<T>, b: set<T>)
    requires a <= b
    ensures |a| <= |b|
  {
    assert b == a + (b - a);
  }
}
