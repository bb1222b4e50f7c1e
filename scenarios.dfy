/** Small boards played through the engine, with what each move must end in. */
module Scenarios {
  import opened Grid
  import opened FloodFill
  import opened Minesweeper

  /** Flagging a cell twice leaves every flag as it was. */
  method ToggleTwiceRestores(f: Minefield, x: int, y: int)
    requires f.Valid() && f.InBounds(x, y)
    modifies f.flagged
    ensures forall a, b :: f.InBounds(a, b) ==> f.flagged[a, b] == old(f.flagged[a, b])
  {
    f.ToggleFlag(x, y);
    f.ToggleFlag(x, y);
  }

  /** On a 3 x 3 board without mines, revealing the centre opens every cell and wins. */
  method EmptyBoardWins() returns (outcome: Outcome)
    ensures outcome == Win
  {
    var f := new Minefield(3, 3);
    f.InitMinefield(0, []);
    assert f.MineSet() == {};
    assert f.RevealedSet() == {};
    f.AdjacentMinesZero(1, 1);
    forall q | Adjacent((1, 1), q)
      ensures !f.IsMineAt(q.0, q.1)
    {
      f.MineSetMember(q);
    }
    f.MineSetMember((1, 1));
    outcome := f.RevealCell(1, 1);
    ghost var b := f.Snapshot();
    assert Open(b, (1, 1), {}) && Expands(b, (1, 1));
    forall a, c | f.InBounds(a, c) && !f.mine[a, c]
      ensures f.revealed[a, c]
    {
      if (a, c) != (1, 1) {
        assert Adjacent((1, 1), (a, c)) && Open(b, (a, c), {});
      }
      assert (a, c) in f.RevealedSet();
    }
  }

  /** A fresh 5 x 5 round whose one random draw lands in the middle: one mine, at (2, 2). */
  method OneMineBoard() returns (f: Minefield)
    ensures f.Valid() && f.width == 5 && f.height == 5 && f.CountsCorrect()
    ensures f.MineSet() == {(2, 2)} && f.RevealedSet() == {}
    ensures forall a, b :: f.InBounds(a, b) ==> !f.flagged[a, b]
    ensures fresh(f.revealed)
  {
    f := new Minefield(5, 5);
    assert Drawn([(2, 2)]) == {(2, 2)};
    f.InitMinefield(1, [(2, 2)]);
    assert f.MineSet() == {(2, 2)};
  }

  /**
   * Two mines on a fresh 3 x 3 board: the repeated draw is passed over and placing stops at
   * the second fresh cell, so the last draw is never used.
   */
  method RepeatedDrawSkipped() returns (f: Minefield)
    ensures f.Valid() && f.MineSet() == {(0, 0), (1, 1)}
  {
    f := new Minefield(3, 3);
    var picks := [(0, 0), (0, 0), (1, 1), (2, 2)];
    assert Drawn(picks) == {(0, 0), (1, 1), (2, 2)};
    f.InitMinefield(2, picks);
  }

  /** On that board, revealing the mine loses at once and shows the mine alone. */
  method MineLoses() returns (outcome: Outcome, f: Minefield)
    ensures f.Valid() && outcome == Loss && f.RevealedSet() == {(2, 2)}
  {
    f := OneMineBoard();
    f.MineSetMember((2, 2));
    outcome := f.RevealCell(2, 2);
  }

  /** On the same board, revealing a cell next to the mine shows that cell alone. */
  method NumberStops() returns (outcome: Outcome, f: Minefield)
    ensures f.Valid() && outcome == Continue && f.RevealedSet() == {(1, 1)}
  {
    f := OneMineBoard();
    f.MineSetMember((2, 2));
    f.MineSetMember((1, 1));
    f.MineSetMember((0, 0));
    f.AdjacentMinesZero(1, 1);
    assert Adjacent((1, 1), (2, 2));
    ghost var b := f.Snapshot();
    assert Open(b, (1, 1), {}) && !Expands(b, (1, 1));
    FillStopsAtNumber(b, (1, 1), {});
    outcome := f.RevealCell(1, 1);
    FloodFillUnique(b, f.RevealedSet() - {}, {(1, 1)}, (1, 1), {});
    assert f.RevealedSet() == {(1, 1)};
    assert (0, 0) in f.AllCells() && (0, 0) !in f.RevealedSet();
  }
}
