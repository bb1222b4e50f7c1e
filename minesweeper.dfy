/**
 * The minesweeper game-state engine: the cell grid, mine placement, adjacency counts,
 * the flood-fill reveal, flag toggling and the win test.
 */
module Minesweeper {
  import opened Grid
  import opened Neighbourhood
  import opened FloodFill

  /** What a reveal ends in. */
  datatype Outcome = Continue | Win | Loss

  /** Board size and mine count chosen by a difficulty name. */
  datatype Settings = Settings(width: nat, height: nat, mineCount: nat)

  /**
   * The difficulty table; an unknown or missing name plays as "easy". Every entry leaves
   * at least one cell free of mines, so mine placement can finish.
   */
  function SettingsFor(difficulty: string): (s: Settings)
    ensures 0 < s.width && 0 < s.height && s.mineCount < s.width * s.height
    ensures s.width == s.height
    ensures difficulty !in {"medium", "hard", "very-hard"} ==> s == Settings(10, 10, 10)
  {
    match difficulty
    case "easy" => Settings(10, 10, 10)
    case "medium" => Settings(15, 15, 30)
    case "hard" => Settings(20, 20, 60)
    case "very-hard" => Settings(25, 25, 100)
    case _ => Settings(10, 10, 10)
  }

  /** The distinct positions among the random draws. */
  ghost function Drawn(picks: seq<Pos>): set<Pos>
  {
    if picks == [] then {} else {picks[0]} + Drawn(picks[1..])
  }

  /** Every draw is among the distinct draws. */
  lemma {:induction false} DrawnHolds(picks: seq<Pos>, i: nat)
    requires i < |picks|
    ensures picks[i] in Drawn(picks)
    decreases i
  {
    if 0 < i {
      DrawnHolds(picks[1..], i - 1);
      assert picks[1..][i - 1] == picks[i];
    }
  }

  /**
   * The mines after placing k more by the draws from picks[from] on, given the mines so far:
   * each draw on a cell without a mine arms it, a draw on a mine is passed over, and placing
   * stops once k cells are armed (or the draws run out).
   */
  ghost function Placed(picks: seq<Pos>, mines: set<Pos>, k: nat, from: nat := 0): set<Pos>
    decreases |picks| - from
  {
    if k == 0 || |picks| <= from then mines
    else if picks[from] in mines then Placed(picks, mines, k, from + 1)
    else Placed(picks, mines + {picks[from]}, k - 1, from + 1)
  }

  /**
   * One draw p = picks[0] against the cells already mined: a draw on a mine leaves the
   * unmined cells among the draws as they were; a fresh draw arms p, which takes exactly p
   * out of them.
   */
  lemma DrawAccounting(picks: seq<Pos>, mines: set<Pos>)
    requires picks != []
    ensures picks[0] in mines ==> Drawn(picks) - mines == Drawn(picks[1..]) - mines
    ensures picks[0] !in mines ==>
      Drawn(picks) - mines == (Drawn(picks[1..]) - (mines + {picks[0]})) + {picks[0]}
    ensures picks[0] !in mines ==>
      |Drawn(picks) - mines| == |Drawn(picks[1..]) - (mines + {picks[0]})| + 1
  {
    var p := picks[0];
    if p !in mines {
      var unseen := Drawn(picks[1..]) - (mines + {p});
      assert Drawn(picks) - mines == unseen + {p};
      AddFreshSize(unseen, Drawn(picks) - mines, p, true);
    }
  }

  /**
   * Given enough distinct draws that are not yet mines, placing k mines keeps the old ones
   * and arms exactly k more, each of them a drawn cell.
   */
  lemma {:induction false} PlacedCount(picks: seq<Pos>, mines: set<Pos>, k: nat, from: nat)
    requires from <= |picks| && k <= |Drawn(picks[from..]) - mines|
    ensures mines <= Placed(picks, mines, k, from) <= mines + Drawn(picks[from..])
    ensures |Placed(picks, mines, k, from)| == |mines| + k
    decreases |picks| - from
  {
    if k != 0 && from < |picks| {
      var p := picks[from];
      var after := if p in mines then mines else mines + {p};
      assert picks[from..][0] == p && picks[from..][1..] == picks[from + 1..];
      DrawAccounting(picks[from..], mines);
      if p !in mines {
        AddFreshSize(mines, after, p, true);
      }
      PlacedCount(picks, after, if p in mines then k else k - 1, from + 1);
    }
  }

  /**
   * One draw: whether it arms a fresh cell or lands on a mine, the mines afterwards are the
   * old ones plus the drawn cell, and one fewer remains to place exactly when it was fresh.
   */
  lemma PlacedStep(picks: seq<Pos>, i: nat, mines: set<Pos>, k: nat)
    requires i < |picks| && 0 < k
    ensures Placed(picks, mines, k, i) ==
      Placed(picks, mines + {picks[i]}, if picks[i] in mines then k else k - 1, i + 1)
  {
    if picks[i] in mines {
      assert mines + {picks[i]} == mines;
    }
  }

  /** While placing still has mines to add, another draw exists. */
  lemma DrawsRemain(picks: seq<Pos>, i: nat, mines: set<Pos>, k: nat)
    requires 0 < k && |Placed(picks, mines, k, i)| == |mines| + k
    ensures i < |picks|
  {
  }

  /**
   * Where the placing loop stands after the draws before picks[i], with mines placed and k
   * still to place: placing the rest from here reaches `final`, which has k more mines.
   */
  ghost predicate Placing(picks: seq<Pos>, i: nat, mines: set<Pos>, k: nat, final: set<Pos>)
  {
    i <= |picks| && Placed(picks, mines, k, i) == final && |final| == |mines| + k
  }

  /** One turn of the placing loop: another draw exists, and taking it keeps Placing. */
  lemma PlacingStep(picks: seq<Pos>, i: nat, mines: set<Pos>, k: nat, final: set<Pos>)
    requires Placing(picks, i, mines, k, final) && 0 < k
    ensures i < |picks|
    ensures Placing(picks, i + 1, mines + {picks[i]}, if picks[i] in mines then k else k - 1, final)
  {
    DrawsRemain(picks, i, mines, k);
    PlacedStep(picks, i, mines, k);
    if picks[i] !in mines {
      AddFreshSize(mines, mines + {picks[i]}, picks[i], true);
    } else {
      assert mines + {picks[i]} == mines;
    }
  }

  /**
   * The grid `cells[x][y]` of records {isMine, revealed, flagged, count}, stored field by
   * field in four width x height arrays.
   */
  class Minefield {
    const width: nat
    const height: nat
    const mine: array2<bool>
    const revealed: array2<bool>
    const flagged: array2<bool>
    const count: array2<int>

    ghost predicate Valid()
    {
      mine.Length0 == width && mine.Length1 == height &&
      revealed.Length0 == width && revealed.Length1 == height &&
      flagged.Length0 == width && flagged.Length1 == height &&
      count.Length0 == width && count.Length1 == height &&
      mine != revealed && mine != flagged && revealed != flagged
    }

    /** Allocates the grid of a width x height board; InitMinefield fills it. */
    constructor (width: nat, height: nat)
      ensures Valid() && this.width == width && this.height == height
      ensures fresh(mine) && fresh(revealed) && fresh(flagged) && fresh(count)
    {
      this.width, this.height := width, height;
      mine := new bool[width, height];
      revealed := new bool[width, height];
      flagged := new bool[width, height];
      count := new int[width, height];
    }

    predicate InBounds(x: int, y: int)
    {
      0 <= x < width && 0 <= y < height
    }

    /** Every position of the board. */
    ghost function AllCells(): (s: set<Pos>)
      ensures forall p :: p in s <==> InBounds(p.0, p.1)
    {
      Block(width, height)
    }

    /** The positions holding a mine. */
    ghost function MineSet(): set<Pos>
      requires Valid()
      reads mine
    {
      set p | p in AllCells() && mine[p.0, p.1]
    }

    /** The positions already revealed. */
    ghost function RevealedSet(): set<Pos>
      requires Valid()
      reads revealed
    {
      set p | p in AllCells() && revealed[p.0, p.1]
    }

    /** (x, y) is on the board and holds a mine. */
    predicate IsMineAt(x: int, y: int)
      requires Valid()
      reads mine
    {
      InBounds(x, y) && mine[x, y]
    }

    // ---------------------------------------------------------------- adjacency counts

    /** The number of mines around (x, y): the count over the eight offsets. */
    ghost function AdjacentMines(x: int, y: int): nat
      requires Valid()
      reads mine
    {
      MinesAmong(MineSet(), (x, y), NeighbourOffsets)
    }

    /** A position is among the mines exactly when it is on the board and holds a mine. */
    lemma MineSetMember(p: Pos)
      requires Valid()
      ensures p in MineSet() <==> IsMineAt(p.0, p.1)
    {
    }

    /** No mine is counted around (x, y) exactly when none of its in-bounds neighbours is a mine. */
    lemma AdjacentMinesZero(x: int, y: int)
      requires Valid()
      ensures AdjacentMines(x, y) == 0 <==> forall q :: Adjacent((x, y), q) ==> !IsMineAt(q.0, q.1)
    {
      CountZeroIffNoMinedNeighbour(MineSet(), (x, y));
      forall q | Adjacent((x, y), q)
        ensures q in MineSet() <==> IsMineAt(q.0, q.1)
      {
        MineSetMember(q);
      }
    }

    /** Counts the mines around (x, y) with the two nested offset loops. */
    method CountAdjacentMines(x: int, y: int) returns (n: nat)
      requires Valid()
      ensures n == AdjacentMines(x, y)
    {
      ghost var mines := MineSet();
      n := 0;
      for dx := -1 to 2
        invariant n == MinesAmong(mines, (x, y), NeighbourOffsets[..OffsetIndex(dx, -1)])
      {
        n := CountColumn(x, y, dx, n, mines);
      }
      assert NeighbourOffsets[..8] == NeighbourOffsets;
    }

    /**
     * The inner loop of CountAdjacentMines: adds to n the mines at offsets (dx, -1), (dx, 0)
     * and (dx, 1) from (x, y), skipping (0, 0).
     */
    method CountColumn(x: int, y: int, dx: int, n0: nat, ghost mines: set<Pos>) returns (n: nat)
      requires Valid() && -1 <= dx <= 1 && mines == MineSet()
      requires n0 == MinesAmong(mines, (x, y), NeighbourOffsets[..OffsetIndex(dx, -1)])
      ensures n == MinesAmong(mines, (x, y), NeighbourOffsets[..OffsetIndex(dx, 2)])
    {
      n := n0;
      for dy := -1 to 2
        invariant n == MinesAmong(mines, (x, y), NeighbourOffsets[..OffsetIndex(dx, dy)])
      {
        if dx == 0 && dy == 0 {
          continue;
        }
        var nx, ny := x + dx, y + dy;
        OffsetStep(mines, (x, y), dx, dy);
        MineSetMember((nx, ny));
        if InBounds(nx, ny) && mine[nx, ny] {
          n := n + 1;
        }
        assert n == MinesAmong(mines, (x, y), NeighbourOffsets[..OffsetIndex(dx, dy + 1)]);
      }
    }

    /** Every non-mine cell holds the number of mines around it; a mine cell keeps count 0. */
    ghost predicate CountsCorrect()
      requires Valid()
      reads mine, count
    {
      forall a, b :: InBounds(a, b) ==> count[a, b] == if mine[a, b] then 0 else AdjacentMines(a, b)
    }

    /**
     * Sets `count` of every non-mine cell to the number of mines around it; mine cells keep
     * their count and the other fields are untouched.
     */
    method CalculateCounts()
      requires Valid()
      modifies count
      ensures forall a, b :: InBounds(a, b) ==>
        count[a, b] == if mine[a, b] then old(count[a, b]) else AdjacentMines(a, b)
    {
      for x := 0 to width
        invariant forall a, b :: 0 <= a < x && 0 <= b < height ==>
          count[a, b] == if mine[a, b] then old(count[a, b]) else AdjacentMines(a, b)
        invariant forall a, b :: x <= a < width && 0 <= b < height ==> count[a, b] == old(count[a, b])
      {
        for y := 0 to height
          invariant forall a, b :: 0 <= a < x && 0 <= b < height ==>
            count[a, b] == if mine[a, b] then old(count[a, b]) else AdjacentMines(a, b)
          invariant forall b :: 0 <= b < y ==>
            count[x, b] == if mine[x, b] then old(count[x, b]) else AdjacentMines(x, b)
          invariant forall a, b :: (x < a < width && 0 <= b < height) || (a == x && y <= b < height) ==>
            count[a, b] == old(count[a, b])
        {
          if !mine[x, y] {
            count[x, y] := CountAdjacentMines(x, y);
          }
        }
      }
    }

    // ---------------------------------------------------------------- setting up a round

    /** Resets every cell to {isMine: false, revealed: false, flagged: false, count: 0}. */
    method ClearCells()
      requires Valid()
      modifies mine, revealed, flagged, count
      ensures forall a, b :: InBounds(a, b) ==>
        !mine[a, b] && !revealed[a, b] && !flagged[a, b] && count[a, b] == 0
    {
      for x := 0 to width
        invariant forall a, b :: 0 <= a < x && 0 <= b < height ==>
          !mine[a, b] && !revealed[a, b] && !flagged[a, b] && count[a, b] == 0
      {
        for y := 0 to height
          invariant forall a, b :: 0 <= a < x && 0 <= b < height ==>
            !mine[a, b] && !revealed[a, b] && !flagged[a, b] && count[a, b] == 0
          invariant forall b :: 0 <= b < y ==>
            !mine[x, b] && !revealed[x, b] && !flagged[x, b] && count[x, b] == 0
        {
          mine[x, y], revealed[x, y], flagged[x, y], count[x, y] := false, false, false, 0;
        }
      }
    }

    /**
     * Places mineCount new mines by rejection sampling: each draw that lands on a cell without
     * a mine turns it into one, a draw that lands on a mine changes nothing. The random draws
     * are the sequence `picks`, which must hold at least mineCount distinct cells not yet mined
     * (with a fair random source that happens with probability 1).
     */
    method PlaceMines(mineCount: nat, picks: seq<Pos>)
      requires Valid()
      requires Drawn(picks) <= AllCells()
      requires mineCount <= |Drawn(picks) - MineSet()|
      modifies mine
      ensures old(MineSet()) <= MineSet() <= old(MineSet()) + Drawn(picks)
      ensures |MineSet()| == |old(MineSet())| + mineCount
      ensures MineSet() == Placed(picks, old(MineSet()), mineCount)
    {
      ghost var initial := MineSet();
      ghost var final := Placed(picks, initial, mineCount);
      assert picks[0..] == picks;
      PlacedCount(picks, initial, mineCount, 0);
      ghost var mines := initial;
      var minesPlaced := 0;
      var i := 0;
      while minesPlaced < mineCount
        invariant minesPlaced <= mineCount
        invariant MineSet() == mines
        invariant Placing(picks, i, mines, mineCount - minesPlaced, final)
        decreases |picks| - i
      {
        PlacingStep(picks, i, mines, mineCount - minesPlaced, final);
        var p := picks[i];
        DrawnHolds(picks, i);
        i := i + 1;
        var armed := ArmCell(p, mines);
        if armed {
          minesPlaced := minesPlaced + 1;
        }
        mines := mines + {p};
      }
    }

    /** Turns the cell p into a mine unless it is one already, and says whether it did. */
    method ArmCell(p: Pos, ghost mines: set<Pos>) returns (armed: bool)
      requires Valid() && p in AllCells() && MineSet() == mines
      modifies mine
      ensures armed == (p !in mines)
      ensures MineSet() == mines + {p}
    {
      MineSetMember(p);
      armed := !mine[p.0, p.1];
      if armed {
        label Unarmed:
        mine[p.0, p.1] := true;
        MineSetGrows@Unarmed(p);
      }
    }

    /** Arming the one cell p adds p to the mine positions. */
    twostate lemma MineSetGrows(p: Pos)
      requires Valid() && InBounds(p.0, p.1) && mine[p.0, p.1]
      requires forall a, b :: InBounds(a, b) && (a, b) != p ==> mine[a, b] == old(mine[a, b])
      ensures MineSet() == old(MineSet()) + {p}
    {
    }

    /** Mines never outnumber the cells of the board. */
    lemma MineCountBound()
      requires Valid()
      ensures |MineSet()| <= width * height
    {
      BlockSize(width, height);
      SubsetSize(MineSet(), AllCells());
    }

    /**
     * Starts a round: clears every cell, places mineCount mines at drawn positions and
     * fills in the counts.
     */
    method InitMinefield(mineCount: nat, picks: seq<Pos>)
      requires Valid()
      requires Drawn(picks) <= AllCells()
      requires mineCount <= |Drawn(picks)|
      modifies mine, revealed, flagged, count
      ensures |MineSet()| == mineCount && MineSet() <= Drawn(picks)
      ensures MineSet() == Placed(picks, {}, mineCount)
      ensures mineCount <= width * height
      ensures CountsCorrect()
      ensures forall a, b :: InBounds(a, b) ==> !revealed[a, b] && !flagged[a, b]
    {
      ClearCells();
      assert MineSet() == {};
      PlaceMines(mineCount, picks);
      CalculateCounts();
      MineCountBound();
    }

    // ---------------------------------------------------------------- flags

    /** Flips the flag of an unrevealed cell; a revealed cell is left alone. */
    method ToggleFlag(x: int, y: int)
      requires Valid() && InBounds(x, y)
      modifies flagged
      ensures flagged[x, y] == if revealed[x, y] then old(flagged[x, y]) else !old(flagged[x, y])
      ensures forall a, b :: InBounds(a, b) && (a, b) != (x, y) ==> flagged[a, b] == old(flagged[a, b])
    {
      if !revealed[x, y] {
        flagged[x, y] := !flagged[x, y];
      }
    }

    /** Sets `revealed` on every mine cell and on no other cell. */
    method RevealMines()
      requires Valid()
      modifies revealed
      ensures forall a, b :: InBounds(a, b) ==> revealed[a, b] == (old(revealed[a, b]) || mine[a, b])
      ensures RevealedSet() == old(RevealedSet()) + MineSet()
    {
      for x := 0 to width
        invariant forall a, b :: 0 <= a < x && 0 <= b < height ==> revealed[a, b] == (old(revealed[a, b]) || mine[a, b])
        invariant forall a, b :: x <= a < width && 0 <= b < height ==> revealed[a, b] == old(revealed[a, b])
      {
        for y := 0 to height
          invariant forall a, b :: 0 <= a < x && 0 <= b < height ==> revealed[a, b] == (old(revealed[a, b]) || mine[a, b])
          invariant forall b :: 0 <= b < y ==> revealed[x, b] == (old(revealed[x, b]) || mine[x, b])
          invariant forall a, b :: (x < a < width && 0 <= b < height) || (a == x && y <= b < height) ==>
            revealed[a, b] == old(revealed[a, b])
        {
          if mine[x, y] {
            revealed[x, y] := true;
          }
        }
      }
    }

    // ---------------------------------------------------------------- flood fill

    /** The fixed part of the board the fill rule reads: cells, mines, flags and zero counts. */
    ghost function Snapshot(): (b: Layout)
      requires Valid()
      reads mine, count, flagged
      ensures b.cells == AllCells() && b.mines == MineSet()
    {
      Layout(AllCells(), MineSet(),
             set p | p in AllCells() && flagged[p.0, p.1],
             set p | p in AllCells() && count[p.0, p.1] == 0)
    }

    /** With correct counts, a non-mine cell showing 0 has no mine among its neighbours. */
    lemma ZerosAreSafe()
      requires Valid() && CountsCorrect()
      ensures ZerosSafe(Snapshot())
    {
      var b := Snapshot();
      forall p, q | Expands(b, p) && Adjacent(p, q)
        ensures q !in b.mines
      {
        AdjacentMinesZero(p.0, p.1);
        assert (p.0, p.1) == p;
        MineSetMember(q);
      }
    }

    /** q may be queued: on the board, hidden and not flagged (checked against the current state). */
    predicate Pushable(q: Pos)
      requires Valid()
      reads revealed, flagged
    {
      InBounds(q.0, q.1) && !revealed[q.0, q.1] && !flagged[q.0, q.1]
    }

    /** A cell may be queued exactly when it is open with respect to the cells revealed now. */
    lemma PushableIsOpen()
      requires Valid()
      ensures forall q :: Pushable(q) <==> Open(Snapshot(), q, RevealedSet())
    {
    }

    /**
     * The entries the fill appends to its queue after revealing c: every in-bounds neighbour
     * of c that is neither revealed nor flagged, in the order of the nested dx/dy loops.
     */
    method HiddenNeighbours(c: Pos) returns (pushed: seq<Pos>)
      requires Valid()
      ensures forall i :: 0 <= i < |pushed| ==> Adjacent(c, pushed[i]) && Open(Snapshot(), pushed[i], RevealedSet())
      ensures forall q :: Adjacent(c, q) && Open(Snapshot(), q, RevealedSet()) ==> q in pushed
    {
      pushed := [];
      for dx := -1 to 2
        invariant forall i :: 0 <= i < |pushed| ==> Adjacent(c, pushed[i]) && Pushable(pushed[i])
        invariant forall q :: Adjacent(c, q) && Pushable(q) && q.0 < c.0 + dx ==> q in pushed
      {
        for dy := -1 to 2
          invariant forall i :: 0 <= i < |pushed| ==> Adjacent(c, pushed[i]) && Pushable(pushed[i])
          invariant forall q :: Adjacent(c, q) && Pushable(q) && (q.0 < c.0 + dx || (q.0 == c.0 + dx && q.1 < c.1 + dy)) ==>
            q in pushed
        {
          if dx == 0 && dy == 0 {
            continue;
          }
          var nx, ny := c.0 + dx, c.1 + dy;
          if InBounds(nx, ny) && !revealed[nx, ny] && !flagged[nx, ny] {
            pushed := pushed + [(nx, ny)];
          }
        }
      }
      PushableIsOpen();
    }

    /**
     * The work-queue loop of a reveal: reveals (x, y) and, breadth-first, every cell the fill
     * rule reaches from it, stopping as soon as the cell it reveals is a mine. That can only
     * be (x, y) itself, since no cell showing 0 has a mine next to it.
     */
    method FloodReveal(x: int, y: int) returns (hitMine: bool)
      requires Valid() && CountsCorrect()
      modifies revealed
      ensures hitMine <==> Open(Snapshot(), (x, y), old(RevealedSet())) && (x, y) in MineSet()
      ensures hitMine ==> RevealedSet() == old(RevealedSet()) + {(x, y)}
      ensures !hitMine ==> old(RevealedSet()) <= RevealedSet()
      ensures !hitMine ==> FloodFilled(Snapshot(), RevealedSet() - old(RevealedSet()), (x, y), old(RevealedSet()))
    {
      ghost var was := RevealedSet();
      ghost var b := Snapshot();
      ghost var start := (x, y);
      ghost var N: set<Pos> := {};
      ZerosAreSafe();
      var queue := [(x, y)];
      FillStart(b, start, was);
      while queue != []
        invariant Snapshot() == b
        invariant RevealedSet() == was + N
        invariant FillProgress(b, N, queue, start, was)
        decreases AllCells() - N, |queue|
      {
        ghost var queued := queue;
        var c := queue[0];
        queue := queue[1..];
        assert queued[0] == c && queued[1..] == queue;
        if !InBounds(c.0, c.1) || revealed[c.0, c.1] || flagged[c.0, c.1] {
          FillSkip(b, N, queued, start, was);
          continue;
        }
        HiddenCellIsNew(c, was, N);
        label Hidden:
        revealed[c.0, c.1] := true;
        RevealedSetGrows@Hidden(c);
        if mine[c.0, c.1] {
          MineSetMember(c);
          FillHitsMine(b, N, queued, start, was);
          return true;
        }
        var pushed: seq<Pos>;
        if count[c.0, c.1] == 0 {
          pushed := HiddenNeighbours(c);
        } else {
          pushed := [];
        }
        UnionAddOne(was, N, c);
        FillReveal(b, N, queued, start, was, pushed);
        queue := queue + pushed;
        N := N + {c};
      }
      FillDone(b, N, start, was);
      assert RevealedSet() - was == N;
      return false;
    }

    /**
     * Reveals (x, y) and every cell the fill rule reaches from it. Revealing a mine reveals
     * every mine and ends in Loss; otherwise the newly revealed cells are the flood fill from
     * (x, y), none of them flagged or mined, and the outcome is Win exactly when every
     * non-mine cell is revealed.
     */
    method RevealCell(x: int, y: int) returns (outcome: Outcome)
      requires Valid() && CountsCorrect()
      modifies revealed
      ensures outcome == Loss <==> InBounds(x, y) && !old(revealed[x, y]) && !flagged[x, y] && mine[x, y]
      ensures outcome == Loss ==> RevealedSet() == old(RevealedSet()) + MineSet()
      ensures outcome != Loss ==> old(RevealedSet()) <= RevealedSet()
      ensures outcome != Loss ==> FloodFilled(Snapshot(), RevealedSet() - old(RevealedSet()), (x, y), old(RevealedSet()))
      ensures outcome != Loss ==> forall p :: p in RevealedSet() - old(RevealedSet()) ==>
        !flagged[p.0, p.1] && !mine[p.0, p.1]
      ensures outcome != Loss ==> (outcome == Win <==> IsWon())
    {
      ghost var was := RevealedSet();
      MineSetMember((x, y));
      var hitMine := FloodReveal(x, y);
      if hitMine {
        RevealMines();
        return Loss;
      }
      NewCellsSafe(RevealedSet() - was, (x, y), was);
      var won := CheckForWin();
      outcome := if won then Win else Continue;
    }

    /** Every cell of a flood fill is open, so not flagged, and with correct counts not a mine. */
    lemma NewCellsSafe(N: set<Pos>, start: Pos, was: set<Pos>)
      requires Valid() && CountsCorrect() && FloodFilled(Snapshot(), N, start, was)
      requires !(Open(Snapshot(), start, was) && start in MineSet())
      ensures forall p :: p in N ==> InBounds(p.0, p.1) && !flagged[p.0, p.1] && !mine[p.0, p.1]
    {
      ZerosAreSafe();
      FloodFilledSafe(Snapshot(), N, start, was);
    }

    /** A cell still hidden is neither among the cells revealed before the fill nor among those it revealed. */
    lemma HiddenCellIsNew(c: Pos, was: set<Pos>, N: set<Pos>)
      requires Valid() && RevealedSet() == was + N
      requires InBounds(c.0, c.1) && !revealed[c.0, c.1]
      ensures c !in was && c !in N
    {
    }

    /** Revealing the one hidden cell p adds p to the revealed positions. */
    twostate lemma RevealedSetGrows(p: Pos)
      requires Valid() && InBounds(p.0, p.1) && revealed[p.0, p.1]
      requires forall a, b :: InBounds(a, b) && (a, b) != p ==> revealed[a, b] == old(revealed[a, b])
      ensures RevealedSet() == old(RevealedSet()) + {p}
    {
    }

    // ---------------------------------------------------------------- winning

    /** Every non-mine cell is revealed. */
    ghost predicate IsWon()
      requires Valid()
      reads mine, revealed
    {
      forall a, b :: InBounds(a, b) && !mine[a, b] ==> revealed[a, b]
    }

    /** Winning means every cell without a mine is among the revealed ones. */
    lemma WonIffSafeCellsRevealed()
      requires Valid()
      ensures IsWon() <==> AllCells() - MineSet() <= RevealedSet()
    {
      if AllCells() - MineSet() <= RevealedSet() {
        forall a, b | InBounds(a, b) && !mine[a, b]
          ensures revealed[a, b]
        {
          assert (a, b) in AllCells() - MineSet();
        }
      }
    }

    /** Scans the board for a non-mine cell still hidden. */
    method CheckForWin() returns (won: bool)
      requires Valid()
      ensures won <==> IsWon()
    {
      for x := 0 to width
        invariant forall a, b :: 0 <= a < x && 0 <= b < height ==> mine[a, b] || revealed[a, b]
      {
        for y := 0 to height
          invariant forall a, b :: 0 <= a < x && 0 <= b < height ==> mine[a, b] || revealed[a, b]
          invariant forall b :: 0 <= b < y ==> mine[x, b] || revealed[x, b]
        {
          if !mine[x, y] && !revealed[x, y] {
            return false;
          }
        }
      }
      return true;
    }
  }
}
