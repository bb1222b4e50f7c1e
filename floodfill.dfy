/**
 * The rule by which revealing a cell spreads over the board, stated over a snapshot of the
 * board, and the facts the breadth-first reveal loop keeps while it applies the rule.
 */
module FloodFill {
  import opened Grid

  /**
   * What the fill looks at: the board's cells, the mined ones, the flagged ones and the
   * ones whose stored count is 0. None of these change while cells are revealed.
   */
  datatype Layout = Layout(cells: set<Pos>, mines: set<Pos>, flags: set<Pos>, zeros: set<Pos>)

  /** p is a cell the fill may reveal: on the board, not revealed before (`was`), not flagged. */
  ghost predicate Open(b: Layout, p: Pos, was: set<Pos>)
  {
    p in b.cells && p !in was && p !in b.flags
  }

  /** Revealing p makes the fill go on to its neighbours: p is a non-mine cell showing 0. */
  ghost predicate Expands(b: Layout, p: Pos)
  {
    p in b.cells && p !in b.mines && p in b.zeros
  }

  /** The counts are right about zeros: no cell that expands has a mine next to it. */
  ghost predicate ZerosSafe(b: Layout)
  {
    forall p, q :: Expands(b, p) && Adjacent(p, q) ==> q !in b.mines
  }

  /**
   * S is closed under the fill rule started at `start`: it holds the start cell if that is
   * open, and every open neighbour of each cell of S that expands.
   */
  ghost predicate FillClosed(b: Layout, S: set<Pos>, start: Pos, was: set<Pos>)
  {
    (Open(b, start, was) ==> start in S) &&
    forall p, q :: p in S && Expands(b, p) && Adjacent(p, q) && Open(b, q, was) ==> q in S
  }

  /** N is the least set closed under the fill rule: exactly what a flood fill from start reveals. */
  ghost predicate FloodFilled(b: Layout, N: set<Pos>, start: Pos, was: set<Pos>)
  {
    FillClosed(b, N, start, was) && forall S :: FillClosed(b, S, start, was) ==> N <= S
  }

  /** At most one set is the flood fill from a given start. */
  lemma FloodFillUnique(b: Layout, N: set<Pos>, M: set<Pos>, start: Pos, was: set<Pos>)
    requires FloodFilled(b, N, start, was) && FloodFilled(b, M, start, was)
    ensures N == M
  {
  }

  /**
   * With correct zero counts, a flood fill that does not start on an open mine holds only
   * open cells and no mine: every cell but the start is next to a cell showing 0.
   */
  lemma FloodFilledSafe(b: Layout, N: set<Pos>, start: Pos, was: set<Pos>)
    requires ZerosSafe(b) && FloodFilled(b, N, start, was)
    requires !(Open(b, start, was) && start in b.mines)
    ensures forall p :: p in N ==> Open(b, p, was) && p !in b.mines
  {
    var S := set p | p in N && Open(b, p, was) && p !in b.mines;
    assert FillClosed(b, S, start, was);
  }

  /** A fill started on a cell that is not open reveals nothing. */
  lemma FillFromClosedIsEmpty(b: Layout, start: Pos, was: set<Pos>)
    requires !Open(b, start, was)
    ensures FloodFilled(b, {}, start, was)
  {
  }

  /** A fill started on an open cell that does not expand reveals that cell alone. */
  lemma FillStopsAtNumber(b: Layout, start: Pos, was: set<Pos>)
    requires Open(b, start, was) && !Expands(b, start)
    ensures FloodFilled(b, {start}, start, was)
  {
  }

  // ---------------------------------------------------------------- fill paths

  /**
   * A chain the fill can follow: it starts at `start`, each cell is open and adjacent to
   * the one before, and every cell but the last expands.
   */
  ghost predicate FillPath(b: Layout, path: seq<Pos>, start: Pos, was: set<Pos>)
  {
    |path| > 0 && path[0] == start &&
    (forall i :: 0 <= i < |path| ==> Open(b, path[i], was)) &&
    (forall i :: 0 <= i < |path| - 1 ==> Expands(b, path[i]) && Adjacent(path[i], path[i + 1]))
  }

  /** The cells at the end of some fill path. */
  ghost predicate Reachable(b: Layout, p: Pos, start: Pos, was: set<Pos>)
  {
    exists path :: FillPath(b, path, start, was) && path[|path| - 1] == p
  }

  /** The cells of the board at the end of some fill path. */
  ghost function ReachableSet(b: Layout, start: Pos, was: set<Pos>): set<Pos>
  {
    set p | p in b.cells && Reachable(b, p, start, was)
  }

  /** Every prefix of a fill path is a fill path. */
  lemma FillPathPrefix(b: Layout, path: seq<Pos>, start: Pos, was: set<Pos>, n: nat)
    requires FillPath(b, path, start, was) && 0 < n <= |path|
    ensures FillPath(b, path[..n], start, was)
  {
  }

  /** A set closed under the fill rule contains every cell of every fill path. */
  lemma {:induction false} ClosedHoldsPath(b: Layout, S: set<Pos>, path: seq<Pos>, start: Pos, was: set<Pos>)
    requires FillClosed(b, S, start, was) && FillPath(b, path, start, was)
    ensures path[|path| - 1] in S
    decreases |path|
  {
    if |path| > 1 {
      var n := |path| - 1;
      FillPathPrefix(b, path, start, was, n);
      ClosedHoldsPath(b, S, path[..n], start, was);
      assert path[..n][n - 1] == path[n - 1];
      assert Expands(b, path[n - 1]) && Adjacent(path[n - 1], path[n]) && Open(b, path[n], was);
    }
  }

  /** The cells reachable along fill paths form a set closed under the fill rule. */
  lemma ReachableClosed(b: Layout, start: Pos, was: set<Pos>)
    ensures FillClosed(b, ReachableSet(b, start, was), start, was)
  {
    var R := ReachableSet(b, start, was);
    if Open(b, start, was) {
      assert FillPath(b, [start], start, was);
      assert Reachable(b, start, start, was);
    }
    forall p, q | p in R && Expands(b, p) && Adjacent(p, q) && Open(b, q, was)
      ensures q in R
    {
      var path :| FillPath(b, path, start, was) && path[|path| - 1] == p;
      var longer := path + [q];
      assert longer[|longer| - 1] == q;
      assert FillPath(b, longer, start, was);
    }
  }

  /**
   * The flood fill is exactly the set of cells reachable from the start along a chain of
   * open cells each of which, but the last, is a non-mine cell showing 0.
   */
  lemma FloodFilledIsReachable(b: Layout, N: set<Pos>, start: Pos, was: set<Pos>, p: Pos)
    requires FloodFilled(b, N, start, was)
    ensures p in N <==> Reachable(b, p, start, was)
  {
    var R := ReachableSet(b, start, was);
    ReachableClosed(b, start, was);
    assert N <= R;
    if Reachable(b, p, start, was) {
      var path :| FillPath(b, path, start, was) && path[|path| - 1] == p;
      ClosedHoldsPath(b, N, path, start, was);
    }
  }

  // ---------------------------------------------------------------- the reveal loop

  /**
   * The facts the breadth-first loop keeps, for the cells N it has revealed so far and
   * its queue: N holds only open non-mine cells; a queued cell is the start or not a mine;
   * until the first dequeue the queue is just the start; each open neighbour of an
   * expanding cell of N is revealed or still queued; and N and the open queued cells lie
   * in every set closed under the fill rule.
   */
  ghost predicate FillProgress(b: Layout, N: set<Pos>, queue: seq<Pos>, start: Pos, was: set<Pos>)
  {
    was !! N &&
    (forall p :: p in N ==> Open(b, p, was) && p !in b.mines) &&
    (forall i :: 0 <= i < |queue| ==> queue[i] == start || queue[i] !in b.mines) &&
    ((queue == [start] && N == {}) || !Open(b, start, was) || start in N) &&
    (forall p, q :: p in N && Expands(b, p) && Adjacent(p, q) && Open(b, q, was) ==> q in N || q in queue) &&
    (forall S :: FillClosed(b, S, start, was) ==> N <= S && forall q :: q in queue && Open(b, q, was) ==> q in S)
  }

  /** The loop starts with nothing revealed and the start cell queued. */
  lemma FillStart(b: Layout, start: Pos, was: set<Pos>)
    ensures FillProgress(b, {}, [start], start, was)
  {
  }

  /** Dropping a queued cell that is off the board, flagged or already revealed. */
  lemma FillSkip(b: Layout, N: set<Pos>, queue: seq<Pos>, start: Pos, was: set<Pos>)
    requires FillProgress(b, N, queue, start, was)
    requires queue != [] && (!Open(b, queue[0], was) || queue[0] in N)
    ensures FillProgress(b, N, queue[1..], start, was)
  {
  }

  /** Only the start cell can be a mine when it is dequeued, and then nothing was revealed yet. */
  lemma FillHitsMine(b: Layout, N: set<Pos>, queue: seq<Pos>, start: Pos, was: set<Pos>)
    requires FillProgress(b, N, queue, start, was)
    requires queue != [] && Open(b, queue[0], was) && queue[0] !in N && queue[0] in b.mines
    ensures queue[0] == start && N == {}
  {
  }

  /**
   * Revealing the dequeued open non-mine cell c and queueing `pushed`: all of c's open
   * neighbours not yet revealed when c expands, nothing otherwise.
   */
  lemma FillReveal(b: Layout, N: set<Pos>, queue: seq<Pos>, start: Pos, was: set<Pos>, pushed: seq<Pos>)
    requires ZerosSafe(b) && FillProgress(b, N, queue, start, was)
    requires queue != [] && Open(b, queue[0], was) && queue[0] !in N && queue[0] !in b.mines
    requires !Expands(b, queue[0]) ==> pushed == []
    requires forall i :: 0 <= i < |pushed| ==>
      Adjacent(queue[0], pushed[i]) && Open(b, pushed[i], was + N + {queue[0]})
    requires Expands(b, queue[0]) ==>
      forall q :: Adjacent(queue[0], q) && Open(b, q, was + N + {queue[0]}) ==> q in pushed
    ensures FillProgress(b, N + {queue[0]}, queue[1..] + pushed, start, was)
  {
  }

  /** When the queue is empty, the revealed cells are exactly the flood fill and none is a mine. */
  lemma FillDone(b: Layout, N: set<Pos>, start: Pos, was: set<Pos>)
    requires FillProgress(b, N, [], start, was)
    ensures FloodFilled(b, N, start, was)
    ensures !(Open(b, start, was) && start in b.mines)
  {
  }
}
