/** The rules of the game stated on values: which squares a left click
    reveals, which mines a loss puts on show, what a flag toggle does, and
    when every square has been played. The class in module Minesweeper is
    proved against these definitions. */
module Rules {
  import opened Board

  /** The state the game keeps consistent between events: the squares are
      keyed by exactly the board's rectangle, the mines are distinct squares of
      the board, a square is a mine exactly when its key is among the mines
      (generateMines sets both together), and a flagged square is active
      (addFlag sets both, removeFlag clears both). */
  ghost predicate Consistent(width: int, height: int, mines: seq<Pos>, board: map<Pos, Square>) {
    && (forall q :: q in board <==> InBounds(width, height, q))
    && Distinct(mines)
    && (forall i :: 0 <= i < |mines| ==> mines[i] in board)
    && (forall q :: q in board ==> (board[q].isMine <==> q in mines))
    && (forall q :: q in board ==> (board[q].hasFlag ==> board[q].active))
  }

  /** While the game is being played no mine is shown: a mine that is active
      carries a flag. */
  ghost predicate NoMineShown(board: map<Pos, Square>) {
    forall q :: q in board && board[q].isMine && board[q].active ==> board[q].hasFlag
  }

  /** A path the cascade can take from `path[0]`: every later square is a
      square of the board that was not active and touches the one before it,
      and every square but the last has no mine among its neighbours (the
      cascade only continues through squares whose count is zero). */
  ghost predicate RevealPath(width: int, height: int, mines: seq<Pos>, board: map<Pos, Square>, path: seq<Pos>) {
    && |path| >= 1
    && (forall i :: 0 <= i < |path| ==> path[i] in board)
    && (forall i :: 1 <= i < |path| ==> !board[path[i]].active && Touching(path[i - 1], path[i]))
    && (forall i :: 0 <= i < |path| - 1 ==> MineCount(width, height, mines, path[i]) == 0)
  }

  ghost predicate Reachable(width: int, height: int, mines: seq<Pos>, board: map<Pos, Square>, start: Pos, q: Pos) {
    exists path :: RevealPath(width, height, mines, board, path) && path[0] == start && path[|path| - 1] == q
  }

  /** The board after a left click on the non-mine square `start`: the squares
      active before stay active, and every square the cascade can reach from
      `start` becomes active; nothing else changes. */
  ghost function AfterReveal(width: int, height: int, mines: seq<Pos>, board: map<Pos, Square>, start: Pos): (r: map<Pos, Square>)
    ensures Monotone(board, r)
    ensures start in board ==> r[start].active
  {
    var r := map q | q in board :: board[q].(active := board[q].active || Reachable(width, height, mines, board, start, q));
    if start in board then
      SingleSquareReachable(width, height, mines, board, start);
      r
    else r
  }

  /** Every square is active: the condition under which checkAllSquares calls endGame. */
  predicate AllActive(board: map<Pos, Square>) {
    forall q :: q in board ==> board[q].active
  }

  /** `after` differs from `before` only in squares that turned active. */
  ghost predicate Monotone(before: map<Pos, Square>, after: map<Pos, Square>) {
    && after.Keys == before.Keys
    && forall q :: q in before ==>
      && after[q].isMine == before[q].isMine && after[q].hasFlag == before[q].hasFlag
      && (before[q].active ==> after[q].active)
  }

  /** `after` differs from `before` only in squares that turned active and that
      the cascade can reach from `start`. */
  ghost predicate Grown(width: int, height: int, mines: seq<Pos>, before: map<Pos, Square>, after: map<Pos, Square>, start: Pos) {
    && Monotone(before, after)
    && forall q {:trigger Reachable(width, height, mines, before, start, q)} ::
      q in before && after[q].active && !before[q].active ==> Reachable(width, height, mines, before, start, q)
  }

  /** The neighbours of `q` that are on the board are all active. */
  ghost predicate SettledIn(board: map<Pos, Square>, q: Pos) {
    forall d :: Offset(q, d) in board ==> board[Offset(q, d)].active
  }

  /** The cascade's closure: from `start` and from every square that became
      active since `before`, a square with no mine around it has all its
      neighbours active. */
  ghost predicate ClosedUnder(width: int, height: int, mines: seq<Pos>, before: map<Pos, Square>, after: map<Pos, Square>, start: Pos) {
    forall q {:trigger SettledIn(after, q)} ::
      (q in after && q in before && (q == start || (after[q].active && !before[q].active))
       && MineCount(width, height, mines, q) == 0)
      ==> SettledIn(after, q)
  }

  /** The squares that are not active: what the cascade may still enter. */
  ghost function InactiveIn(board: map<Pos, Square>): set<Pos> {
    set q | q in board && !board[q].active
  }

  /** Every square that turned active since `since` and has no mine around it
      has all its neighbours active. */
  ghost predicate NewlySettled(width: int, height: int, mines: seq<Pos>, since: map<Pos, Square>, now: map<Pos, Square>) {
    forall q {:trigger SettledIn(now, q)} ::
      (q in now && q in since && now[q].active && !since[q].active && MineCount(width, height, mines, q) == 0)
      ==> SettledIn(now, q)
  }

  lemma MonotoneTrans(a: map<Pos, Square>, b: map<Pos, Square>, c: map<Pos, Square>)
    requires Monotone(a, b) && Monotone(b, c)
    ensures Monotone(a, c)
  {
  }

  /** One cascade step keeps the change since `before` reachable from `start`. */
  lemma GrownStep(width: int, height: int, mines: seq<Pos>, before: map<Pos, Square>, board: map<Pos, Square>, start: Pos, n: Pos)
    requires Grown(width, height, mines, before, board, start)
    requires n in board && Reachable(width, height, mines, before, start, n)
    ensures Grown(width, height, mines, before, board[n := board[n].(active := true)], start)
  {
    var after := board[n := board[n].(active := true)];
    assert after.Keys == board.Keys;
  }

  /** Showing a count on a square that touches a mine keeps the closure. */
  lemma NewlySettledAfterCounter(width: int, height: int, mines: seq<Pos>, since: map<Pos, Square>, board: map<Pos, Square>, n: Pos)
    requires Monotone(since, board) && NewlySettled(width, height, mines, since, board)
    requires n in board && MineCount(width, height, mines, n) > 0
    ensures NewlySettled(width, height, mines, since, board[n := board[n].(active := true)])
  {
    var after := board[n := board[n].(active := true)];
    forall q | q in after && q in since && after[q].active && !since[q].active && MineCount(width, height, mines, q) == 0
      ensures SettledIn(after, q)
    {
      assert q != n;
      assert SettledIn(board, q);
    }
  }

  /** After the cascade from a newly activated square `n` returns, the closure
      holds again for everything activated since `since`. */
  lemma NewlySettledAfterCascade(width: int, height: int, mines: seq<Pos>, since: map<Pos, Square>, board: map<Pos, Square>, n: Pos, after: map<Pos, Square>)
    requires Monotone(since, board) && NewlySettled(width, height, mines, since, board)
    requires n in board
    requires var marked := board[n := board[n].(active := true)];
      Monotone(marked, after) && ClosedUnder(width, height, mines, marked, after, n)
    ensures NewlySettled(width, height, mines, since, after)
  {
    var marked := board[n := board[n].(active := true)];
    forall q | q in after && q in since && after[q].active && !since[q].active && MineCount(width, height, mines, q) == 0
      ensures SettledIn(after, q)
    {
      if q != n && board[q].active {
        assert SettledIn(board, q);
      }
    }
  }

  /** What holds of the board at every point of one call of the cascade that
      started on the board `since`: the change since the click stays
      reachable, squares only turned active, and every newly active square
      with no mine around it has all its neighbours active. */
  ghost predicate Cascading(width: int, height: int, mines: seq<Pos>, before: map<Pos, Square>, start: Pos, since: map<Pos, Square>, board: map<Pos, Square>) {
    && Grown(width, height, mines, before, board, start)
    && Monotone(since, board)
    && InactiveIn(board) <= InactiveIn(since)
    && NewlySettled(width, height, mines, since, board)
  }

  /** The cascade enters a square: the change stays reachable, and one square
      fewer may still be entered. */
  lemma EnterSquare(width: int, height: int, mines: seq<Pos>, before: map<Pos, Square>, start: Pos, board: map<Pos, Square>, n: Pos)
    requires Grown(width, height, mines, before, board, start)
    requires n in board && !board[n].active
    requires Reachable(width, height, mines, before, start, n)
    ensures var after := board[n := board[n].(active := true)];
      && Grown(width, height, mines, before, after, start)
      && Monotone(board, after)
      && InactiveIn(after) < InactiveIn(board)
  {
    var after := board[n := board[n].(active := true)];
    assert after.Keys == board.Keys;
    assert n in InactiveIn(board) && n !in InactiveIn(after);
    GrownStep(width, height, mines, before, board, start, n);
  }

  /** A square that touches a mine shows its count and the cascade goes on. */
  lemma CounterStep(width: int, height: int, mines: seq<Pos>, before: map<Pos, Square>, start: Pos, since: map<Pos, Square>, board: map<Pos, Square>, n: Pos)
    requires Cascading(width, height, mines, before, start, since, board)
    requires n in board && !board[n].active
    requires Reachable(width, height, mines, before, start, n) && MineCount(width, height, mines, n) > 0
    ensures var after := board[n := board[n].(active := true)];
      && Cascading(width, height, mines, before, start, since, after)
      && Monotone(board, after)
  {
    EnterSquare(width, height, mines, before, start, board, n);
    NewlySettledAfterCounter(width, height, mines, since, board, n);
    MonotoneTrans(since, board, board[n := board[n].(active := true)]);
  }

  /** After the cascade from a square with no mine around it returns, the
      state of the enclosing call holds again. */
  lemma ReturnStep(width: int, height: int, mines: seq<Pos>, before: map<Pos, Square>, start: Pos, since: map<Pos, Square>, board: map<Pos, Square>, n: Pos, after: map<Pos, Square>)
    requires Cascading(width, height, mines, before, start, since, board)
    requires n in board && !board[n].active
    requires var marked := board[n := board[n].(active := true)];
      && Cascading(width, height, mines, before, start, marked, after)
      && ClosedUnder(width, height, mines, marked, after, n)
    ensures Cascading(width, height, mines, before, start, since, after)
    ensures Monotone(board, after) && after[n].active
  {
    var marked := board[n := board[n].(active := true)];
    assert InactiveIn(marked) <= InactiveIn(board);
    MonotoneTrans(board, marked, after);
    MonotoneTrans(since, board, after);
    NewlySettledAfterCascade(width, height, mines, since, board, n, after);
  }

  /** The neighbours of `p` in the first `i` directions that are on the board
      are active: how far generateSquareCounters' forEach has got. */
  ghost predicate SettledUpTo(board: map<Pos, Square>, p: Pos, i: int) {
    forall k :: 0 <= k < i && k < |Directions| && Offset(p, Directions[k]) in board ==> board[Offset(p, Directions[k])].active
  }

  /** One more direction visited: its neighbour is active and the earlier
      ones stay active. */
  lemma SettledUpToStep(prev: map<Pos, Square>, board: map<Pos, Square>, p: Pos, i: int)
    requires SettledUpTo(prev, p, i) && Monotone(prev, board)
    requires 0 <= i < |Directions|
    requires Offset(p, Directions[i]) in board ==> board[Offset(p, Directions[i])].active
    ensures SettledUpTo(board, p, i + 1)
  {
    forall k | 0 <= k < i + 1 && k < |Directions| && Offset(p, Directions[k]) in board
      ensures board[Offset(p, Directions[k])].active
    {
      if k < i {
        assert prev[Offset(p, Directions[k])].active;
      }
    }
  }

  /** All eight directions visited: every neighbour of `p` on the board is active. */
  lemma SettledUpToAll(board: map<Pos, Square>, p: Pos)
    requires SettledUpTo(board, p, |Directions|)
    ensures SettledIn(board, p)
  {
    forall d ensures Offset(p, d) in board ==> board[Offset(p, d)].active {
      assert Directions[IndexOf(d)] == d;
    }
  }

  /** Once `p` itself has all its neighbours active, the cascade from `p` is closed. */
  lemma CloseCascade(width: int, height: int, mines: seq<Pos>, since: map<Pos, Square>, board: map<Pos, Square>, p: Pos)
    requires NewlySettled(width, height, mines, since, board)
    requires SettledIn(board, p)
    ensures ClosedUnder(width, height, mines, since, board, p)
  {
  }

  /** Adding an accepted candidate as a mine keeps the board consistent. */
  lemma AddMine(width: int, height: int, mines: seq<Pos>, board: map<Pos, Square>, c: Pos)
    requires Consistent(width, height, mines, board)
    requires InBounds(width, height, c) && c !in mines
    ensures Consistent(width, height, mines + [c], board[c := board[c].(isMine := true)])
  {
    var after := board[c := board[c].(isMine := true)];
    assert after.Keys == board.Keys;
    forall i, j | 0 <= i < j < |mines + [c]| ensures (mines + [c])[i] != (mines + [c])[j] {
      if j == |mines| {
        assert (mines + [c])[i] == mines[i];
      }
    }
  }

  lemma SingleSquareReachable(width: int, height: int, mines: seq<Pos>, board: map<Pos, Square>, start: Pos)
    requires start in board
    ensures Reachable(width, height, mines, board, start, start)
  {
    assert RevealPath(width, height, mines, board, [start]);
  }

  /** A reveal path from `start` to a square with no mine around it extends to
      any inactive square touching that square. */
  lemma ExtendReach(width: int, height: int, mines: seq<Pos>, board: map<Pos, Square>, start: Pos, p: Pos, n: Pos)
    requires Reachable(width, height, mines, board, start, p)
    requires MineCount(width, height, mines, p) == 0
    requires n in board && !board[n].active && Touching(p, n)
    ensures Reachable(width, height, mines, board, start, n)
  {
    var path :| RevealPath(width, height, mines, board, path) && path[0] == start && path[|path| - 1] == p;
    var longer := path + [n];
    forall i | 0 <= i < |longer| ensures longer[i] in board {
      if i < |path| { assert longer[i] == path[i]; }
    }
    forall i | 1 <= i < |longer| ensures !board[longer[i]].active && Touching(longer[i - 1], longer[i]) {
      if i < |path| { assert longer[i] == path[i] && longer[i - 1] == path[i - 1]; }
    }
    forall i | 0 <= i < |longer| - 1 ensures MineCount(width, height, mines, longer[i]) == 0 {
      assert longer[i] == path[i];
    }
    assert RevealPath(width, height, mines, board, longer);
    assert longer[0] == start && longer[|longer| - 1] == n;
  }

  /** The cascade reveals no mine: every square it reaches from a non-mine
      square of a consistent board is not a mine. */
  lemma RevealNeverReachesMine(width: int, height: int, mines: seq<Pos>, board: map<Pos, Square>, start: Pos, q: Pos)
    requires Consistent(width, height, mines, board)
    requires start in board && !board[start].isMine
    requires Reachable(width, height, mines, board, start, q)
    ensures q in board && !board[q].isMine
  {
    var path :| RevealPath(width, height, mines, board, path) && path[0] == start && path[|path| - 1] == q;
    if |path| > 1 {
      var prev := path[|path| - 2];
      ZeroCountMeansNoTouchingMine(width, height, mines, prev, q);
    }
  }

  /** A square that touches a mine stops the cascade at once: from it, only the
      square itself is reachable. */
  lemma CountedSquareReachesOnlyItself(width: int, height: int, mines: seq<Pos>, board: map<Pos, Square>, start: Pos, q: Pos)
    requires start in board && MineCount(width, height, mines, start) > 0
    ensures Reachable(width, height, mines, board, start, q) <==> q == start
  {
    if q == start {
      SingleSquareReachable(width, height, mines, board, start);
    }
    if Reachable(width, height, mines, board, start, q) {
      var path :| RevealPath(width, height, mines, board, path) && path[0] == start && path[|path| - 1] == q;
      assert |path| == 1;
    }
  }

  /** Completeness of the cascade: once the closure holds and `start` is
      active, every square reachable from `start` is active. */
  lemma {:induction false} ClosedContainsPath(width: int, height: int, mines: seq<Pos>, before: map<Pos, Square>, after: map<Pos, Square>, start: Pos, path: seq<Pos>)
    requires RevealPath(width, height, mines, before, path) && path[0] == start
    requires after.Keys == before.Keys
    requires forall q :: q in before ==> (before[q].active ==> after[q].active)
    requires after[start].active
    requires ClosedUnder(width, height, mines, before, after, start)
    ensures after[path[|path| - 1]].active
  {
    if |path| > 1 {
      var prefix := path[..|path| - 1];
      assert RevealPath(width, height, mines, before, prefix);
      ClosedContainsPath(width, height, mines, before, after, start, prefix);
      var p, n := path[|path| - 2], path[|path| - 1];
      assert after[p].active;
      assert p == start || !before[p].active;
      assert SettledIn(after, p);
      assert Offset(p, DirectionTo(p, n)) == n;
    }
  }

  /** The cascade's result pinned down: a board that started as `before`,
      changed only `active` and only upward, activated only squares reachable
      from `start`, made `start` active and satisfies the closure is exactly
      AfterReveal. */
  lemma CascadeIsAfterReveal(width: int, height: int, mines: seq<Pos>, before: map<Pos, Square>, after: map<Pos, Square>, start: Pos)
    requires start in before && Grown(width, height, mines, before, after, start)
    requires after[start].active
    requires ClosedUnder(width, height, mines, before, after, start)
    ensures after == AfterReveal(width, height, mines, before, start)
  {
    var expected := AfterReveal(width, height, mines, before, start);
    forall q | q in before ensures after[q] == expected[q] {
      if Reachable(width, height, mines, before, start, q) {
        var path :| RevealPath(width, height, mines, before, path) && path[0] == start && path[|path| - 1] == q;
        ClosedContainsPath(width, height, mines, before, after, start, path);
      }
    }
  }

  /** A click on a square with no mine around it: once the cascade from it
      has run and it is made active, the board is AfterReveal. */
  lemma RevealFromClick(width: int, height: int, mines: seq<Pos>, before: map<Pos, Square>, after: map<Pos, Square>, p: Pos)
    requires p in before
    requires Cascading(width, height, mines, before, p, before, after)
    requires ClosedUnder(width, height, mines, before, after, p)
    ensures after[p := after[p].(active := true)] == AfterReveal(width, height, mines, before, p)
  {
    SingleSquareReachable(width, height, mines, before, p);
    GrownStep(width, height, mines, before, after, p, p);
    MarkStartKeepsClosed(width, height, mines, before, after, p);
    CascadeIsAfterReveal(width, height, mines, before, after[p := after[p].(active := true)], p);
  }

  /** The loss as triggeredMine sees it: after the clicked mine `p` (not
      active) is shown on a board with no mine on show, the mines left
      unresolved are all the mines but `p`. */
  lemma LossAfterShow(width: int, height: int, mines: seq<Pos>, board: map<Pos, Square>, p: Pos)
    requires Consistent(width, height, mines, board) && NoMineShown(board)
    requires p in mines && !board[p].active
    ensures Unresolved(mines, board[p := board[p].(active := true)]) == Without(mines, p)
  {
    LossSchedulesEveryOtherMine(mines, board[p := board[p].(active := true)], p);
  }

  /** A click on a square that touches a mine reveals that square alone. */
  lemma CountedSquareRevealsOnlyItself(width: int, height: int, mines: seq<Pos>, board: map<Pos, Square>, start: Pos)
    requires start in board && MineCount(width, height, mines, start) > 0
    ensures AfterReveal(width, height, mines, board, start) == board[start := board[start].(active := true)]
  {
    forall q | q in board
      ensures Reachable(width, height, mines, board, start, q) <==> q == start
    {
      CountedSquareReachesOnlyItself(width, height, mines, board, start, q);
    }
  }

  /** A reveal keeps the board consistent, puts no mine on show, and leaves
      every flag (and so every flagged square) as it was. */
  lemma AfterRevealKeepsRules(width: int, height: int, mines: seq<Pos>, board: map<Pos, Square>, start: Pos)
    requires Consistent(width, height, mines, board)
    requires start in board && !board[start].isMine
    ensures var after := AfterReveal(width, height, mines, board, start);
      && Consistent(width, height, mines, after)
      && (NoMineShown(board) ==> NoMineShown(after))
      && forall q :: q in board && board[q].hasFlag ==> after[q] == board[q]
  {
    forall q | q in board && Reachable(width, height, mines, board, start, q)
      ensures !board[q].isMine
    {
      RevealNeverReachesMine(width, height, mines, board, start, q);
    }
  }

  /** The mines triggeredMine schedules for display, in the order of `mines`:
      those that are not active or carry a flag. */
  function Unresolved(ms: seq<Pos>, board: map<Pos, Square>): (r: seq<Pos>)
    ensures forall m :: m in r <==> m in ms && m in board && (!board[m].active || board[m].hasFlag)
  {
    if ms == [] then []
    else
      var m := ms[|ms| - 1];
      Unresolved(ms[..|ms| - 1], board) + (if m in board && (!board[m].active || board[m].hasFlag) then [m] else [])
  }

  /** The loop of triggeredMine: one more mine is scheduled exactly when it is
      not active or carries a flag. */
  lemma UnresolvedStep(ms: seq<Pos>, i: int, board: map<Pos, Square>)
    requires 0 <= i < |ms| && ms[i] in board
    ensures Unresolved(ms[..i + 1], board)
      == Unresolved(ms[..i], board) + (if !board[ms[i]].active || board[ms[i]].hasFlag then [ms[i]] else [])
  {
    assert ms[..i + 1][..i] == ms[..i];
  }

  /** `ms` with `p` left out, keeping the order. */
  function Without(ms: seq<Pos>, p: Pos): (r: seq<Pos>)
    ensures forall m :: m in r <==> m in ms && m != p
  {
    if ms == [] then []
    else
      var m := ms[|ms| - 1];
      Without(ms[..|ms| - 1], p) + (if m != p then [m] else [])
  }

  /** A loss shows every other mine: when the clicked mine `p` has just been
      shown and the board had no mine on show, the mines scheduled for
      display are all the mines except `p`, flagged ones included. */
  lemma {:induction false} LossSchedulesEveryOtherMine(ms: seq<Pos>, board: map<Pos, Square>, p: Pos)
    requires p in board && board[p].isMine && board[p].active && !board[p].hasFlag
    requires forall q :: q in board && q != p && board[q].isMine && board[q].active ==> board[q].hasFlag
    requires forall i :: 0 <= i < |ms| ==> ms[i] in board && board[ms[i]].isMine
    ensures Unresolved(ms, board) == Without(ms, p)
  {
    if ms != [] {
      LossSchedulesEveryOtherMine(ms[..|ms| - 1], board, p);
    }
  }

  /** The number of squares in `ms` other than `p`: one fewer than `ms` when
      `p` is among distinct mines. */
  lemma {:induction false} WithoutLength(ms: seq<Pos>, p: Pos)
    requires Distinct(ms)
    ensures |Without(ms, p)| == if p in ms then |ms| - 1 else |ms|
  {
    if ms != [] {
      var init := ms[..|ms| - 1];
      assert Distinct(init);
      WithoutLength(init, p);
      if ms[|ms| - 1] == p {
        assert p !in init;
      } else {
        assert p in ms <==> p in init;
      }
    }
  }

  /** The milliseconds between two mines shown after a loss (showMineDelay). */
  const ShowMineDelay := 150

  /** The timeouts triggeredMine sets: the k-th scheduled mine is shown after
      (k + 1) delays. */
  function Timers(ms: seq<Pos>): seq<(Pos, int)> {
    seq(|ms|, k requires 0 <= k < |ms| => (ms[k], ShowMineDelay * (k + 1)))
  }

  /** The timers are those of triggeredMine's running `timeout`: one per
      scheduled mine, in order, the first after one delay and each later one
      a delay after the one before. */
  lemma TimersRunTimeout(ms: seq<Pos>)
    ensures |Timers(ms)| == |ms| && forall k :: 0 <= k < |ms| ==> Timers(ms)[k].0 == ms[k]
    ensures |ms| > 0 ==> Timers(ms)[0].1 == ShowMineDelay
    ensures forall k {:trigger Timers(ms)[k]} :: 0 < k < |ms| ==> Timers(ms)[k].1 == Timers(ms)[k - 1].1 + ShowMineDelay
  {
  }

  /** One more scheduled mine gets the next delay. */
  lemma TimersAppend(ms: seq<Pos>, m: Pos)
    ensures Timers(ms + [m]) == Timers(ms) + [(m, ShowMineDelay * (|ms| + 1))]
  {
    assert forall k :: 0 <= k < |ms| ==> (ms + [m])[k] == ms[k];
  }

  /** The "Game over" overlay waits one delay per mine to place; when all
      mines were placed, every other mine is shown before it appears. */
  lemma MinesShownBeforeOverlay(mines: seq<Pos>, p: Pos, totalMines: int)
    requires Distinct(mines) && p in mines && |mines| <= totalMines
    ensures forall k :: 0 <= k < |Timers(Without(mines, p))| ==> Timers(Without(mines, p))[k].1 < ShowMineDelay * totalMines
  {
    WithoutLength(mines, p);
  }

  /** Making the clicked square active after its cascade keeps the closure. */
  lemma MarkStartKeepsClosed(width: int, height: int, mines: seq<Pos>, before: map<Pos, Square>, board: map<Pos, Square>, start: Pos)
    requires start in board && ClosedUnder(width, height, mines, before, board, start)
    ensures ClosedUnder(width, height, mines, before, board[start := board[start].(active := true)], start)
  {
    var after := board[start := board[start].(active := true)];
    forall q | q in after && q in before && (q == start || (after[q].active && !before[q].active)) && MineCount(width, height, mines, q) == 0
      ensures SettledIn(after, q)
    {
      assert SettledIn(board, q);
    }
  }

  /** toggleFlag on one square: addFlag sets 'active' and 'has-flag',
      removeFlag clears both. */
  function Toggled(s: Square): (r: Square)
    ensures r.hasFlag == !s.hasFlag && r.active == r.hasFlag && r.isMine == s.isMine
  {
    if s.hasFlag then s.(active := false, hasFlag := false) else s.(active := true, hasFlag := true)
  }

  /** Toggling a flag twice restores the square, on every square the
      right-click guard lets through (not active, or flagged). */
  lemma ToggleTwiceRestores(s: Square)
    requires s.hasFlag ==> s.active
    requires !s.active || s.hasFlag
    ensures Toggled(Toggled(s)) == s
  {
  }

  /** Winning needs no correct flags: while no mine is on show, all squares
      active means every mine carries a flag, and flags on safe squares count
      as played all the same. */
  lemma AllActiveMeansMinesFlagged(board: map<Pos, Square>, m: Pos)
    requires NoMineShown(board) && AllActive(board)
    requires m in board && board[m].isMine
    ensures board[m].hasFlag
  {
  }
}
