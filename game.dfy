/** The Game class of minesweeper.js with its DOM taken away: the class list
    of each square's element becomes the booleans of a Square, the mine
    dictionary a list of keys in insertion order, and the random source a
    sequence of draws passed in. */
module Minesweeper {
  import opened Board
  import opened Placement
  import opened Rules

  const DefaultWidth := 18
  const DefaultHeight := 14
  const DefaultTotalMines := 40

  /** The options object the constructor may be given; a field left undefined is None. */
  datatype Options = Options(width: Option<int>, height: Option<int>, totalMines: Option<int>)

  /** An option's value, or the default when it is undefined. */
  function Setting(o: Option<int>, default: int): int {
    if o.Some? then o.value else default
  }

  /** What the page element an event lands on is: a square, the retry button
      of the "Game over" overlay, or anything else. */
  datatype Target = SquareAt(p: Pos) | RetryButton | Elsewhere

  /** What a left click on a mine set in motion: the timeouts that show the
      other mines, each with its delay in milliseconds, and the delay of the
      "Game over" overlay. */
  datatype Loss = Loss(timers: seq<(Pos, int)>, overlayDelay: int)

  /** What an event did: Ignored when the listener's guards turned it away;
      Played when a square was clicked or flagged, with the loss if a mine was
      hit and whether checkAllSquares found every square played (and so called
      endGame); Restarted when the retry button was clicked, with whether mine
      placement finished. */
  datatype Response = Ignored | Played(loss: Option<Loss>, allPlayed: bool) | Restarted(complete: bool)

  /** generateLayout: a square for every (x, y) of the board, row by row, none
      of them a mine, active or flagged. */
  method GenerateLayout(width: int, height: int) returns (squares: map<Pos, Square>)
    ensures forall q :: q in squares <==> InBounds(width, height, q)
    ensures forall q :: q in squares ==> squares[q] == Blank
  {
    squares := map[];
    var y := 1;
    while y <= height
      invariant 1 <= y && (y <= height + 1 || y == 1)
      invariant forall q :: q in squares <==> 1 <= q.x <= width && 1 <= q.y < y
      invariant forall q :: q in squares ==> squares[q] == Blank
    {
      var x := 1;
      while x <= width
        invariant 1 <= x && (x <= width + 1 || x == 1)
        invariant forall q :: q in squares <==> (1 <= q.x <= width && 1 <= q.y < y) || (q.y == y && 1 <= q.x < x)
        invariant forall q :: q in squares ==> squares[q] == Blank
      {
        squares := squares[Pos(x, y) := Blank];
        x := x + 1;
      }
      y := y + 1;
    }
  }

  /** One mine of generateMines: the accepted candidate joins the mines and its
      square becomes a mine; nothing is active while mines are placed. */
  lemma MineStep(width: int, height: int, mines: seq<Pos>, board: map<Pos, Square>, layout: map<Pos, Square>, c: Pos)
    requires Consistent(width, height, mines, board)
    requires forall q :: q in layout ==> !layout[q].active
    requires board.Keys == layout.Keys
    requires forall q :: q in board ==> board[q] == layout[q].(isMine := q in mines)
    requires InBounds(width, height, c) && c !in mines
    ensures var after := board[c := board[c].(isMine := true)];
      && Consistent(width, height, mines + [c], after)
      && NoMineShown(after)
      && after.Keys == layout.Keys
      && forall q :: q in after ==> after[q] == layout[q].(isMine := q in mines + [c])
  {
    AddMine(width, height, mines, board, c);
  }

  /** The forEach of minesInTouch: one more for each lookup that is a square
      holding a mine. */
  method CountMinesIn(cells: seq<Option<Pos>>, mines: seq<Pos>) returns (n: nat)
    ensures n == CountMines(cells, mines)
  {
    n := 0;
    var i := 0;
    while i < |cells|
      invariant 0 <= i <= |cells|
      invariant n == CountMines(cells[..i], mines)
    {
      var s := cells[i];
      CountMinesStep(cells, i, mines);
      if s.Some? && s.value in mines {
        n := n + 1;
      }
      i := i + 1;
    }
    assert cells[..i] == cells;
  }

  /** The forEach of triggeredMine over the mines in insertion order: each
      that is not active or carries a flag gets a timeout, the first after
      one delay and each later one a delay after the previous. */
  method ScheduleMines(mines: seq<Pos>, board: map<Pos, Square>) returns (timers: seq<(Pos, int)>)
    requires forall i :: 0 <= i < |mines| ==> mines[i] in board
    ensures timers == Timers(Unresolved(mines, board))
  {
    var timeout := ShowMineDelay;
    timers := [];
    var i := 0;
    while i < |mines|
      invariant 0 <= i <= |mines|
      invariant timers == Timers(Unresolved(mines[..i], board))
      invariant timeout == ShowMineDelay * (|timers| + 1)
    {
      var m := mines[i];
      ghost var done := Unresolved(mines[..i], board);
      UnresolvedStep(mines, i, board);
      if !board[m].active || board[m].hasFlag {
        TimersAppend(done, m);
        assert Unresolved(mines[..i + 1], board) == done + [m];
        timers := timers + [(m, timeout)];
        timeout := timeout + ShowMineDelay;
      } else {
        assert Unresolved(mines[..i + 1], board) == done;
      }
      i := i + 1;
    }
    assert mines[..i] == mines;
  }

  class Game {
    const width: int
    const height: int
    const totalMines: int
    var squares: map<Pos, Square>
    var mines: seq<Pos>
    var inputDisabled: bool

    /** The game's invariant: the board is consistent, and no mine is on show
        unless input is disabled (after a mine was hit). */
    ghost predicate Valid()
      reads this
    {
      Consistent(width, height, mines, squares) && (inputDisabled || NoMineShown(squares))
    }

    /** The part of the invariant the lookups need: the squares are keyed by
        exactly the board's rectangle. */
    ghost predicate OnBoard()
      reads this
    {
      forall q :: q in squares <==> InBounds(width, height, q)
    }

    /** The constructor with init: the defaults 18 by 14 with 40 mines for any
        option left undefined, the layout, then generateMines. */
    constructor (options: Option<Options>, draws: seq<Draw>)
      ensures Valid() && !inputDisabled
      ensures options.None? ==> width == DefaultWidth && height == DefaultHeight && totalMines == DefaultTotalMines
      ensures options.Some? ==>
        && width == Setting(options.value.width, DefaultWidth)
        && height == Setting(options.value.height, DefaultHeight)
        && totalMines == Setting(options.value.totalMines, DefaultTotalMines)
      ensures forall q :: q in squares <==> InBounds(width, height, q)
      ensures mines == PlaceMines(width, height, [], totalMines, Candidates(draws)).mines
      ensures forall q :: q in squares ==> squares[q] == Blank.(isMine := q in mines)
    {
      var w, h, t := DefaultWidth, DefaultHeight, DefaultTotalMines;
      if options.Some? {
        w := Setting(options.value.width, DefaultWidth);
        h := Setting(options.value.height, DefaultHeight);
        t := Setting(options.value.totalMines, DefaultTotalMines);
      }
      width, height, totalMines := w, h, t;
      inputDisabled := false;
      var layout := GenerateLayout(w, h);
      squares := layout;
      mines := [];
      new;
      var complete := GenerateMines(draws);
    }

    /** getSquare: the square at (x, y), or None (null) exactly where the board
        has no square, which is outside 1..width by 1..height. */
    function GetSquare(x: int, y: int): (r: Option<Pos>)
      reads this
      requires OnBoard()
      ensures r.None? <==> !InBounds(width, height, Pos(x, y))
      ensures r.Some? ==> r.value == Pos(x, y) && r.value in squares
    {
      if Pos(x, y) in squares then Some(Pos(x, y)) else None
    }

    /** validSquare: the key is a square of the board, which is exactly when it
        lies in 1..width by 1..height. */
    function ValidSquare(p: Pos): (r: bool)
      reads this
      requires OnBoard()
      ensures r <==> InBounds(width, height, p)
    {
      p in squares
    }

    /** mineExists: the key is in the mine dictionary, which is exactly when
        its square's type is mine. */
    function MineExists(p: Pos): (r: bool)
      reads this
      requires Valid()
      ensures r <==> p in squares && squares[p].isMine
    {
      p in mines
    }

    /** The test of generateNewMine on the game's own lookups is the test
        placement is stated with. */
    function CandidateAccepted(c: Pos): (r: bool)
      reads this
      requires Valid()
      ensures r == Accepts(width, height, mines, c)
    {
      ValidSquare(c) && !MineExists(c)
    }

    /** getSquareNeighbour: the square one step from `p` in direction `d`. */
    function GetSquareNeighbour(p: Pos, d: Direction): (r: Option<Pos>)
      reads this
      requires OnBoard()
      ensures r == Neighbour(width, height, p, d)
    {
      var q := Offset(p, d);
      GetSquare(q.x, q.y)
    }

    /** squareSurrounds: the eight neighbour lookups, in the source's order. */
    function SquareSurrounds(p: Pos): (r: seq<Option<Pos>>)
      reads this
      requires OnBoard()
      ensures r == Surrounds(width, height, p)
    {
      [ GetSquareNeighbour(p, TopLeft), GetSquareNeighbour(p, Top), GetSquareNeighbour(p, TopRight),
        GetSquareNeighbour(p, Left), GetSquareNeighbour(p, Right),
        GetSquareNeighbour(p, BottomLeft), GetSquareNeighbour(p, Bottom), GetSquareNeighbour(p, BottomRight) ]
    }

    /** minesInTouch: the count over the eight lookups of `p`. */
    method MinesInTouch(p: Pos) returns (n: nat)
      requires OnBoard()
      ensures n == MineCount(width, height, mines, p)
      ensures n <= 8
    {
      var surrounds := SquareSurrounds(p);
      n := CountMinesIn(surrounds, mines);
    }

    /** squareTouchesMine: some neighbour of `p` on the board is a mine. */
    method SquareTouchesMine(p: Pos) returns (touches: bool)
      requires OnBoard()
      ensures touches <==> exists d :: Neighbour(width, height, p, d).Some? && Neighbour(width, height, p, d).value in mines
      ensures !touches <==> MineCount(width, height, mines, p) == 0
    {
      var n := MinesInTouch(p);
      touches := n > 0;
    }

    /** generateMines: `totalMines` times, append the next accepted candidate
        to the mines and mark its square as a mine. Running out of draws
        stands for the source's rejection sampling failing: its non-tail
        self-call ends in a RangeError that aborts placement. */
    method GenerateMines(draws: seq<Draw>) returns (complete: bool)
      requires Valid()
      requires forall q :: q in squares ==> !squares[q].active
      modifies this
      ensures Valid() && inputDisabled == old(inputDisabled)
      ensures Placed(mines, complete) == PlaceMines(width, height, old(mines), totalMines, Candidates(draws))
      ensures squares.Keys == old(squares).Keys
      ensures forall q :: q in squares ==> squares[q] == old(squares)[q].(isMine := q in mines)
    {
      ghost var goal := PlaceMines(width, height, mines, totalMines, Candidates(draws));
      var placed, board := mines, squares;
      var cands := Candidates(draws);
      var m := 1;
      ghost var left := totalMines;
      complete := true;
      while m <= totalMines && complete
        invariant 1 <= m && (m <= totalMines + 1 || m == 1)
        invariant left == totalMines - m + 1
        invariant complete ==> PlaceMines(width, height, placed, left, cands) == goal
        invariant !complete ==> goal == Placed(placed, false)
        invariant Consistent(width, height, placed, board) && NoMineShown(board)
        invariant board.Keys == old(squares).Keys
        invariant forall q :: q in board ==> board[q] == old(squares)[q].(isMine := q in placed)
        modifies {}
        decreases totalMines - m + (if complete then 1 else 0)
      {
        var next := GenerateNewMine(width, height, placed, cands);
        if next.None? {
          PlaceStall(width, height, placed, left, cands);
          complete := false;
        } else {
          var (mine, k) := next.value;
          PlaceStep(width, height, placed, left, cands, mine, k);
          MineStep(width, height, placed, board, old(squares), mine);
          placed := placed + [mine];
          board := board[mine := board[mine].(isMine := true)];
          cands := cands[k..];
          m := m + 1;
          left := left - 1;
        }
      }
      mines, squares := placed, board;
    }

    /** checkAllSquares: whether every square is active; the source then calls
        endGame, which only logs. */
    method CheckAllSquares() returns (allPlayed: bool)
      ensures allPlayed <==> AllActive(squares)
    {
      allPlayed := true;
      var keys := squares.Keys;
      while keys != {}
        invariant keys <= squares.Keys
        invariant allPlayed <==> forall q :: q in squares && q !in keys ==> squares[q].active
        decreases keys
      {
        var q :| q in keys;
        if !squares[q].active {
          allPlayed := false;
        }
        keys := keys - {q};
      }
    }

    method DisableInput()
      requires Valid()
      modifies this
      ensures Valid() && inputDisabled
      ensures squares == old(squares) && mines == old(mines)
    {
      inputDisabled := true;
    }

    method EnableInput()
      requires Valid() && NoMineShown(squares)
      modifies this
      ensures Valid() && !inputDisabled
      ensures squares == old(squares) && mines == old(mines)
    {
      inputDisabled := false;
    }

    /** showSquareCounter: makes the square active and gives the count it shows
        and the colour class of that count. */
    method ShowSquareCounter(p: Pos) returns (count: nat, colour: CounterColour)
      requires OnBoard() && p in squares
      modifies this
      ensures OnBoard() && mines == old(mines) && inputDisabled == old(inputDisabled)
      ensures squares == old(squares)[p := old(squares)[p].(active := true)]
      ensures count == MineCount(width, height, mines, p) && count <= 8
      ensures colour == CounterClass(count)
    {
      count := MinesInTouch(p);
      colour := CounterClass(count);
      squares := squares[p := squares[p].(active := true)];
    }

    /** generateSquareCounters: from a square with no mine around it, visit
        the eight neighbours in order. `start` and `before` are the clicked
        square and the board before the click, for the proof only. The call
        changes only squares the cascade reaches from `start`, and leaves every
        neighbour of `p`, and of each square it made active whose count is
        zero, active. */
    method GenerateSquareCounters(p: Pos, ghost start: Pos, ghost before: map<Pos, Square>)
      requires OnBoard() && p in squares
      requires MineCount(width, height, mines, p) == 0
      requires Grown(width, height, mines, before, squares, start)
      requires Reachable(width, height, mines, before, start, p)
      modifies this
      ensures OnBoard() && mines == old(mines) && inputDisabled == old(inputDisabled)
      ensures Cascading(width, height, mines, before, start, old(squares), squares)
      ensures ClosedUnder(width, height, mines, old(squares), squares, p)
      decreases InactiveIn(squares), 1
    {
      var i := 0;
      while i < |Directions|
        invariant 0 <= i <= |Directions|
        invariant OnBoard() && mines == old(mines) && inputDisabled == old(inputDisabled)
        invariant Cascading(width, height, mines, before, start, old(squares), squares)
        invariant SettledUpTo(squares, p, i)
      {
        ghost var prev := squares;
        VisitSurround(p, Directions[i], start, before, old(squares));
        SettledUpToStep(prev, squares, p, i);
        i := i + 1;
      }
      SettledUpToAll(squares, p);
      CloseCascade(width, height, mines, old(squares), squares, p);
    }

    /** The callback generateSquareCounters runs for each neighbour lookup: a
        square that is on the board and not active becomes active, showing its
        count if it touches a mine and otherwise carrying the cascade on from it. */
    method VisitSurround(p: Pos, d: Direction, ghost start: Pos, ghost before: map<Pos, Square>, ghost since: map<Pos, Square>)
      requires OnBoard() && p in squares
      requires MineCount(width, height, mines, p) == 0
      requires Reachable(width, height, mines, before, start, p)
      requires Cascading(width, height, mines, before, start, since, squares)
      modifies this
      ensures OnBoard() && mines == old(mines) && inputDisabled == old(inputDisabled)
      ensures Cascading(width, height, mines, before, start, since, squares)
      ensures Monotone(old(squares), squares)
      ensures Offset(p, d) in squares ==> squares[Offset(p, d)].active
      decreases InactiveIn(squares), 0
    {
      var neighbour := GetSquareNeighbour(p, d);
      if neighbour.Some? && !squares[neighbour.value].active {
        var n := neighbour.value;
        ExtendReach(width, height, mines, before, start, p, n);
        var touches := SquareTouchesMine(n);
        if touches {
          CounterStep(width, height, mines, before, start, since, squares, n);
          var count, colour := ShowSquareCounter(n);
        } else {
          ghost var unmarked := squares;
          EnterSquare(width, height, mines, before, start, squares, n);
          squares := squares[n := squares[n].(active := true)];
          GenerateSquareCounters(n, start, before);
          ReturnStep(width, height, mines, before, start, since, unmarked, n, squares);
        }
      }
    }

    /** showMine: the mine's square becomes active (shown with a random
        background colour). */
    method ShowMine(m: Pos)
      requires Valid() && inputDisabled && m in mines
      modifies this
      ensures Valid() && inputDisabled && mines == old(mines)
      ensures squares == old(squares)[m := old(squares)[m].(active := true)]
    {
      squares := squares[m := squares[m].(active := true)];
    }

    /** triggeredMine: input is disabled, the mine hit is shown, and every mine
        that is not active or carries a flag is scheduled to be shown, one
        delay after the other; the overlay waits one delay per mine to place. */
    method TriggeredMine(p: Pos) returns (loss: Loss)
      requires Valid() && p in mines
      modifies this
      ensures Valid() && inputDisabled && mines == old(mines)
      ensures squares == old(squares)[p := old(squares)[p].(active := true)]
      ensures loss.timers == Timers(Unresolved(mines, squares))
      ensures loss.overlayDelay == ShowMineDelay * totalMines
      ensures !old(inputDisabled) && !old(squares)[p].active ==> loss.timers == Timers(Without(mines, p))
    {
      DisableInput();
      ShowMine(p);
      var overlayDelay := ShowMineDelay * totalMines;
      var timers := ScheduleMines(mines, squares);
      loss := Loss(timers, overlayDelay);
      if !old(inputDisabled) && !old(squares)[p].active {
        LossAfterShow(width, height, mines, old(squares), p);
      }
    }

    /** clickedSquare: a mine ends the game through triggeredMine; any other
        square is revealed by the default case. */
    method ClickedSquare(p: Pos) returns (loss: Option<Loss>)
      requires Valid() && p in squares
      modifies this
      ensures Valid() && mines == old(mines)
      ensures loss.None? <==> !old(squares)[p].isMine
      ensures loss.None? ==> squares == AfterReveal(width, height, mines, old(squares), p) && inputDisabled == old(inputDisabled)
      ensures loss.Some? ==> inputDisabled && squares == old(squares)[p := old(squares)[p].(active := true)]
      ensures loss.Some? ==> loss.value.timers == Timers(Unresolved(mines, squares))
      ensures loss.Some? ==> loss.value.overlayDelay == ShowMineDelay * totalMines
      ensures loss.Some? && !old(inputDisabled) && !old(squares)[p].active ==> loss.value.timers == Timers(Without(mines, p))
    {
      if squares[p].isMine {
        var l := TriggeredMine(p);
        return Some(l);
      }
      AfterRevealKeepsRules(width, height, mines, squares, p);
      RevealSquare(p);
      return None;
    }

    /** The default case of clickedSquare: a square that touches a mine shows
        its count, any other starts the cascade of generateSquareCounters; the
        square then becomes active. Together this is AfterReveal, which keeps
        the game's invariant when `p` is not a mine (AfterRevealKeepsRules). */
    method RevealSquare(p: Pos)
      requires OnBoard() && p in squares
      modifies this
      ensures OnBoard() && mines == old(mines) && inputDisabled == old(inputDisabled)
      ensures squares == AfterReveal(width, height, mines, old(squares), p)
    {
      var touches := SquareTouchesMine(p);
      if touches {
        CountedSquareRevealsOnlyItself(width, height, mines, squares, p);
        var count, colour := ShowSquareCounter(p);
        ghost var shown := squares;
        squares := squares[p := squares[p].(active := true)];
        assert squares == shown;
      } else {
        SingleSquareReachable(width, height, mines, squares, p);
        GenerateSquareCounters(p, p, squares);
        RevealFromClick(width, height, mines, old(squares), squares, p);
        squares := squares[p := squares[p].(active := true)];
      }
    }

    /** addFlag: the square becomes active and flagged. */
    method AddFlag(p: Pos)
      requires Valid() && p in squares
      modifies this
      ensures Valid() && mines == old(mines) && inputDisabled == old(inputDisabled)
      ensures squares == old(squares)[p := old(squares)[p].(active := true, hasFlag := true)]
    {
      squares := squares[p := squares[p].(active := true, hasFlag := true)];
    }

    /** removeFlag: the square is neither active nor flagged any more. */
    method RemoveFlag(p: Pos)
      requires Valid() && p in squares
      modifies this
      ensures Valid() && mines == old(mines) && inputDisabled == old(inputDisabled)
      ensures squares == old(squares)[p := old(squares)[p].(active := false, hasFlag := false)]
    {
      squares := squares[p := squares[p].(active := false, hasFlag := false)];
    }

    /** toggleFlag: removeFlag on a flagged square, addFlag on any other. */
    method ToggleFlag(p: Pos)
      requires Valid() && p in squares
      modifies this
      ensures Valid() && mines == old(mines) && inputDisabled == old(inputDisabled)
      ensures squares == old(squares)[p := Toggled(old(squares)[p])]
    {
      if squares[p].hasFlag {
        RemoveFlag(p);
      } else {
        AddFlag(p);
      }
    }

    /** restart: every square loses its type and classes, the mines are
        forgotten and placed anew, and input is enabled once placement returns. */
    method Restart(draws: seq<Draw>) returns (complete: bool)
      requires Valid()
      modifies this
      ensures Valid()
      ensures squares.Keys == old(squares).Keys
      ensures var placed := PlaceMines(width, height, [], totalMines, Candidates(draws));
        mines == placed.mines && complete == placed.complete
      ensures forall q :: q in squares ==> squares[q] == Blank.(isMine := q in mines)
      ensures inputDisabled == (old(inputDisabled) && !complete)
    {
      var keys := squares.Keys;
      while keys != {}
        invariant keys <= squares.Keys && squares.Keys == old(squares).Keys
        invariant inputDisabled == old(inputDisabled)
        invariant forall q :: q in squares && q !in keys ==> squares[q] == Blank
        decreases keys
      {
        var q :| q in keys;
        squares := squares[q := Blank];
        keys := keys - {q};
      }
      mines := [];
      complete := GenerateMines(draws);
      if complete {
        EnableInput();
      }
    }

    /** The click listener: on a square that is not active, while input is
        enabled, clickedSquare then checkAllSquares; otherwise a click on the
        retry button restarts; anything else is ignored. */
    method Click(target: Target, draws: seq<Draw>) returns (r: Response)
      requires Valid()
      requires target.SquareAt? ==> target.p in squares
      modifies this
      ensures Valid()
      ensures r.Ignored? ==> squares == old(squares) && mines == old(mines) && inputDisabled == old(inputDisabled)
      ensures r.Played? <==> target.SquareAt? && !old(inputDisabled) && !old(squares)[target.p].active
      ensures r.Restarted? <==> target.RetryButton?
      ensures r.Played? ==> mines == old(mines) && (r.allPlayed <==> AllActive(squares))
      ensures r.Played? && r.loss.None? ==>
        !old(squares)[target.p].isMine && !inputDisabled
        && squares == AfterReveal(width, height, mines, old(squares), target.p)
      ensures r.Played? && r.loss.Some? ==>
        old(squares)[target.p].isMine && inputDisabled
        && squares == old(squares)[target.p := old(squares)[target.p].(active := true)]
        && r.loss.value.timers == Timers(Without(mines, target.p))
        && r.loss.value.overlayDelay == ShowMineDelay * totalMines
      ensures r.Restarted? ==>
        var placed := PlaceMines(width, height, [], totalMines, Candidates(draws));
        && squares.Keys == old(squares).Keys
        && mines == placed.mines && r.complete == placed.complete
        && (forall q :: q in squares ==> squares[q] == Blank.(isMine := q in mines))
        && inputDisabled == (old(inputDisabled) && !r.complete)
    {
      if !inputDisabled && target.SquareAt? && !squares[target.p].active {
        var loss := ClickedSquare(target.p);
        var allPlayed := CheckAllSquares();
        return Played(loss, allPlayed);
      }
      if target.RetryButton? {
        var complete := Restart(draws);
        return Restarted(complete);
      }
      return Ignored;
    }

    /** The contextmenu listener: while input is enabled, on a square that is
        not active or carries a flag, toggleFlag then checkAllSquares. */
    method ContextMenu(target: Target) returns (r: Response)
      requires Valid()
      requires target.SquareAt? ==> target.p in squares
      modifies this
      ensures Valid() && mines == old(mines) && inputDisabled == old(inputDisabled)
      ensures r.Played? <==> !old(inputDisabled) && target.SquareAt? && (!old(squares)[target.p].active || old(squares)[target.p].hasFlag)
      ensures r.Ignored? <==> !r.Played?
      ensures r.Ignored? ==> squares == old(squares)
      ensures r.Played? ==> squares == old(squares)[target.p := Toggled(old(squares)[target.p])]
      ensures r.Played? ==> r.loss.None? && (r.allPlayed <==> AllActive(squares))
    {
      if !inputDisabled && target.SquareAt? && (!squares[target.p].active || squares[target.p].hasFlag) {
        ToggleFlag(target.p);
        var allPlayed := CheckAllSquares();
        return Played(None, allPlayed);
      }
      return Ignored;
    }
  }
}
