/** The Minesweeper grid on its own: square keys, the per-square state that
    the game keeps in each element's class list, the eight neighbour
    directions, and the number of mines that touch a square. */
module Board {

  datatype Option<T> = None | Some(value: T)

  /** The key of a square: column x and row y, both counted from 1. */
  datatype Pos = Pos(x: int, y: int)

  /** A square's state. `isMine` stands for `type == 'mine'`, `active` for the
      'active' class (revealed or flagged) and `hasFlag` for 'has-flag'. */
  datatype Square = Square(isMine: bool, active: bool, hasFlag: bool)

  /** A square as the layout creates it and as restart leaves it. */
  const Blank := Square(false, false, false)

  predicate InBounds(width: int, height: int, p: Pos) {
    1 <= p.x <= width && 1 <= p.y <= height
  }

  predicate Distinct(s: seq<Pos>) {
    forall i, j :: 0 <= i < j < |s| ==> s[i] != s[j]
  }

  /** Two different squares whose columns and rows differ by at most one. */
  predicate Touching(a: Pos, b: Pos) {
    a != b && -1 <= a.x - b.x <= 1 && -1 <= a.y - b.y <= 1
  }

  datatype Direction = TopLeft | Top | TopRight | Left | Right | BottomLeft | Bottom | BottomRight

  /** The directions in the order squareSurrounds lists them. */
  const Directions: seq<Direction> := [TopLeft, Top, TopRight, Left, Right, BottomLeft, Bottom, BottomRight]

  /** The coordinates one step from `p` in direction `d` (possibly off the board). */
  function Offset(p: Pos, d: Direction): (q: Pos)
    ensures Touching(p, q)
  {
    match d
    case TopLeft => Pos(p.x - 1, p.y - 1)
    case Top => Pos(p.x, p.y - 1)
    case TopRight => Pos(p.x + 1, p.y - 1)
    case Left => Pos(p.x - 1, p.y)
    case Right => Pos(p.x + 1, p.y)
    case BottomLeft => Pos(p.x - 1, p.y + 1)
    case Bottom => Pos(p.x, p.y + 1)
    case BottomRight => Pos(p.x + 1, p.y + 1)
  }

  /** The direction that leads from `a` to a square touching it: every touching
      square is one of the eight offsets. */
  function DirectionTo(a: Pos, b: Pos): (d: Direction)
    requires Touching(a, b)
    ensures Offset(a, d) == b
  {
    if b.y < a.y then
      (if b.x < a.x then TopLeft else if b.x == a.x then Top else TopRight)
    else if b.y == a.y then
      (if b.x < a.x then Left else Right)
    else
      (if b.x < a.x then BottomLeft else if b.x == a.x then Bottom else BottomRight)
  }

  /** Where `d` stands in the list of directions. */
  function IndexOf(d: Direction): (i: nat)
    ensures i < |Directions| && Directions[i] == d
  {
    match d
    case TopLeft => 0
    case Top => 1
    case TopRight => 2
    case Left => 3
    case Right => 4
    case BottomLeft => 5
    case Bottom => 6
    case BottomRight => 7
  }

  /** The square at (x, y) of a board whose keys are exactly the rectangle,
      or None (the source's null) when there is none. */
  function CellAt(width: int, height: int, x: int, y: int): Option<Pos> {
    if InBounds(width, height, Pos(x, y)) then Some(Pos(x, y)) else None
  }

  /** The square one step from `p` in direction `d` on a board whose keys are
      exactly the rectangle (None where the source's getSquare finds no key):
      the definition Game.GetSquareNeighbour is proved against, and whose
      meaning NeighbourIff states. */
  function Neighbour(width: int, height: int, p: Pos, d: Direction): Option<Pos>
  {
    var q := Offset(p, d);
    CellAt(width, height, q.x, q.y)
  }

  /** squareSurrounds: the eight neighbour lookups, in the order of `Directions`. */
  function Surrounds(width: int, height: int, p: Pos): seq<Option<Pos>> {
    seq(|Directions|, i requires 0 <= i < |Directions| => Neighbour(width, height, p, Directions[i]))
  }

  /** The squares among the eight lookups are exactly the squares of the
      board that touch `p`. */
  lemma SurroundsAreTouching(width: int, height: int, p: Pos)
    ensures forall q :: Some(q) in Surrounds(width, height, p) <==> InBounds(width, height, q) && Touching(p, q)
  {
    var s := Surrounds(width, height, p);
    forall q | InBounds(width, height, q) && Touching(p, q) ensures Some(q) in s {
      assert s[IndexOf(DirectionTo(p, q))] == Some(q);
    }
  }

  /** `b` is among the squares squareSurrounds gives for `a`. */
  ghost predicate IsNeighbour(width: int, height: int, a: Pos, b: Pos) {
    exists d :: Neighbour(width, height, a, d) == Some(b)
  }

  /** The neighbours of a square are exactly the squares of the board that touch it. */
  lemma NeighbourIff(width: int, height: int, a: Pos, b: Pos)
    ensures IsNeighbour(width, height, a, b) <==> InBounds(width, height, b) && Touching(a, b)
  {
    if InBounds(width, height, b) && Touching(a, b) {
      assert Neighbour(width, height, a, DirectionTo(a, b)) == Some(b);
    }
  }

  /** Neighbour symmetry: B is a neighbour of A exactly when A is a neighbour of B. */
  lemma NeighbourSymmetric(width: int, height: int, a: Pos, b: Pos)
    requires InBounds(width, height, a) && InBounds(width, height, b)
    ensures IsNeighbour(width, height, a, b) <==> IsNeighbour(width, height, b, a)
  {
    NeighbourIff(width, height, a, b);
    NeighbourIff(width, height, b, a);
  }


  /** The loop of minesInTouch over a list of neighbour lookups: how many are
      squares that are mines. Counted from the end, so that a loop that walks
      the list from the front keeps `n == CountMines(cells[..i], mines)`. */
  function CountMines(cells: seq<Option<Pos>>, mines: seq<Pos>): (n: nat)
    ensures n <= |cells|
    ensures n == 0 <==> forall i :: 0 <= i < |cells| && cells[i].Some? ==> cells[i].value !in mines
  {
    if cells == [] then 0
    else
      var last := cells[|cells| - 1];
      CountMines(cells[..|cells| - 1], mines) + (if last.Some? && last.value in mines then 1 else 0)
  }

  /** One more lookup counted: it adds one exactly when it is a square that is a mine. */
  lemma CountMinesStep(cells: seq<Option<Pos>>, i: int, mines: seq<Pos>)
    requires 0 <= i < |cells|
    ensures CountMines(cells[..i + 1], mines)
      == CountMines(cells[..i], mines) + (if cells[i].Some? && cells[i].value in mines then 1 else 0)
  {
    assert cells[..i + 1][..i] == cells[..i];
  }

  /** minesInTouch: the number of the eight neighbours of `p` that are mines;
      between 0 and 8, and 0 exactly when no neighbour on the board is a mine. */
  function MineCount(width: int, height: int, mines: seq<Pos>, p: Pos): (n: nat)
    ensures n <= 8
    ensures n == 0 <==> forall d :: Neighbour(width, height, p, d).Some? ==> Neighbour(width, height, p, d).value !in mines
  {
    var cells := Surrounds(width, height, p);
    var n := CountMines(cells, mines);
    assert n == 0 <==> forall d :: Neighbour(width, height, p, d).Some? ==> Neighbour(width, height, p, d).value !in mines by {
      if n != 0 {
        var i :| 0 <= i < |cells| && cells[i].Some? && cells[i].value in mines;
        assert Neighbour(width, height, p, Directions[i]) == cells[i];
      } else {
        forall d | Neighbour(width, height, p, d).Some? ensures Neighbour(width, height, p, d).value !in mines {
          assert cells[IndexOf(d)] == Neighbour(width, height, p, d);
        }
      }
    }
    n
  }

  /** The squares among `cells` that are mines. */
  function MinesAmong(cells: seq<Option<Pos>>, mines: seq<Pos>): set<Pos> {
    set i | 0 <= i < |cells| && cells[i].Some? && cells[i].value in mines :: cells[i].value
  }

  /** No square appears twice among the lookups. */
  predicate DistinctLookups(cells: seq<Option<Pos>>) {
    forall i, j :: 0 <= i < j < |cells| && cells[i].Some? && cells[j].Some? ==> cells[i].value != cells[j].value
  }

  /** Over lookups that name each square at most once, the loop's count is the
      number of distinct squares among them that are mines. */
  lemma {:induction false} CountMinesIsMinesAmong(cells: seq<Option<Pos>>, mines: seq<Pos>)
    requires DistinctLookups(cells)
    ensures CountMines(cells, mines) == |MinesAmong(cells, mines)|
  {
    if cells != [] {
      var init := cells[..|cells| - 1];
      var last := cells[|cells| - 1];
      assert DistinctLookups(init);
      CountMinesIsMinesAmong(init, mines);
      if last.Some? && last.value in mines {
        assert MinesAmong(cells, mines) == MinesAmong(init, mines) + {last.value};
        assert last.value !in MinesAmong(init, mines);
      } else {
        assert MinesAmong(cells, mines) == MinesAmong(init, mines);
      }
    }
  }

  /** The eight lookups of squareSurrounds name eight different squares. */
  lemma SurroundsDistinct(width: int, height: int, p: Pos)
    ensures DistinctLookups(Surrounds(width, height, p))
  {
  }

  /** minesInTouch counts exactly the squares of the board touching `p` that are mines. */
  lemma MineCountIsTouchingMines(width: int, height: int, mines: seq<Pos>, p: Pos)
    ensures MineCount(width, height, mines, p) == |set q | q in mines && InBounds(width, height, q) && Touching(p, q)|
  {
    var cells := Surrounds(width, height, p);
    SurroundsDistinct(width, height, p);
    CountMinesIsMinesAmong(cells, mines);
    SurroundsAreTouching(width, height, p);
    assert MinesAmong(cells, mines) == set q | q in mines && InBounds(width, height, q) && Touching(p, q);
  }

  /** A square of the board with no mine among its neighbours touches no mine:
      every square touching it is free of mines. */
  lemma ZeroCountMeansNoTouchingMine(width: int, height: int, mines: seq<Pos>, p: Pos, q: Pos)
    requires MineCount(width, height, mines, p) == 0
    requires InBounds(width, height, q) && Touching(p, q)
    ensures q !in mines
  {
    assert Neighbour(width, height, p, DirectionTo(p, q)) == Some(q);
  }

  /** The colour class of a square's counter (showSquareCounter). */
  datatype CounterColour = Blue | Green | Red | Purple | Yellow

  /** Counts 2 to 5 have colours of their own; every other count is blue. */
  function CounterClass(count: int): (c: CounterColour)
    ensures c == Blue <==> !(2 <= count <= 5)
  {
    if count == 2 then Green
    else if count == 3 then Red
    else if count == 4 then Purple
    else if count == 5 then Yellow
    else Blue
  }
}
