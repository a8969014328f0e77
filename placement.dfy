/** Mine placement by rejection sampling (generateMines, generateNewMine,
    generateMine, validSquare, mineExists). The random source is a parameter:
    a sequence of draws, each the pair of values
    `Math.floor(Math.random() * width)` and `Math.floor(Math.random() * height)`. */
module Placement {
  import opened Board

  /** One call of generateMine's random source: a column draw and a row draw. */
  datatype Draw = Draw(rx: int, ry: int)

  /** What `Math.floor(Math.random() * n)` can return: 0 to n - 1. */
  predicate DrawInRange(width: int, height: int, d: Draw) {
    0 <= d.rx < width && 0 <= d.ry < height
  }

  predicate AllInRange(width: int, height: int, draws: seq<Draw>) {
    forall i :: 0 <= i < |draws| ==> DrawInRange(width, height, draws[i])
  }

  /** generateMine as the source writes it: the draws are used as coordinates
      unchanged, although the board counts from 1. An in-range draw then
      lands on the board only inside the first width - 1 columns and
      height - 1 rows. */
  function GenerateMineAsWritten(d: Draw): (p: Pos)
    ensures forall width, height {:trigger DrawInRange(width, height, d)} :: DrawInRange(width, height, d) ==>
      (InBounds(width, height, p) <==> InBounds(width - 1, height - 1, p))
  {
    Pos(d.rx, d.ry)
  }

  /** generateMine as evidently intended: the draws shifted onto the board's
      coordinates 1..width and 1..height, so that a draw is in range exactly
      when its square is on the board. The game uses this one. */
  function GenerateMine(d: Draw): (p: Pos)
    ensures forall width, height {:trigger DrawInRange(width, height, d)} :: DrawInRange(width, height, d) <==> InBounds(width, height, p)
  {
    Pos(d.rx + 1, d.ry + 1)
  }

  /** The candidates as written, one per draw: from in-range draws, the
      ones on the board avoid the last column and row. */
  function CandidatesAsWritten(draws: seq<Draw>): (c: seq<Pos>)
    ensures |c| == |draws|
    ensures forall width, height {:trigger AllInRange(width, height, draws)} :: AllInRange(width, height, draws) ==>
      forall i :: 0 <= i < |c| && InBounds(width, height, c[i]) ==> InBounds(width - 1, height - 1, c[i])
  {
    seq(|draws|, i requires 0 <= i < |draws| => GenerateMineAsWritten(draws[i]))
  }

  /** The corrected candidates, one per draw: from in-range draws, every one
      is a square of the board. */
  function Candidates(draws: seq<Draw>): (c: seq<Pos>)
    ensures |c| == |draws|
    ensures forall width, height {:trigger AllInRange(width, height, draws)} :: AllInRange(width, height, draws) ==>
      forall i :: 0 <= i < |c| ==> InBounds(width, height, c[i])
  {
    seq(|draws|, i requires 0 <= i < |draws| => GenerateMine(draws[i]))
  }

  /** The test of generateNewMine: the candidate is a square of the board
      (validSquare) and not already a mine (mineExists). */
  predicate Accepts(width: int, height: int, mines: seq<Pos>, c: Pos) {
    InBounds(width, height, c) && c !in mines
  }

  /** generateNewMine: draw candidates until one is accepted. The result is the
      first acceptable candidate together with the number of candidates used;
      None when the candidates run out first (the source then keeps calling
      itself until the stack overflows with a RangeError). */
  function GenerateNewMine(width: int, height: int, mines: seq<Pos>, cands: seq<Pos>): (r: Option<(Pos, nat)>)
    ensures r.Some? ==>
      && 1 <= r.value.1 <= |cands|
      && r.value.0 == cands[r.value.1 - 1]
      && Accepts(width, height, mines, r.value.0)
      && forall j :: 0 <= j < r.value.1 - 1 ==> !Accepts(width, height, mines, cands[j])
    ensures r.None? ==> forall j :: 0 <= j < |cands| ==> !Accepts(width, height, mines, cands[j])
  {
    if cands == [] then None
    else if Accepts(width, height, mines, cands[0]) then Some((cands[0], 1))
    else
      match GenerateNewMine(width, height, mines, cands[1..])
      case None => None
      case Some((c, k)) => Some((c, k + 1))
  }

  /** The outcome of generateMines: the mines in the order they were placed, and
      whether all of them could be placed before the candidates ran out. */
  datatype Placed = Placed(mines: seq<Pos>, complete: bool)

  function Max0(n: int): nat {
    if n < 0 then 0 else n
  }

  /** generateMines: `count` times, add the next accepted candidate to `mines`. */
  function PlaceMines(width: int, height: int, mines: seq<Pos>, count: int, cands: seq<Pos>): Placed
    decreases Max0(count)
  {
    if count <= 0 then Placed(mines, true)
    else
      match GenerateNewMine(width, height, mines, cands)
      case None => Placed(mines, false)
      case Some((c, k)) => PlaceMines(width, height, mines + [c], count - 1, cands[k..])
  }

  /** What placement promises: the mines already placed stay first, at most
      `count` are added and exactly `count` when it completes, every one added
      is a candidate and a square of the board, and no square is added twice. */
  lemma {:induction false} PlacementFacts(width: int, height: int, mines: seq<Pos>, count: int, cands: seq<Pos>)
    ensures var r := PlaceMines(width, height, mines, count, cands);
      && |mines| <= |r.mines| <= |mines| + Max0(count)
      && r.mines[..|mines|] == mines
      && (r.complete <==> |r.mines| == |mines| + Max0(count))
      && (forall i :: |mines| <= i < |r.mines| ==> r.mines[i] in cands && InBounds(width, height, r.mines[i]))
      && (Distinct(mines) ==> Distinct(r.mines))
    decreases Max0(count)
  {
    if count > 0 {
      var next := GenerateNewMine(width, height, mines, cands);
      if next.Some? {
        var (c, k) := next.value;
        var longer := mines + [c];
        PlacementFacts(width, height, longer, count - 1, cands[k..]);
        var r := PlaceMines(width, height, longer, count - 1, cands[k..]);
        assert r.mines[..|mines|] == r.mines[..|longer|][..|mines|];
        SuffixMembers(r.mines, |longer|, cands, k);
        assert r.mines[|mines|] == longer[|mines|] == c;
        if Distinct(mines) {
          forall i, j | 0 <= i < j < |longer| ensures longer[i] != longer[j] {
            if j == |mines| {
              assert longer[i] == mines[i];
            }
          }
        }
      }
    }
  }

  /** One round of generateMines: the accepted candidate joins the mines and
      the rest of the placement goes on from the candidates after it. */
  lemma PlaceStep(width: int, height: int, mines: seq<Pos>, count: int, cands: seq<Pos>, c: Pos, k: nat)
    requires count > 0 && GenerateNewMine(width, height, mines, cands) == Some((c, k))
    ensures PlaceMines(width, height, mines, count, cands) == PlaceMines(width, height, mines + [c], count - 1, cands[k..])
  {
  }

  /** Candidates running out: placement stops there, incomplete. */
  lemma PlaceStall(width: int, height: int, mines: seq<Pos>, count: int, cands: seq<Pos>)
    requires count > 0 && GenerateNewMine(width, height, mines, cands).None?
    ensures PlaceMines(width, height, mines, count, cands) == Placed(mines, false)
  {
  }

  /** What is drawn from the rest of the candidates was among the candidates. */
  lemma SuffixMembers(s: seq<Pos>, lo: nat, cands: seq<Pos>, k: int)
    requires 0 <= k <= |cands|
    requires forall i :: lo <= i < |s| ==> s[i] in cands[k..]
    ensures forall i :: lo <= i < |s| ==> s[i] in cands
  {
    forall i | lo <= i < |s| ensures s[i] in cands {
      assert forall x :: x in cands[k..] ==> x in cands;
    }
  }

  /** The squares of row `y` from column 1 to `width`. */
  function Row(width: nat, y: int): set<Pos> {
    if width == 0 then {} else Row(width - 1, y) + {Pos(width, y)}
  }

  /** The squares of the `width` by `height` board. */
  function Rect(width: nat, height: nat): set<Pos> {
    if height == 0 then {} else Rect(width, height - 1) + Row(width, height)
  }

  lemma {:induction false} RowMembers(width: nat, y: int)
    ensures forall p :: p in Row(width, y) <==> 1 <= p.x <= width && p.y == y
  {
    if width > 0 {
      RowMembers(width - 1, y);
    }
  }

  lemma {:induction false} RowSize(width: nat, y: int)
    ensures |Row(width, y)| == width
  {
    if width > 0 {
      RowSize(width - 1, y);
      RowMembers(width - 1, y);
    }
  }

  lemma {:induction false} RectMembers(width: nat, height: nat)
    ensures forall p :: p in Rect(width, height) <==> InBounds(width, height, p)
  {
    if height > 0 {
      RectMembers(width, height - 1);
      RowMembers(width, height);
    }
  }

  lemma {:induction false} RectSize(width: nat, height: nat)
    ensures |Rect(width, height)| == width * height
  {
    if height > 0 {
      RectSize(width, height - 1);
      RowSize(width, height);
      RectStepSize(width, height);
      MulStep(width, height);
    }
  }

  /** One more row adds its squares to the rectangle's count. */
  lemma RectStepSize(width: nat, height: nat)
    requires height > 0
    ensures |Rect(width, height)| == |Rect(width, height - 1)| + |Row(width, height)|
  {
    RectMembers(width, height - 1);
    RowMembers(width, height);
    DisjointUnionSize(Rect(width, height - 1), Row(width, height));
  }

  lemma DisjointUnionSize(a: set<Pos>, b: set<Pos>)
    requires forall p :: p in b ==> p !in a
    ensures |a + b| == |a| + |b|
  {
    assert a * b == {};
  }

  lemma MulStep(width: nat, height: nat)
    requires height > 0
    ensures width * (height - 1) + width == width * height
  {
  }

  lemma SubsetSize(a: set<Pos>, b: set<Pos>)
    requires a <= b
    ensures |a| <= |b|
  {
    assert b == a + (b - a);
  }

  /** A list of distinct squares has as many members as its set. */
  lemma {:induction false} DistinctSize(s: seq<Pos>)
    requires Distinct(s)
    ensures |set p | p in s| == |s|
  {
    if s != [] {
      var t := s[..|s| - 1];
      DistinctSize(t);
      assert (set p | p in s) == (set p | p in t) + {s[|s| - 1]};
    }
  }

  /** Distinct squares inside a `width` by `height` rectangle number at most
      width * height. */
  lemma DistinctWithin(s: seq<Pos>, width: nat, height: nat)
    requires Distinct(s)
    requires forall i :: 0 <= i < |s| ==> InBounds(width, height, s[i])
    ensures |s| <= width * height
  {
    DistinctSize(s);
    RectMembers(width, height);
    RectSize(width, height);
    SubsetSize((set p | p in s), Rect(width, height));
  }

  /** As written, an accepted candidate is never in the last column or the last row. */
  lemma AsWrittenAvoidsLastColumnAndRow(width: int, height: int, mines: seq<Pos>, count: int, draws: seq<Draw>)
    requires AllInRange(width, height, draws)
    ensures var r := PlaceMines(width, height, mines, count, CandidatesAsWritten(draws));
      forall i :: |mines| <= i < |r.mines| ==> 1 <= r.mines[i].x <= width - 1 && 1 <= r.mines[i].y <= height - 1
  {
    var cands := CandidatesAsWritten(draws);
    var r := PlaceMines(width, height, mines, count, cands);
    PlacementFacts(width, height, mines, count, cands);
    forall i | |mines| <= i < |r.mines| ensures 1 <= r.mines[i].x <= width - 1 && 1 <= r.mines[i].y <= height - 1 {
      var j :| 0 <= j < |cands| && cands[j] == r.mines[i];
    }
  }

  /** As written, placing `count` mines on an empty board can only finish when
      count <= (width - 1) * (height - 1). */
  lemma AsWrittenNeedsRoom(width: nat, height: nat, count: int, draws: seq<Draw>)
    requires width >= 1 && height >= 1
    requires AllInRange(width, height, draws)
    ensures PlaceMines(width, height, [], count, CandidatesAsWritten(draws)).complete ==> count <= (width - 1) * (height - 1)
  {
    var r := PlaceMines(width, height, [], count, CandidatesAsWritten(draws));
    PlacementFacts(width, height, [], count, CandidatesAsWritten(draws));
    AsWrittenAvoidsLastColumnAndRow(width, height, [], count, draws);
    DistinctWithin(r.mines, width - 1, height - 1);
  }

  /** The discrepancy on a concrete input: a 2 by 2 board with 2 mines (fewer
      than its 4 squares) never finishes placement as written, whatever the draws. */
  lemma AsWrittenStallsOnTwoByTwo(draws: seq<Draw>)
    requires AllInRange(2, 2, draws)
    ensures !PlaceMines(2, 2, [], 2, CandidatesAsWritten(draws)).complete
  {
    AsWrittenNeedsRoom(2, 2, 2, draws);
  }

  /** Corrected, the candidates are exactly the squares of the board: every
      draw gives a square and every square is given by some draw. */
  lemma CorrectedCandidatesCoverBoard(width: int, height: int, p: Pos)
    ensures InBounds(width, height, p) <==> exists d :: DrawInRange(width, height, d) && GenerateMine(d) == p
  {
    if InBounds(width, height, p) {
      assert GenerateMine(Draw(p.x - 1, p.y - 1)) == p;
    }
  }

  /** Corrected, placement can always make progress while the board has a
      square that is not a mine: some draw is accepted. */
  lemma CorrectedPlacementCanProgress(width: nat, height: nat, mines: seq<Pos>)
    requires Distinct(mines)
    requires forall i :: 0 <= i < |mines| ==> InBounds(width, height, mines[i])
    requires |mines| < width * height
    ensures exists d :: DrawInRange(width, height, d) && Accepts(width, height, mines, GenerateMine(d))
  {
    DistinctSize(mines);
    RectMembers(width, height);
    RectSize(width, height);
    var taken := set p | p in mines;
    if Rect(width, height) <= taken {
      SubsetSize(Rect(width, height), taken);
      assert false;
    }
    var p :| p in Rect(width, height) && p !in taken;
    assert GenerateMine(Draw(p.x - 1, p.y - 1)) == p;
  }

  /** The as-written counterpart: on a 2 by 2 board holding one mine at (1, 1),
      no draw at all is accepted although three squares are free. */
  lemma AsWrittenCannotProgress(d: Draw)
    requires DrawInRange(2, 2, d)
    ensures !Accepts(2, 2, [Pos(1, 1)], GenerateMineAsWritten(d))
  {
  }
}
