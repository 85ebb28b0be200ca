/** examples/j2me/tafl-client/src/ai.c: alpha-beta search over tafl boards against plain minimax. */
module Ai {
  import opened Options
  import opened Playfield
  import opened Game

  const PF_INF := 30000
  const SCORE_WIN := 15000

  type Turn = t: Item | t == Black || t == White witness Black

  function Other(turn: Turn): Turn {
    if turn == White then Black else White
  }

  // ----- evaluation -----

  /** A square beside the evaluated piece: friends are good for black, enemies when it is black's turn. */
  function BlackNeighbor(n: Item, turn: Turn): int {
    if Color(n) == Black then 1 else if IsPiece(n) then (if turn == White then -1 else 1) else 0
  }

  function KingNeighbor(n: Item): int {
    if IsPiece(n) then (if Color(n) == Black then 2 else 1) else 0
  }

  function WhiteNeighbor(n: Item): int {
    if Color(n) == Black then 1 else 0
  }

  function Neighbor(cur: Item, n: Item, turn: Turn): int {
    match cur
    case Black => BlackNeighbor(n, turn)
    case White => WhiteNeighbor(n)
    case _ => KingNeighbor(n)
  }

  function NeighborSum(b: Board, turn: Turn, cur: Item, x: int, y: int, k: nat): (r: int)
    requires k <= |DIRECTIONS|
    ensures 0 - k <= r <= 2 * k && (cur == White ==> 0 <= r <= k) && (cur == Black ==> r <= k)
  {
    if k == 0 then 0
    else NeighborSum(b, turn, cur, x, y, k - 1) + Neighbor(cur, Ahead(b, x, y, DIRECTIONS[k - 1], 1), turn)
  }

  /** The worth of one square, black positive. */
  function SquareValue(b: Board, turn: Turn, x: int, y: int): int {
    var cur := At(b, x, y);
    match cur
    case Black => 5 + NeighborSum(b, turn, cur, x, y, |DIRECTIONS|)
    case White => -5 + NeighborSum(b, turn, cur, x, y, |DIRECTIONS|)
    case King =>
      if IsCorner(x, y) then -SCORE_WIN * 2
      else
        -SCORE_WIN + Abs(x - SIZE / 2) + Abs(y - SIZE / 2)
        - (if x == 0 || x == SIZE - 1 || y == 0 || y == SIZE - 1 then 30 else 0)
        + NeighborSum(b, turn, cur, x, y, |DIRECTIONS|)
    case _ => 0
  }

  /** The squares in reading order. */
  function Square(k: nat): (int, int) {
    (k % SIZE, k / SIZE)
  }

  const SQUARES := SIZE * SIZE

  /** The worth of the first `k` squares. */
  function Worth(b: Board, turn: Turn, k: nat): int {
    if k == 0 then SCORE_WIN else Worth(b, turn, k - 1) + SquareValue(b, turn, Square(k - 1).0, Square(k - 1).1)
  }

  function Eval(b: Board, turn: Turn): int {
    Worth(b, turn, SQUARES)
  }

  ghost predicate OneKing(b: Board) {
    forall x, y, x', y' :: At(b, x, y) == King && At(b, x', y') == King ==> x == x' && y == y'
  }

  lemma SquareBounds(b: Board, turn: Turn, x: int, y: int)
    requires InBoard(x, y)
    ensures At(b, x, y) == King ==> -2 * SCORE_WIN <= SquareValue(b, turn, x, y) <= -SCORE_WIN + 18
    ensures At(b, x, y) != King ==> -5 <= SquareValue(b, turn, x, y) <= 9
  {
    hide NeighborSum;
  }

  ghost predicate KingBefore(b: Board, k: nat) {
    exists i :: 0 <= i < k && At(b, Square(i).0, Square(i).1) == King
  }

  lemma {:induction false} WorthBounds(b: Board, turn: Turn, k: nat)
    requires OneKing(b) && k <= SQUARES
    ensures if KingBefore(b, k) then -SCORE_WIN - 5 * k <= Worth(b, turn, k) <= 18 + 9 * k
            else SCORE_WIN - 5 * k <= Worth(b, turn, k) <= SCORE_WIN + 9 * k
    decreases k
  {
    if k > 0 {
      WorthBounds(b, turn, k - 1);
      var s := Square(k - 1);
      SquareBounds(b, turn, s.0, s.1);
      if At(b, s.0, s.1) == King {
        FirstKing(b, k);
      }
      KingNext(b, k);
      hide SquareValue, OneKing, KingBefore, At;
    }
  }

  lemma FirstKing(b: Board, k: nat)
    requires OneKing(b) && 0 < k <= SQUARES && At(b, Square(k - 1).0, Square(k - 1).1) == King
    ensures !KingBefore(b, k - 1)
  {
    forall i | 0 <= i < k - 1 ensures At(b, Square(i).0, Square(i).1) != King {
      assert Square(i) != Square(k - 1);
    }
    hide At, Square;
  }

  lemma KingNext(b: Board, k: nat)
    requires k > 0
    ensures KingBefore(b, k) <==> KingBefore(b, k - 1) || At(b, Square(k - 1).0, Square(k - 1).1) == King
  {
    hide At, Square;
  }

  /** How many of the four squares beside (x, y) hold a black piece, and how many a white one or the king. */
  function BlackBeside(b: Board, x: int, y: int): int {
    (if At(b, x - 1, y) == Black then 1 else 0) + (if At(b, x + 1, y) == Black then 1 else 0)
    + (if At(b, x, y - 1) == Black then 1 else 0) + (if At(b, x, y + 1) == Black then 1 else 0)
  }

  function WhiteBeside(b: Board, x: int, y: int): int {
    (if At(b, x - 1, y) in {White, King} then 1 else 0) + (if At(b, x + 1, y) in {White, King} then 1 else 0)
    + (if At(b, x, y - 1) in {White, King} then 1 else 0) + (if At(b, x, y + 1) in {White, King} then 1 else 0)
  }

  lemma BesideSum(b: Board, turn: Turn, cur: Item, x: int, y: int)
    ensures NeighborSum(b, turn, cur, x, y, |DIRECTIONS|) ==
            Neighbor(cur, At(b, x - 1, y), turn) + Neighbor(cur, At(b, x + 1, y), turn)
            + Neighbor(cur, At(b, x, y - 1), turn) + Neighbor(cur, At(b, x, y + 1), turn)
  {
    NoNeighbors(b, turn, cur, x, y);
    NextNeighbor(b, turn, cur, x, y, 0);
    NextNeighbor(b, turn, cur, x, y, 1);
    NextNeighbor(b, turn, cur, x, y, 2);
    NextNeighbor(b, turn, cur, x, y, 3);
    hide NeighborSum, Neighbor, At;
  }

  lemma NeighborIs(cur: Item, n: Item, turn: Turn)
    ensures var black, white := (if n == Black then 1 else 0), (if n in {White, King} then 1 else 0);
            Neighbor(cur, n, turn) ==
            if cur == Black then black + (if turn == White then -white else white)
            else if cur == White then black
            else 2 * black + white
  {}

  /** What a piece is worth: a black one five and one for each friend beside it, less or more one for each enemy as it
      is white's or black's turn; a white one minus five and one for each enemy; the king minus 15000, nearer to the
      corners more, at the edge 30 less, one for each friend and two for each enemy, and minus 30000 in a corner. */
  lemma PieceWorth(b: Board, turn: Turn, x: int, y: int)
    ensures var black, white := BlackBeside(b, x, y), WhiteBeside(b, x, y);
            SquareValue(b, turn, x, y) ==
            match At(b, x, y)
            case Black => 5 + black + (if turn == White then -white else white)
            case White => -5 + black
            case King =>
              if x in {0, 10} && y in {0, 10} then -30000
              else -15000 + Abs(x - 5) + Abs(y - 5) - (if x in {0, 10} || y in {0, 10} then 30 else 0) + 2 * black + white
            case _ => 0
  {
    var cur := At(b, x, y);
    BesideSum(b, turn, cur, x, y);
    NeighborIs(cur, At(b, x - 1, y), turn);
    NeighborIs(cur, At(b, x + 1, y), turn);
    NeighborIs(cur, At(b, x, y - 1), turn);
    NeighborIs(cur, At(b, x, y + 1), turn);
    hide NeighborSum, Neighbor, At;
  }

  /** With at most one king every evaluation lies strictly within the infinities. */
  lemma EvalBounds(b: Board, turn: Turn)
    requires OneKing(b)
    ensures -PF_INF < Eval(b, turn) < PF_INF
  {
    WorthBounds(b, turn, SQUARES);
    hide Worth, OneKing, KingBefore;
  }

  /** `ai_eval_playfield`. */
  method EvalPlayfield(p: Field, turn: Turn) returns (ret: int)
    requires p.Valid()
    ensures ret == Eval(p.field[..], turn)
  {
    hide SquareValue, NeighborSum, At, Worth, Square;
    ret := SCORE_WIN;
    ghost var b: Board := p.field[..];
    WorthStarts(b, turn);
    var y := 0;
    while y < SIZE
      invariant 0 <= y <= SIZE && ret == Worth(b, turn, y * SIZE)
    {
      var x := 0;
      while x < SIZE
        invariant 0 <= x <= SIZE && ret == Worth(b, turn, y * SIZE + x)
      {
        WorthNext(b, turn, x, y);
        var v := SquareOf(p, turn, x, y);
        ret := ret + v;
        x := x + 1;
      }
      y := y + 1;
    }
  }

  lemma WorthStarts(b: Board, turn: Turn)
    ensures Worth(b, turn, 0) == SCORE_WIN
  {}

  lemma WorthNext(b: Board, turn: Turn, x: int, y: int)
    requires InBoard(x, y)
    ensures Worth(b, turn, y * SIZE + x + 1) == Worth(b, turn, y * SIZE + x) + SquareValue(b, turn, x, y)
  {
    hide SquareValue, Square;
    SquareAt(x, y);
  }

  /** The per-square functions: a base value and a loop over the four neighbours. */
  method SquareOf(p: Field, turn: Turn, x: int, y: int) returns (ret: int)
    requires p.Valid()
    ensures ret == SquareValue(p.field[..], turn, x, y)
  {
    var cur := p.GetItem(x, y);
    if !IsPiece(cur) {
      return 0;
    }
    ret := 0;
    if cur == Black {
      ret := 5;
    } else if cur == White {
      ret := -5;
    } else {
      if IsCorner(x, y) {
        return -SCORE_WIN * 2;
      }
      ret := -SCORE_WIN + Abs(x - SIZE / 2) + Abs(y - SIZE / 2);
      if x == 0 || x == SIZE - 1 || y == 0 || y == SIZE - 1 {
        ret := ret - 30;
      }
    }
    var sum := Neighbors(p, turn, cur, x, y);
    ret := ret + sum;
  }

  method Neighbors(p: Field, turn: Turn, cur: Item, x: int, y: int) returns (ret: int)
    requires p.Valid()
    ensures ret == NeighborSum(p.field[..], turn, cur, x, y, |DIRECTIONS|)
  {
    hide Neighbor, At, DX, DY, NeighborSum;
    NoNeighbors(p.field[..], turn, cur, x, y);
    ret := 0;
    for i := 0 to |DIRECTIONS|
      invariant ret == NeighborSum(p.field[..], turn, cur, x, y, i)
    {
      var d := DIRECTIONS[i];
      var n := p.GetItem(x + DX(d, 1), y + DY(d, 1));
      NextNeighbor(p.field[..], turn, cur, x, y, i);
      ret := ret + Neighbor(cur, n, turn);
    }
  }

  lemma NoNeighbors(b: Board, turn: Turn, cur: Item, x: int, y: int)
    ensures NeighborSum(b, turn, cur, x, y, 0) == 0
  {}

  lemma NextNeighbor(b: Board, turn: Turn, cur: Item, x: int, y: int, i: nat)
    requires i < |DIRECTIONS|
    ensures NeighborSum(b, turn, cur, x, y, i + 1) ==
            NeighborSum(b, turn, cur, x, y, i) + Neighbor(cur, Ahead(b, x, y, DIRECTIONS[i], 1), turn)
  {
    hide Neighbor, Ahead;
  }

  // ----- children -----

  function Child(b: Board, x: int, y: int, d: Direction, dist: int): Board
    requires InBoard(x, y) && InBoard(x + DX(d, dist), y + DY(d, dist))
  {
    Moved(b, x, y, x + DX(d, dist), y + DY(d, dist))
  }

  /** The boards after the moves in one direction, from `dist` on, until one is refused. */
  ghost function Slide(b: Board, x: int, y: int, d: Direction, dist: int): seq<Board>
    requires dist >= 1
    decreases SIZE - dist
  {
    var dx, dy := x + DX(d, dist), y + DY(d, dist);
    if dist >= SIZE || !CanMove(b, x, y, dx, dy) || !InBoard(x, y) || !InBoard(dx, dy) then []
    else [Child(b, x, y, d, dist)] + Slide(b, x, y, d, dist + 1)
  }

  ghost function PieceMoves(b: Board, x: int, y: int, i: nat): seq<Board>
    requires i <= |DIRECTIONS|
    decreases |DIRECTIONS| - i
  {
    if i == |DIRECTIONS| then [] else Slide(b, x, y, DIRECTIONS[i], 1) + PieceMoves(b, x, y, i + 1)
  }

  /** The boards after the moves of `turn`, from square `k` on, in the order they are searched. */
  ghost function MovesFrom(b: Board, turn: Turn, k: nat): seq<Board>
    requires k <= SQUARES
    decreases SQUARES - k
  {
    if k == SQUARES then []
    else
      var s := Square(k);
      (if Color(At(b, s.0, s.1)) == turn then PieceMoves(b, s.0, s.1, 0) else []) + MovesFrom(b, turn, k + 1)
  }

  ghost function Children(b: Board, turn: Turn): seq<Board> {
    MovesFrom(b, turn, 0)
  }

  ghost predicate InSlide(b: Board, x: int, y: int, d: Direction, dist: int, c: Board) {
    exists k :: dist <= k < SIZE && AllFrom(b, x, y, d, dist, k) && IsChild(b, x, y, d, k, c)
  }

  ghost predicate AllFrom(b: Board, x: int, y: int, d: Direction, dist: int, k: int) {
    forall j :: dist <= j <= k ==> CanStep(b, x, y, d, j)
  }

  ghost predicate IsChild(b: Board, x: int, y: int, d: Direction, k: int, c: Board) {
    InBoard(x, y) && InBoard(x + DX(d, k), y + DY(d, k)) && c == Moved(b, x, y, x + DX(d, k), y + DY(d, k))
  }

  lemma {:induction false} SlideHolds(b: Board, x: int, y: int, d: Direction, dist: int, c: Board)
    requires dist >= 1
    ensures c in Slide(b, x, y, d, dist) <==> InSlide(b, x, y, d, dist, c)
    decreases SIZE - dist
  {
    hide CanMove, CanStep, Moved, Slide, DX, DY, IsChild;
    if dist >= SIZE {
      SlideEnds(b, x, y, d, dist);
    } else {
      SlideNext(b, x, y, d, dist);
      StepIsMove(b, x, y, d, dist);
      SlideHolds(b, x, y, d, dist + 1, c);
      ChildHere(b, x, y, d, dist, c);
      if InSlide(b, x, y, d, dist + 1, c) && CanStep(b, x, y, d, dist) {
        var k :| dist + 1 <= k < SIZE && AllFrom(b, x, y, d, dist + 1, k) && IsChild(b, x, y, d, k, c);
        assert AllFrom(b, x, y, d, dist, k);
      }
      if InSlide(b, x, y, d, dist, c) {
        var k :| dist <= k < SIZE && AllFrom(b, x, y, d, dist, k) && IsChild(b, x, y, d, k, c);
        assert CanStep(b, x, y, d, dist) && AllFrom(b, x, y, d, dist + 1, k);
      }
      assert CanStep(b, x, y, d, dist) ==> AllFrom(b, x, y, d, dist, dist);
    }
  }

  lemma ChildHere(b: Board, x: int, y: int, d: Direction, k: int, c: Board)
    requires CanMove(b, x, y, x + DX(d, k), y + DY(d, k)) ==> InBoard(x, y) && InBoard(x + DX(d, k), y + DY(d, k))
    ensures CanMove(b, x, y, x + DX(d, k), y + DY(d, k)) ==>
              (IsChild(b, x, y, d, k, c) <==> c == Moved(b, x, y, x + DX(d, k), y + DY(d, k)))
  {
    hide CanMove, Moved, DX, DY;
  }

  /** The children of a board are the boards after the accepted moves of the side to move that do not cross the
      throne. */
  ghost predicate ChildBy(b: Board, turn: Turn, sx: int, sy: int, dx: int, dy: int, c: Board) {
    Color(At(b, sx, sy)) == turn && CanMove(b, sx, sy, dx, dy) && !CrossesThrone(sx, sy, dx, dy) &&
    InBoard(sx, sy) && InBoard(dx, dy) && c == Moved(b, sx, sy, dx, dy)
  }

  ghost predicate PieceChild(b: Board, x: int, y: int, c: Board) {
    exists dx, dy :: Generated(b, x, y, (dx, dy)) && InBoard(x, y) && InBoard(dx, dy) && c == Moved(b, x, y, dx, dy)
  }

  lemma {:induction false} PieceHolds(b: Board, x: int, y: int, i: nat, c: Board)
    requires i <= |DIRECTIONS|
    ensures c in PieceMoves(b, x, y, i) <==> exists k {:trigger DIRECTIONS[k]} :: i <= k < |DIRECTIONS| && InSlide(b, x, y, DIRECTIONS[k], 1, c)
    decreases |DIRECTIONS| - i
  {
    hide Slide, InSlide;
    if i < |DIRECTIONS| {
      SlideHolds(b, x, y, DIRECTIONS[i], 1, c);
      PieceHolds(b, x, y, i + 1, c);
    }
  }

  lemma SlideGenerates(b: Board, x: int, y: int, d: Direction, c: Board)
    ensures InSlide(b, x, y, d, 1, c) <==>
            exists dx, dy :: GeneratedIn(b, x, y, d, (dx, dy)) && InBoard(x, y) && InBoard(dx, dy) && c == Moved(b, x, y, dx, dy)
  {
    hide CanStep, Moved, InBoard, DX, DY;
    if InSlide(b, x, y, d, 1, c) {
      var k :| 1 <= k < SIZE && AllFrom(b, x, y, d, 1, k) && IsChild(b, x, y, d, k, c);
      var dx, dy := x + DX(d, k), y + DY(d, k);
      assert IsAhead(x, y, d, k, (dx, dy)) && AllMoves(b, x, y, d, k);
      assert GeneratedIn(b, x, y, d, (dx, dy));
    }
    if dx, dy :| GeneratedIn(b, x, y, d, (dx, dy)) && InBoard(x, y) && InBoard(dx, dy) && c == Moved(b, x, y, dx, dy) {
      var k :| 1 <= k < SIZE && IsAhead(x, y, d, k, (dx, dy)) && AllMoves(b, x, y, d, k);
      assert AllFrom(b, x, y, d, 1, k) && IsChild(b, x, y, d, k, c);
    }
  }

  lemma PieceGenerates(b: Board, x: int, y: int, c: Board)
    ensures c in PieceMoves(b, x, y, 0) <==> PieceChild(b, x, y, c)
  {
    PieceHolds(b, x, y, 0, c);
    forall d: Direction
      ensures InSlide(b, x, y, d, 1, c) <==>
              exists dx, dy :: GeneratedIn(b, x, y, d, (dx, dy)) && InBoard(x, y) && InBoard(dx, dy) && c == Moved(b, x, y, dx, dy)
    {
      SlideGenerates(b, x, y, d, c);
    }
    hide InSlide, GeneratedIn, Moved, InBoard, PieceMoves;
    if PieceChild(b, x, y, c) {
      var dx, dy :| Generated(b, x, y, (dx, dy)) && InBoard(x, y) && InBoard(dx, dy) && c == Moved(b, x, y, dx, dy);
      var i :| 0 <= i < |DIRECTIONS| && GeneratedIn(b, x, y, DIRECTIONS[i], (dx, dy));
      assert InSlide(b, x, y, DIRECTIONS[i], 1, c);
    }
    if i :| 0 <= i < |DIRECTIONS| && InSlide(b, x, y, DIRECTIONS[i], 1, c) {
      var dx, dy :| GeneratedIn(b, x, y, DIRECTIONS[i], (dx, dy)) && InBoard(x, y) && InBoard(dx, dy) && c == Moved(b, x, y, dx, dy);
      assert Generated(b, x, y, (dx, dy));
    }
  }

  ghost predicate SquareChild(b: Board, turn: Turn, k: nat, c: Board) {
    Color(At(b, Square(k).0, Square(k).1)) == turn && PieceChild(b, Square(k).0, Square(k).1, c)
  }

  lemma {:induction false} MovesHold(b: Board, turn: Turn, k: nat, c: Board)
    requires k <= SQUARES
    ensures c in MovesFrom(b, turn, k) <==> exists i :: k <= i < SQUARES && SquareChild(b, turn, i, c)
    decreases SQUARES - k
  {
    hide SquareChild, MovesFrom;
    if k < SQUARES {
      SquareHolds(b, turn, k, c);
      MovesHold(b, turn, k + 1, c);
    } else {
      NoMovesLeft(b, turn);
    }
  }

  lemma NoMovesLeft(b: Board, turn: Turn)
    ensures MovesFrom(b, turn, SQUARES) == []
  {}

  lemma SquareHolds(b: Board, turn: Turn, k: nat, c: Board)
    requires k < SQUARES
    ensures c in MovesFrom(b, turn, k) <==> SquareChild(b, turn, k, c) || c in MovesFrom(b, turn, k + 1)
  {
    hide PieceMoves, PieceChild, At, Color;
    PieceGenerates(b, Square(k).0, Square(k).1, c);
  }

  lemma ChildrenAreMoves(b: Board, turn: Turn, c: Board)
    ensures c in Children(b, turn) <==> exists sx, sy, dx, dy :: ChildBy(b, turn, sx, sy, dx, dy, c)
  {
    MovesHold(b, turn, 0, c);
    hide MovesFrom, Moved, CanMove, CrossesThrone, At, Generated;
    if c in Children(b, turn) {
      var i :| 0 <= i < SQUARES && SquareChild(b, turn, i, c);
      var sx, sy := Square(i).0, Square(i).1;
      var dx, dy :| Generated(b, sx, sy, (dx, dy)) && InBoard(sx, sy) && InBoard(dx, dy) && c == Moved(b, sx, sy, dx, dy);
      GeneratedIffAccepted(b, sx, sy, dx, dy);
      assert ChildBy(b, turn, sx, sy, dx, dy, c);
    }
    if sx, sy, dx, dy :| ChildBy(b, turn, sx, sy, dx, dy, c) {
      GeneratedIffAccepted(b, sx, sy, dx, dy);
      SquareAt(sx, sy);
      assert PieceChild(b, sx, sy, c);
      assert SquareChild(b, turn, sy * SIZE + sx, c);
    }
  }

  // ----- plain minimax -----

  function Worst(turn: Turn): int {
    if turn == Black then -PF_INF else PF_INF
  }

  function Better(turn: Turn, v: int, w: int): int {
    if turn == Black then (if v > w then v else w) else if v < w then v else w
  }

  ghost function Minimax(b: Board, turn: Turn, n: nat): int
    decreases n, 0
  {
    if n == 0 then Eval(b, turn)
    else if Children(b, turn) == [] then Worst(turn)
    else Best(Children(b, turn), turn, n - 1)
  }

  /** The best value of some boards for `turn`, when the other side is to move. */
  ghost function Best(bs: seq<Board>, turn: Turn, n: nat): int
    requires bs != []
    decreases n, |bs|
  {
    var last := Minimax(bs[|bs| - 1], Other(turn), n);
    if |bs| == 1 then last else Better(turn, Best(bs[..|bs| - 1], turn, n), last)
  }

  /** Best is the largest value for black and the smallest for white. */
  lemma {:induction false} BestIsExtreme(bs: seq<Board>, turn: Turn, n: nat)
    requires bs != []
    ensures exists i :: 0 <= i < |bs| && Best(bs, turn, n) == Minimax(bs[i], Other(turn), n)
    ensures forall i :: 0 <= i < |bs| ==>
              if turn == Black then Minimax(bs[i], White, n) <= Best(bs, turn, n)
              else Minimax(bs[i], Black, n) >= Best(bs, turn, n)
    decreases |bs|
  {
    hide Minimax;
    if |bs| == 1 {
      assert Best(bs, turn, n) == Minimax(bs[0], Other(turn), n);
    } else {
      var front := bs[..|bs| - 1];
      BestIsExtreme(front, turn, n);
      var i :| 0 <= i < |front| && Best(front, turn, n) == Minimax(front[i], Other(turn), n);
      assert front[i] == bs[i];
      assert Best(bs, turn, n) == Minimax(bs[i], Other(turn), n) || Best(bs, turn, n) == Minimax(bs[|bs| - 1], Other(turn), n);
      forall k | 0 <= k < |bs|
        ensures if turn == Black then Minimax(bs[k], White, n) <= Best(bs, turn, n)
                else Minimax(bs[k], Black, n) >= Best(bs, turn, n)
      {
        if k < |front| {
          assert front[k] == bs[k];
        }
      }
    }
  }

  // ----- the search as a relation -----

  function Min(x: int, y: int): int {
    if x < y then x else y
  }

  function Max(x: int, y: int): int {
    if x > y then x else y
  }

  /** The search variables after a child that returned `e`. */
  function NewAlpha(turn: Turn, alpha: int, e: int): int {
    if turn == White then alpha else Max(alpha, e)
  }

  function NewBeta(turn: Turn, beta: int, e: int): int {
    if turn == White then Min(beta, e) else beta
  }

  function NewBest(turn: Turn, alpha: int, beta: int, e: int): int {
    if turn == White then Min(beta, e) else Max(alpha, e)
  }

  /** The values that `ai_minimax` may return for a position, whatever its coin shows. */
  ghost predicate Returns(b: Board, turn: Turn, n: nat, alpha: int, beta: int, r: int)
    decreases n, 0, 0
  {
    if n == 0 then r == Eval(b, turn) else Searches(Children(b, turn), turn, n - 1, alpha, beta, Worst(turn), r)
  }

  /** The loop over the boards still to be searched, from the given search variables on. */
  ghost predicate Searches(cs: seq<Board>, turn: Turn, n: nat, alpha: int, beta: int, best: int, r: int)
    decreases n, |cs|, 0
  {
    if cs == [] then r == best
    else exists e :: Returns(cs[0], Other(turn), n, alpha, beta, e) && Continues(cs[1..], turn, n, alpha, beta, best, e, r)
  }

  /** After a child: a tie may be skipped; otherwise the window narrows and the search may be cut. */
  ghost predicate Continues(rest: seq<Board>, turn: Turn, n: nat, alpha: int, beta: int, best: int, e: int, r: int)
    decreases n, |rest|, 1
  {
    var alpha', beta', best' := NewAlpha(turn, alpha, e), NewBeta(turn, beta, e), NewBest(turn, alpha, beta, e);
    (e == best && Searches(rest, turn, n, alpha, beta, best, r)) ||
    if beta' <= alpha' then r == best' else Searches(rest, turn, n, alpha', beta', best', r)
  }

  // ----- both sides seen as the one that maximises -----

  function Flip(turn: Turn, x: int): int {
    if turn == White then -x else x
  }

  function Lo(turn: Turn, alpha: int, beta: int): int {
    if turn == White then -beta else alpha
  }

  function Hi(turn: Turn, alpha: int, beta: int): int {
    if turn == White then -alpha else beta
  }

  /** The value of a child for the side that moves to it. */
  ghost function ValueFor(c: Board, turn: Turn, n: nat): int {
    Flip(turn, Minimax(c, Other(turn), n))
  }

  // ----- what a pruned value promises -----

  /** A search with window (alpha, beta) returned `r` for a position worth `v`: exact inside the window, a
      bound outside it. */
  predicate Bounds(v: int, r: int, alpha: int, beta: int) {
    (r <= alpha ==> v <= alpha) && (r >= beta ==> v >= beta) && (alpha < r < beta ==> r == v)
  }

  predicate Window(alpha: int, beta: int) {
    -PF_INF <= alpha && beta <= PF_INF
  }

  predicate Finite(v: int) {
    -PF_INF <= v <= PF_INF
  }

  lemma FlipBounds(turn: Turn, v: int, r: int, alpha: int, beta: int)
    ensures Bounds(Flip(turn, v), Flip(turn, r), Lo(turn, alpha, beta), Hi(turn, alpha, beta)) <==> Bounds(v, r, alpha, beta)
  {}

  /** The child's search may return the value that `best` starts from, from a window that reaches beyond it. */
  ghost predicate CanTie(c: Board, turn: Turn, n: nat) {
    if n == 0 then ValueFor(c, turn, n) == -PF_INF
    else Children(c, Other(turn)) != [] && ValueFor(c, turn, n) >= -PF_INF
  }

  /** The child is worth less than what `best` starts from. */
  ghost predicate IsWorse(c: Board, turn: Turn, n: nat) {
    ValueFor(c, turn, n) < -PF_INF
  }

  /** The first boards, one at least, may tie with the start value, and all others, one at least, are worse. */
  ghost predicate TieThenWorse(cs: seq<Board>, turn: Turn, n: nat) {
    exists k :: TiesUpTo(cs, turn, n, k) && k < |cs|
  }

  ghost predicate TiesUpTo(cs: seq<Board>, turn: Turn, n: nat, k: int) {
    0 < k <= |cs| && (forall i :: 0 <= i < k ==> CanTie(cs[i], turn, n)) && forall i :: k <= i < |cs| ==> IsWorse(cs[i], turn, n)
  }

  /** Nowhere in the tree of the search do ties with the start value precede nothing but worse boards. */
  ghost predicate Sound(b: Board, turn: Turn, n: nat)
    decreases n
  {
    n == 0 ||
    (!TieThenWorse(Children(b, turn), turn, n - 1) &&
     forall i :: 0 <= i < |Children(b, turn)| ==> Sound(Children(b, turn)[i], Other(turn), n - 1))
  }

  // ----- the search variables, for the side that maximises -----

  /** `Exact`: the variables say what the children searched so far are worth.  `Tied`: every child tied with
      the start value and was skipped.  `Lost`: after such ties, all children were worse. */
  datatype Kind = Exact | Tied | Lost

  /** A skipped tie, seen from outside the window or from within. */
  predicate TieValue(v: int, hi: int) {
    v == -PF_INF || (v >= hi && hi <= -PF_INF)
  }

  /** `m` is the best value of the children searched so far, if any. */
  predicate Progress(kind: Kind, m: Option<int>, lo0: int, hi: int, lo: int, best: int) {
    lo0 <= lo < hi &&
    match kind
    case Exact => m.Some? && ((lo == lo0 && best <= lo0 && m.value <= lo0) || (lo > lo0 && best == lo == m.value))
    case Tied => lo == lo0 && best == -PF_INF && (m.Some? ==> lo0 < -PF_INF && TieValue(m.value, hi))
    case Lost => best == lo < -PF_INF && m.Some? && TieValue(m.value, hi)
  }

  function Joined(m: Option<int>, v: int): Option<int> {
    Some(if m.Some? then Max(m.value, v) else v)
  }

  function AfterTie(kind: Kind, lo0: int): Kind {
    if kind == Tied && lo0 < -PF_INF then Tied else if kind == Tied then Exact else kind
  }

  function AfterNarrow(kind: Kind, m: Option<int>, lo: int, e: int): Kind {
    if (kind == Lost || (kind == Tied && m.Some?)) && Max(lo, e) < -PF_INF then Lost else Exact
  }

  /** A tie that the coin skips. */
  lemma SkipKeeps(kind: Kind, m: Option<int>, v: int, e: int, lo0: int, hi: int, lo: int, best: int)
    requires Progress(kind, m, lo0, hi, lo, best) && Bounds(v, e, lo, hi) && e == best
    ensures Progress(AfterTie(kind, lo0), Joined(m, v), lo0, hi, lo, best) || (kind == Lost && Progress(Lost, Joined(m, v), lo0, hi, lo, best))
    ensures kind == Lost ==> v < -PF_INF
  {}

  /** A child that neither ties nor cuts. */
  lemma NarrowKeeps(kind: Kind, m: Option<int>, v: int, e: int, lo0: int, hi: int, lo: int, best: int)
    requires Progress(kind, m, lo0, hi, lo, best) && Bounds(v, e, lo, hi) && Max(lo, e) < hi
    ensures Progress(AfterNarrow(kind, m, lo, e), Joined(m, v), lo0, hi, Max(lo, e), Max(lo, e))
    ensures AfterNarrow(kind, m, lo, e) == Lost ==> v < -PF_INF
  {}

  /** A cut bounds a node that is worth at least as much as the child. */
  lemma CutBounds(kind: Kind, m: Option<int>, v: int, e: int, total: int, lo0: int, hi: int, lo: int, best: int)
    requires Progress(kind, m, lo0, hi, lo, best) && Bounds(v, e, lo, hi) && Max(lo, e) >= hi && total >= v
    ensures Bounds(total, Max(lo, e), lo0, hi)
  {}

  /** After the last child, the best value bounds the node's, unless all is lost. */
  lemma EndBounds(kind: Kind, m: Option<int>, lo0: int, hi: int, lo: int, best: int)
    requires Progress(kind, m, lo0, hi, lo, best) && kind != Lost
    ensures Bounds(if m.Some? then m.value else -PF_INF, best, lo0, hi)
  {}

  // ----- values of children -----

  ghost function BestSoFar(bs: seq<Board>, turn: Turn, n: nat): Option<int> {
    if bs == [] then None else Some(Best(bs, turn, n))
  }

  ghost function BestFor(bs: seq<Board>, turn: Turn, n: nat): Option<int> {
    if bs == [] then None else Some(Flip(turn, Best(bs, turn, n)))
  }

  lemma BestNext(bs: seq<Board>, c: Board, turn: Turn, n: nat)
    ensures BestFor(bs + [c], turn, n) == Joined(BestFor(bs, turn, n), ValueFor(c, turn, n))
  {
    assert (bs + [c])[..|bs|] == bs;
    hide Minimax;
  }

  /** More children never make the best value worse. */
  lemma MoreChildren(bs: seq<Board>, i: nat, turn: Turn, n: nat)
    requires i < |bs|
    ensures var v := Minimax(bs[i], Other(turn), n);
            if turn == White then Best(bs, turn, n) <= v else Best(bs, turn, n) >= v
  {
    BestIsExtreme(bs, turn, n);
    hide Minimax, Best;
  }

  lemma MovedOneKing(b: Board, sx: int, sy: int, dx: int, dy: int)
    requires OneKing(b) && InBoard(sx, sy) && InBoard(dx, dy) && CanMove(b, sx, sy, dx, dy)
    ensures OneKing(Moved(b, sx, sy, dx, dy))
  {
    var after := Moved(b, sx, sy, dx, dy);
    forall x, y
      ensures At(after, x, y) == if x == dx && y == dy then At(b, sx, sy) else if x == sx && y == sy then Empty else At(after, x, y)
      ensures !(x == dx && y == dy) ==> At(after, x, y) == Empty || At(after, x, y) == At(b, x, y)
    {
      MovedAt(b, sx, sy, dx, dy, x, y);
    }
    hide Moved, Clear, At, Index, IsCorner, IsThrone;
  }

  ghost predicate AllOneKing(bs: seq<Board>) {
    forall i :: 0 <= i < |bs| ==> OneKing(bs[i])
  }

  lemma {:induction false} SlideOneKing(b: Board, x: int, y: int, d: Direction, dist: int)
    requires OneKing(b) && dist >= 1
    ensures AllOneKing(Slide(b, x, y, d, dist))
    decreases SIZE - dist
  {
    hide OneKing, CanMove, Moved, At, Slide, DX, DY;
    if dist >= SIZE {
      SlideEnds(b, x, y, d, dist);
    } else {
      SlideNext(b, x, y, d, dist);
      if CanMove(b, x, y, x + DX(d, dist), y + DY(d, dist)) {
        SlideOneKing(b, x, y, d, dist + 1);
        SlideStepOneKing(b, x, y, d, dist);
      }
    }
  }

  lemma SlideStepOneKing(b: Board, x: int, y: int, d: Direction, dist: int)
    requires OneKing(b) && 1 <= dist < SIZE && CanMove(b, x, y, x + DX(d, dist), y + DY(d, dist))
    requires AllOneKing(Slide(b, x, y, d, dist + 1))
    ensures AllOneKing(Slide(b, x, y, d, dist))
  {
    hide *;
    SlideNext(b, x, y, d, dist);
    var dx, dy := x + DX(d, dist), y + DY(d, dist);
    MovedOneKing(b, x, y, dx, dy);
    OneMoreKing(Moved(b, x, y, dx, dy), Slide(b, x, y, d, dist + 1));
  }

  lemma OneMoreKing(c: Board, rest: seq<Board>)
    requires OneKing(c) && AllOneKing(rest)
    ensures AllOneKing([c] + rest)
  {
    hide OneKing;
  }

  lemma {:induction false} PieceOneKing(b: Board, x: int, y: int, i: nat)
    requires OneKing(b) && i <= |DIRECTIONS|
    ensures AllOneKing(PieceMoves(b, x, y, i))
    decreases |DIRECTIONS| - i
  {
    hide OneKing, Slide;
    if i < |DIRECTIONS| {
      SlideOneKing(b, x, y, DIRECTIONS[i], 1);
      PieceOneKing(b, x, y, i + 1);
    }
  }

  lemma {:induction false} MovesOneKing(b: Board, turn: Turn, k: nat)
    requires OneKing(b) && k <= SQUARES
    ensures AllOneKing(MovesFrom(b, turn, k))
    decreases SQUARES - k
  {
    hide OneKing, PieceMoves;
    if k < SQUARES {
      PieceOneKing(b, Square(k).0, Square(k).1, 0);
      MovesOneKing(b, turn, k + 1);
    }
  }

  /** With at most one king, every minimax value lies within the infinities. */
  lemma {:induction false} MinimaxFinite(b: Board, turn: Turn, n: nat)
    requires OneKing(b)
    ensures Finite(Minimax(b, turn, n))
    decreases n, 0
  {
    hide Eval, OneKing, MovesFrom, Best, AllOneKing;
    if n == 0 {
      EvalBounds(b, turn);
    } else if Children(b, turn) != [] {
      MovesOneKing(b, turn, 0);
      BestFinite(Children(b, turn), turn, n - 1);
    }
  }

  lemma {:induction false} BestFinite(bs: seq<Board>, turn: Turn, n: nat)
    requires bs != [] && AllOneKing(bs)
    ensures Finite(Best(bs, turn, n))
    decreases n, |bs|
  {
    hide Minimax, OneKing;
    MinimaxFinite(bs[|bs| - 1], Other(turn), n);
    if |bs| > 1 {
      BestFinite(bs[..|bs| - 1], turn, n);
    }
  }

  // ----- every result of the search bounds the minimax value -----

  ghost function Remaining(maxdepth: int, depth: int): nat {
    if depth >= maxdepth then 0 else maxdepth - depth
  }

  lemma SearchesNext(cs: seq<Board>, turn: Turn, n: nat, alpha: int, beta: int, best: int, r: int) returns (e: int)
    requires cs != [] && Searches(cs, turn, n, alpha, beta, best, r)
    ensures Returns(cs[0], Other(turn), n, alpha, beta, e) && Continues(cs[1..], turn, n, alpha, beta, best, e, r)
  {
    hide Returns, Continues;
    e :| Returns(cs[0], Other(turn), n, alpha, beta, e) && Continues(cs[1..], turn, n, alpha, beta, best, e, r);
  }

  /** What the loop does with a child, for the side that maximises. */
  lemma ContinuesFlipped(rest: seq<Board>, turn: Turn, n: nat, alpha: int, beta: int, best: int, e: int, r: int)
    requires Continues(rest, turn, n, alpha, beta, best, e, r)
    ensures var lo, hi, f := Lo(turn, alpha, beta), Hi(turn, alpha, beta), Flip(turn, e);
            var alpha', beta', best' := NewAlpha(turn, alpha, e), NewBeta(turn, beta, e), NewBest(turn, alpha, beta, e);
            Lo(turn, alpha', beta') == Max(lo, f) == Flip(turn, best') && Hi(turn, alpha', beta') == hi &&
            ((f == Flip(turn, best) && Searches(rest, turn, n, alpha, beta, best, r)) ||
             if Max(lo, f) >= hi then Flip(turn, r) == Max(lo, f) else Searches(rest, turn, n, alpha', beta', best', r))
  {
    hide Searches;
  }

  /** A search never returns less than the lower end of its window, except what `best` starts from. */
  lemma {:induction false} Clipped(cs: seq<Board>, turn: Turn, n: nat, alpha: int, beta: int, best: int, r: int)
    requires Searches(cs, turn, n, alpha, beta, best, r)
    requires Flip(turn, best) >= Lo(turn, alpha, beta) || best == Worst(turn)
    ensures Flip(turn, r) >= Lo(turn, alpha, beta) || r == Worst(turn)
    decreases |cs|
  {
    if cs != [] {
      var e := SearchesNext(cs, turn, n, alpha, beta, best, r);
      ContinuesFlipped(cs[1..], turn, n, alpha, beta, best, e, r);
      hide Searches, Continues, Returns;
      var alpha', beta', best' := NewAlpha(turn, alpha, e), NewBeta(turn, beta, e), NewBest(turn, alpha, beta, e);
      if Searches(cs[1..], turn, n, alpha, beta, best, r) {
        Clipped(cs[1..], turn, n, alpha, beta, best, r);
      } else if Searches(cs[1..], turn, n, alpha', beta', best', r) {
        Clipped(cs[1..], turn, n, alpha', beta', best', r);
      }
    }
  }

  /** A child that returned the start value, from a window that reaches beyond it. */
  lemma TieMeans(c: Board, turn: Turn, n: nat, alpha: int, beta: int, e: int)
    requires Returns(c, Other(turn), n, alpha, beta, e) && Flip(turn, e) == -PF_INF
    requires Bounds(ValueFor(c, turn, n), -PF_INF, Lo(turn, alpha, beta), Hi(turn, alpha, beta))
    requires Lo(turn, alpha, beta) < -PF_INF && alpha < beta
    ensures CanTie(c, turn, n)
  {
    hide Eval, Children, Searches;
    if n > 0 {
      Clipped(Children(c, Other(turn)), Other(turn), n - 1, alpha, beta, Worst(Other(turn)), e);
      if Children(c, Other(turn)) == [] {
        NothingSearched(Other(turn), n - 1, alpha, beta, Worst(Other(turn)), e);
      }
      hide Minimax;
    }
  }

  lemma NothingSearched(turn: Turn, n: nat, alpha: int, beta: int, best: int, r: int)
    ensures Searches([], turn, n, alpha, beta, best, r) <==> r == best
  {}

  /** The children searched so far, as `kind` has it. */
  ghost predicate Tracks(kind: Kind, done: seq<Board>, turn: Turn, n: nat, k: int) {
    match kind
    case Exact => true
    case Tied => done == [] || (k == |done| && TiesUpTo(done, turn, n, k))
    case Lost => k < |done| && TiesUpTo(done, turn, n, k)
  }

  lemma TracksTie(done: seq<Board>, c: Board, turn: Turn, n: nat, k: int)
    requires Tracks(Tied, done, turn, n, k) && CanTie(c, turn, n)
    ensures Tracks(Tied, done + [c], turn, n, |done| + 1)
  {
    hide CanTie, IsWorse;
  }

  lemma TracksWorse(kind: Kind, done: seq<Board>, c: Board, turn: Turn, n: nat, k: int)
    requires kind != Exact && Tracks(kind, done, turn, n, k) && done != [] && IsWorse(c, turn, n)
    ensures Tracks(Lost, done + [c], turn, n, k)
  {
    hide CanTie, IsWorse;
  }

  lemma LostIsUnsound(b: Board, turn: Turn, n: nat, k: int)
    requires Tracks(Lost, Children(b, turn), turn, n, k)
    ensures !Sound(b, turn, n + 1)
  {
    hide TiesUpTo, Children;
  }

  /** The search on a board is reliable for windows within the start values, and for any window where the
      tree of the search is sound. */
  ghost predicate Reliance(b: Board, turn: Turn, n: nat, alpha: int, beta: int) {
    alpha < beta && (Window(alpha, beta) || Sound(b, turn, n))
  }

  lemma ChildReliance(b: Board, turn: Turn, n: nat, i: nat, alpha0: int, beta0: int, alpha: int, beta: int)
    requires i < |Children(b, turn)| && Reliance(b, turn, n + 1, alpha0, beta0)
    requires Lo(turn, alpha0, beta0) <= Lo(turn, alpha, beta) < Hi(turn, alpha, beta) == Hi(turn, alpha0, beta0)
    ensures Reliance(Children(b, turn)[i], Other(turn), n, alpha, beta)
  {
    hide Children, TieThenWorse;
  }

  /** Alpha-beta agrees with minimax: whatever the coin shows, the value returned is exact inside the window
      and a bound outside it. */
  lemma {:induction false} ReturnsBounds(b: Board, turn: Turn, n: nat, alpha: int, beta: int, r: int)
    requires Returns(b, turn, n, alpha, beta, r) && Reliance(b, turn, n, alpha, beta)
    ensures Bounds(Minimax(b, turn, n), r, alpha, beta)
    decreases n, 0
  {
    hide Eval, Children, Searches, Sound;
    if n > 0 {
      var cs := Children(b, turn);
      assert [] + cs == cs;
      SearchesBound(b, turn, n - 1, [], cs, Tied, 0, alpha, beta, alpha, beta, Worst(turn), r);
    }
  }

  /** The rest of the loop, after the children `done`. */
  lemma {:induction false} SearchesBound(b: Board, turn: Turn, n: nat, done: seq<Board>, rest: seq<Board>, kind: Kind, k: int,
                                         alpha0: int, beta0: int, alpha: int, beta: int, best: int, r: int)
    requires done + rest == Children(b, turn) && Reliance(b, turn, n + 1, alpha0, beta0)
    requires Hi(turn, alpha, beta) == Hi(turn, alpha0, beta0)
    requires Progress(kind, BestFor(done, turn, n), Lo(turn, alpha0, beta0), Hi(turn, alpha, beta), Lo(turn, alpha, beta), Flip(turn, best))
    requires Tracks(kind, done, turn, n, k) && Searches(rest, turn, n, alpha, beta, best, r)
    ensures Bounds(Minimax(b, turn, n + 1), r, alpha0, beta0)
    decreases n, |rest| + 1
  {
    hide *;
    if rest == [] {
      SearchEnds(b, turn, n, done, kind, k, alpha0, beta0, alpha, beta, best, r);
    } else {
      var c, tail := rest[0], rest[1..];
      NextBoard(done, rest, Children(b, turn));
      SameWindow(turn, kind, BestFor(done, turn, n), alpha0, beta0, alpha, beta, best);
      ChildReliance(b, turn, n, |done|, alpha0, beta0, alpha, beta);
      var e := SearchesNext(rest, turn, n, alpha, beta, best, r);
      ReturnsBounds(c, Other(turn), n, alpha, beta, e);
      ContinuesFlipped(tail, turn, n, alpha, beta, best, e, r);
      ChildBounds(c, turn, n, alpha, beta, e);
      BestNext(done, c, turn, n);
      var alpha', beta', best' := NewAlpha(turn, alpha, e), NewBeta(turn, beta, e), NewBest(turn, alpha, beta, e);
      if Flip(turn, e) == Flip(turn, best) && Searches(tail, turn, n, alpha, beta, best, r) {
        var kind', k' := AfterSkip(turn, n, done, c, kind, k, alpha0, beta0, alpha, beta, best, e);
        SearchesBound(b, turn, n, done + [c], tail, kind', k', alpha0, beta0, alpha, beta, best, r);
      } else if Max(Lo(turn, alpha, beta), Flip(turn, e)) >= Hi(turn, alpha, beta) {
        AfterCut(b, turn, n, done, rest, kind, alpha0, beta0, alpha, beta, best, e, r);
      } else {
        var kind', k' := AfterChild(turn, n, done, c, kind, k, alpha0, beta0, alpha, beta, best, e);
        SearchesBound(b, turn, n, done + [c], tail, kind', k', alpha0, beta0, alpha', beta', best', r);
      }
    }
  }

  lemma NextBoard(done: seq<Board>, rest: seq<Board>, all: seq<Board>)
    requires done + rest == all && rest != []
    ensures |done| < |all| && all[|done|] == rest[0] && done + [rest[0]] + rest[1..] == all
  {}

  lemma SameWindow(turn: Turn, kind: Kind, m: Option<int>, alpha0: int, beta0: int, alpha: int, beta: int, best: int)
    requires Hi(turn, alpha, beta) == Hi(turn, alpha0, beta0)
    requires Progress(kind, m, Lo(turn, alpha0, beta0), Hi(turn, alpha, beta), Lo(turn, alpha, beta), Flip(turn, best))
    ensures Lo(turn, alpha0, beta0) <= Lo(turn, alpha, beta) < Hi(turn, alpha, beta) && alpha < beta
  {}

  lemma ChildBounds(c: Board, turn: Turn, n: nat, alpha: int, beta: int, e: int)
    requires Bounds(Minimax(c, Other(turn), n), e, alpha, beta)
    ensures Bounds(ValueFor(c, turn, n), Flip(turn, e), Lo(turn, alpha, beta), Hi(turn, alpha, beta))
  {
    FlipBounds(turn, Minimax(c, Other(turn), n), e, alpha, beta);
    hide Minimax;
  }

  lemma SearchEnds(b: Board, turn: Turn, n: nat, done: seq<Board>, kind: Kind, k: int, alpha0: int, beta0: int, alpha: int, beta: int,
                   best: int, r: int)
    requires done + [] == Children(b, turn) && Reliance(b, turn, n + 1, alpha0, beta0)
    requires Hi(turn, alpha, beta) == Hi(turn, alpha0, beta0)
    requires Progress(kind, BestFor(done, turn, n), Lo(turn, alpha0, beta0), Hi(turn, alpha, beta), Lo(turn, alpha, beta), Flip(turn, best))
    requires Tracks(kind, done, turn, n, k) && Searches([], turn, n, alpha, beta, best, r)
    ensures Bounds(Minimax(b, turn, n + 1), r, alpha0, beta0)
  {
    assert done == Children(b, turn);
    NothingSearched(turn, n, alpha, beta, best, r);
    MinimaxIsBest(b, turn, n);
    if kind == Lost {
      LostIsUnsound(b, turn, n, k);
    }
    hide Minimax, Children, Searches, Tracks, Sound, Best;
    EndBounds(kind, BestFor(done, turn, n), Lo(turn, alpha0, beta0), Hi(turn, alpha, beta), Lo(turn, alpha, beta), Flip(turn, best));
    FlipBounds(turn, Minimax(b, turn, n + 1), r, alpha0, beta0);
  }

  lemma AfterSkip(turn: Turn, n: nat, done: seq<Board>, c: Board, kind: Kind, k: int, alpha0: int, beta0: int, alpha: int, beta: int,
                  best: int, e: int) returns (kind': Kind, k': int)
    requires Hi(turn, alpha, beta) == Hi(turn, alpha0, beta0) && alpha < beta
    requires Progress(kind, BestFor(done, turn, n), Lo(turn, alpha0, beta0), Hi(turn, alpha, beta), Lo(turn, alpha, beta), Flip(turn, best))
    requires Tracks(kind, done, turn, n, k) && Returns(c, Other(turn), n, alpha, beta, e)
    requires Bounds(ValueFor(c, turn, n), Flip(turn, e), Lo(turn, alpha, beta), Hi(turn, alpha, beta)) && Flip(turn, e) == Flip(turn, best)
    ensures Tracks(kind', done + [c], turn, n, k')
    ensures Progress(kind', Joined(BestFor(done, turn, n), ValueFor(c, turn, n)), Lo(turn, alpha0, beta0), Hi(turn, alpha, beta),
                     Lo(turn, alpha, beta), Flip(turn, best))
  {
    hide Tracks, Returns, BestFor, ValueFor;
    var lo0 := Lo(turn, alpha0, beta0);
    SkipKeeps(kind, BestFor(done, turn, n), ValueFor(c, turn, n), Flip(turn, e), lo0, Hi(turn, alpha, beta), Lo(turn, alpha, beta), Flip(turn, best));
    kind', k' := AfterTie(kind, lo0), k;
    if kind' == Tied {
      TieMeans(c, turn, n, alpha, beta, e);
      TracksTie(done, c, turn, n, k);
      k' := |done| + 1;
    } else if kind' == Lost {
      WorseIs(c, turn, n);
      LostHasDone(done, turn, n, k);
      TracksWorse(Lost, done, c, turn, n, k);
    } else {
      ExactTracks(done + [c], turn, n, k);
    }
  }

  lemma WorseIs(c: Board, turn: Turn, n: nat)
    ensures IsWorse(c, turn, n) <==> ValueFor(c, turn, n) < -PF_INF
  {
    hide ValueFor;
  }

  lemma LostHasDone(done: seq<Board>, turn: Turn, n: nat, k: int)
    requires Tracks(Lost, done, turn, n, k)
    ensures done != []
  {}

  lemma ExactTracks(done: seq<Board>, turn: Turn, n: nat, k: int)
    ensures Tracks(Exact, done, turn, n, k)
  {}

  lemma AfterChild(turn: Turn, n: nat, done: seq<Board>, c: Board, kind: Kind, k: int, alpha0: int, beta0: int, alpha: int, beta: int,
                   best: int, e: int) returns (kind': Kind, k': int)
    requires Progress(kind, BestFor(done, turn, n), Lo(turn, alpha0, beta0), Hi(turn, alpha, beta), Lo(turn, alpha, beta), Flip(turn, best))
    requires Tracks(kind, done, turn, n, k)
    requires Bounds(ValueFor(c, turn, n), Flip(turn, e), Lo(turn, alpha, beta), Hi(turn, alpha, beta))
    requires Max(Lo(turn, alpha, beta), Flip(turn, e)) < Hi(turn, alpha, beta)
    ensures Tracks(kind', done + [c], turn, n, k')
    ensures var lo' := Max(Lo(turn, alpha, beta), Flip(turn, e));
            Progress(kind', Joined(BestFor(done, turn, n), ValueFor(c, turn, n)), Lo(turn, alpha0, beta0), Hi(turn, alpha, beta), lo', lo')
  {
    hide Tracks, ValueFor, Best;
    var m, lo := BestFor(done, turn, n), Lo(turn, alpha, beta);
    NarrowKeeps(kind, m, ValueFor(c, turn, n), Flip(turn, e), Lo(turn, alpha0, beta0), Hi(turn, alpha, beta), lo, Flip(turn, best));
    kind', k' := AfterNarrow(kind, m, lo, Flip(turn, e)), k;
    if kind' == Lost {
      WorseIs(c, turn, n);
      TracksWorse(kind, done, c, turn, n, k);
    } else {
      ExactTracks(done + [c], turn, n, k);
    }
  }

  lemma AfterCut(b: Board, turn: Turn, n: nat, done: seq<Board>, rest: seq<Board>, kind: Kind, alpha0: int, beta0: int, alpha: int, beta: int,
                 best: int, e: int, r: int)
    requires done + rest == Children(b, turn) && rest != [] && Hi(turn, alpha, beta) == Hi(turn, alpha0, beta0)
    requires Progress(kind, BestFor(done, turn, n), Lo(turn, alpha0, beta0), Hi(turn, alpha, beta), Lo(turn, alpha, beta), Flip(turn, best))
    requires Bounds(ValueFor(rest[0], turn, n), Flip(turn, e), Lo(turn, alpha, beta), Hi(turn, alpha, beta))
    requires Max(Lo(turn, alpha, beta), Flip(turn, e)) >= Hi(turn, alpha, beta) && Flip(turn, r) == Max(Lo(turn, alpha, beta), Flip(turn, e))
    ensures Bounds(Minimax(b, turn, n + 1), r, alpha0, beta0)
  {
    NextBoard(done, rest, Children(b, turn));
    MoreChildren(Children(b, turn), |done|, turn, n);
    MinimaxIsBest(b, turn, n);
    hide Minimax, Children, Best, BestFor;
    CutBounds(kind, BestFor(done, turn, n), ValueFor(rest[0], turn, n), Flip(turn, e), Flip(turn, Minimax(b, turn, n + 1)),
              Lo(turn, alpha0, beta0), Hi(turn, alpha, beta), Lo(turn, alpha, beta), Flip(turn, best));
    FlipBounds(turn, Minimax(b, turn, n + 1), r, alpha0, beta0);
  }

  lemma MinimaxIsBest(b: Board, turn: Turn, n: nat)
    ensures var m := BestSoFar(Children(b, turn), turn, n);
            Minimax(b, turn, n + 1) == if m.Some? then m.value else Worst(turn)
  {
    hide Best, Children, Eval;
  }

  // ----- boards with one king -----

  /** With at most one king the tree of the search is sound: no board is worse than the start value. */
  lemma {:induction false} OneKingSound(b: Board, turn: Turn, n: nat)
    requires OneKing(b)
    ensures Sound(b, turn, n)
    decreases n
  {
    hide *;
    if n > 0 {
      ChildrenOneKing(b, turn);
      NoneWorse(Children(b, turn), turn, n - 1);
      forall i | 0 <= i < |Children(b, turn)| ensures Sound(Children(b, turn)[i], Other(turn), n - 1) {
        OneOf(Children(b, turn), i);
        OneKingSound(Children(b, turn)[i], Other(turn), n - 1);
      }
      SoundFrom(b, turn, n);
    } else {
      SoundLeaf(b, turn);
    }
  }

  lemma OneOf(cs: seq<Board>, i: int)
    requires AllOneKing(cs) && 0 <= i < |cs|
    ensures OneKing(cs[i])
  {
    hide OneKing;
  }

  lemma SoundLeaf(b: Board, turn: Turn)
    ensures Sound(b, turn, 0)
  {}

  lemma SoundFrom(b: Board, turn: Turn, n: nat)
    requires n > 0
    ensures Sound(b, turn, n) <==>
            !TieThenWorse(Children(b, turn), turn, n - 1) &&
            forall i :: 0 <= i < |Children(b, turn)| ==> Sound(Children(b, turn)[i], Other(turn), n - 1)
  {
    hide Children, TieThenWorse;
  }

  lemma NoneWorse(cs: seq<Board>, turn: Turn, n: nat)
    requires AllOneKing(cs)
    ensures !TieThenWorse(cs, turn, n)
  {
    hide OneKing, Minimax, CanTie, AllOneKing;
    if TieThenWorse(cs, turn, n) {
      var k :| TiesUpTo(cs, turn, n, k) && k < |cs|;
      OneOf(cs, k);
      MinimaxFinite(cs[k], Other(turn), n);
      WorseFrom(cs, turn, n, k);
    }
  }

  lemma WorseFrom(cs: seq<Board>, turn: Turn, n: nat, k: int)
    requires TiesUpTo(cs, turn, n, k) && k < |cs|
    ensures IsWorse(cs[k], turn, n)
  {
    hide IsWorse, CanTie;
  }

  lemma ChildrenOneKing(b: Board, turn: Turn)
    requires OneKing(b)
    ensures AllOneKing(Children(b, turn))
  {
    hide OneKing, MovesFrom, AllOneKing;
    MovesOneKing(b, turn, 0);
  }

  /** With at most one king and a window within the infinities, what is returned lies within them. */
  lemma {:induction false} ReturnsFinite(b: Board, turn: Turn, n: nat, alpha: int, beta: int, r: int)
    requires OneKing(b) && Returns(b, turn, n, alpha, beta, r) && alpha < beta && Window(alpha, beta)
    ensures Finite(r)
    decreases n, 0
  {
    hide Eval, OneKing, MovesFrom, Searches, AllOneKing;
    if n == 0 {
      EvalBounds(b, turn);
    } else {
      MovesOneKing(b, turn, 0);
      SearchesFinite(Children(b, turn), turn, n - 1, alpha, beta, Worst(turn), r);
    }
  }

  lemma {:induction false} SearchesFinite(cs: seq<Board>, turn: Turn, n: nat, alpha: int, beta: int, best: int, r: int)
    requires AllOneKing(cs) && Searches(cs, turn, n, alpha, beta, best, r) && alpha < beta && Window(alpha, beta) && Finite(best)
    ensures Finite(r)
    decreases n, |cs| + 1
  {
    hide OneKing, Returns, Searches, Continues;
    if cs == [] {
      NothingSearched(turn, n, alpha, beta, best, r);
    } else {
      var e := SearchesNext(cs, turn, n, alpha, beta, best, r);
      ReturnsFinite(cs[0], Other(turn), n, alpha, beta, e);
      ContinuesFlipped(cs[1..], turn, n, alpha, beta, best, e, r);
      var alpha', beta', best' := NewAlpha(turn, alpha, e), NewBeta(turn, beta, e), NewBest(turn, alpha, beta, e);
      if Searches(cs[1..], turn, n, alpha, beta, best, r) {
        SearchesFinite(cs[1..], turn, n, alpha, beta, best, r);
      } else if alpha' < beta' {
        SearchesFinite(cs[1..], turn, n, alpha', beta', best', r);
      }
    }
  }

  // ----- the loops -----

  /** The next move in a direction, as the loops meet it. */
  lemma SlideNext(b: Board, x: int, y: int, d: Direction, dist: int)
    requires 1 <= dist < SIZE
    ensures var dx, dy := x + DX(d, dist), y + DY(d, dist);
            if CanMove(b, x, y, dx, dy)
            then InBoard(x, y) && InBoard(dx, dy) && (x != dx || y != dy) &&
                 Slide(b, x, y, d, dist) == [Moved(b, x, y, dx, dy)] + Slide(b, x, y, d, dist + 1)
            else Slide(b, x, y, d, dist) == []
  {
    var dx, dy := x + DX(d, dist), y + DY(d, dist);
    if CanMove(b, x, y, dx, dy) {
      AcceptedOnBoard(b, x, y, dx, dy);
    }
    hide CanMove, Moved;
  }

  lemma SlideEnds(b: Board, x: int, y: int, d: Direction, dist: int)
    requires dist >= SIZE
    ensures Slide(b, x, y, d, dist) == []
  {
    hide CanMove, Moved;
  }

  lemma PieceNext(b: Board, x: int, y: int, i: nat)
    requires i < |DIRECTIONS|
    ensures PieceMoves(b, x, y, i) == Slide(b, x, y, DIRECTIONS[i], 1) + PieceMoves(b, x, y, i + 1)
  {
    hide Slide;
  }

  lemma MovesNext(b: Board, turn: Turn, x: int, y: int)
    requires InBoard(x, y)
    ensures y * SIZE + x < SQUARES
    ensures MovesFrom(b, turn, y * SIZE + x) ==
            (if Color(At(b, x, y)) == turn then PieceMoves(b, x, y, 0) else []) + MovesFrom(b, turn, y * SIZE + x + 1)
  {
    hide PieceMoves, At, Square, Color;
    SquareAt(x, y);
  }

  lemma SquareAt(x: int, y: int)
    requires InBoard(x, y)
    ensures y * SIZE + x < SQUARES && Square(y * SIZE + x) == (x, y)
  {}

  /** From the search variables on, the loop over `rest` returns what the search of the board may return. */
  ghost predicate Leads(b: Board, turn: Turn, n: nat, alpha0: int, beta0: int, rest: seq<Board>, alpha: int, beta: int, best: int) {
    forall r :: Searches(rest, turn, n, alpha, beta, best, r) ==> Returns(b, turn, n + 1, alpha0, beta0, r)
  }

  lemma LeadsStart(b: Board, turn: Turn, n: nat, alpha: int, beta: int)
    ensures Leads(b, turn, n, alpha, beta, Children(b, turn), alpha, beta, Worst(turn))
  {
    hide Searches, Children;
  }

  lemma LeadsEnd(b: Board, turn: Turn, n: nat, alpha0: int, beta0: int, alpha: int, beta: int, best: int)
    requires Leads(b, turn, n, alpha0, beta0, [], alpha, beta, best)
    ensures Returns(b, turn, n + 1, alpha0, beta0, best)
  {
    NothingSearched(turn, n, alpha, beta, best, best);
    hide Searches, Returns;
  }

  lemma SearchesWith(c: Board, tail: seq<Board>, turn: Turn, n: nat, alpha: int, beta: int, best: int, e: int, r: int)
    requires Returns(c, Other(turn), n, alpha, beta, e) && Continues(tail, turn, n, alpha, beta, best, e, r)
    ensures Searches([c] + tail, turn, n, alpha, beta, best, r)
  {
    hide Returns, Continues;
    assert ([c] + tail)[0] == c && ([c] + tail)[1..] == tail;
  }

  lemma LeadsSkip(b: Board, turn: Turn, n: nat, alpha0: int, beta0: int, c: Board, tail: seq<Board>, alpha: int, beta: int, best: int, e: int)
    requires Leads(b, turn, n, alpha0, beta0, [c] + tail, alpha, beta, best) && Returns(c, Other(turn), n, alpha, beta, e) && e == best
    ensures Leads(b, turn, n, alpha0, beta0, tail, alpha, beta, best)
  {
    hide Searches, Returns;
    forall r | Searches(tail, turn, n, alpha, beta, best, r) ensures Returns(b, turn, n + 1, alpha0, beta0, r) {
      SearchesWith(c, tail, turn, n, alpha, beta, best, e, r);
    }
  }

  lemma LeadsNarrow(b: Board, turn: Turn, n: nat, alpha0: int, beta0: int, c: Board, tail: seq<Board>, alpha: int, beta: int, best: int, e: int)
    requires Leads(b, turn, n, alpha0, beta0, [c] + tail, alpha, beta, best) && Returns(c, Other(turn), n, alpha, beta, e)
    ensures var alpha', beta', best' := NewAlpha(turn, alpha, e), NewBeta(turn, beta, e), NewBest(turn, alpha, beta, e);
            if beta' <= alpha' then Returns(b, turn, n + 1, alpha0, beta0, best')
            else Leads(b, turn, n, alpha0, beta0, tail, alpha', beta', best')
  {
    hide Searches, Returns;
    var alpha', beta', best' := NewAlpha(turn, alpha, e), NewBeta(turn, beta, e), NewBest(turn, alpha, beta, e);
    if beta' <= alpha' {
      SearchesWith(c, tail, turn, n, alpha, beta, best, e, best');
    } else {
      forall r | Searches(tail, turn, n, alpha', beta', best', r) ensures Returns(b, turn, n + 1, alpha0, beta0, r) {
        SearchesWith(c, tail, turn, n, alpha, beta, best, e, r);
      }
    }
  }

  /** A move found by the search is a legal move of the side to move. */
  ghost predicate LegalMove(b: Board, turn: Turn, out: Option<Move>) {
    out.Some? ==> Color(At(b, out.value.sx, out.value.sy)) == turn &&
                  CanMove(b, out.value.sx, out.value.sy, out.value.dx, out.value.dy)
  }

  /** The move found leads to a board whose search, within the node's window, returned `v`. */
  ghost predicate Earned(b: Board, turn: Turn, n: nat, alpha0: int, beta0: int, out: Option<Move>, v: int) {
    out.Some? &&
    var m := out.value;
    InBoard(m.sx, m.sy) && InBoard(m.dx, m.dy) &&
    exists alpha, beta :: alpha0 <= alpha && beta <= beta0 && Returns(Moved(b, m.sx, m.sy, m.dx, m.dy), Other(turn), n, alpha, beta, v)
  }

  /** A value that is better for the side to move than the window's own end and than the start value was earned by the
      move that is returned. */
  ghost predicate Rewarded(b: Board, turn: Turn, n: nat, alpha0: int, beta0: int, out: Option<Move>, r: int) {
    Flip(turn, r) > Lo(turn, alpha0, beta0) && Flip(turn, r) > -PF_INF ==> Earned(b, turn, n, alpha0, beta0, out, r)
  }

  /** What the loops keep of the move found so far. */
  ghost predicate Recorded(b: Board, turn: Turn, n: nat, alpha0: int, beta0: int, alpha: int, beta: int, best: int, out: Option<Move>) {
    alpha0 <= alpha && beta <= beta0 && Hi(turn, alpha, beta) == Hi(turn, alpha0, beta0) &&
    (Flip(turn, best) == Lo(turn, alpha, beta) || (best == Worst(turn) && Lo(turn, alpha, beta) == Lo(turn, alpha0, beta0))) &&
    Rewarded(b, turn, n, alpha0, beta0, out, Flip(turn, Lo(turn, alpha, beta)))
  }

  lemma RecordStarts(b: Board, turn: Turn, n: nat, alpha0: int, beta0: int, out: Option<Move>)
    ensures Recorded(b, turn, n, alpha0, beta0, alpha0, beta0, Worst(turn), out)
  {
    hide Earned;
  }

  /** After a child: `out` is its move when it is at least as good as the best so far. */
  lemma RecordNext(b: Board, turn: Turn, n: nat, alpha0: int, beta0: int, alpha: int, beta: int, best: int, out: Option<Move>, e: int, out': Option<Move>)
    requires Recorded(b, turn, n, alpha0, beta0, alpha, beta, best, out)
    requires if Flip(turn, e) >= Flip(turn, best) then Earned(b, turn, n, alpha0, beta0, out', e) else out' == out
    ensures Recorded(b, turn, n, alpha0, beta0, NewAlpha(turn, alpha, e), NewBeta(turn, beta, e), NewBest(turn, alpha, beta, e), out')
    ensures Rewarded(b, turn, n, alpha0, beta0, out', NewBest(turn, alpha, beta, e))
  {
    hide Earned;
  }

  lemma RecordEnds(b: Board, turn: Turn, n: nat, alpha0: int, beta0: int, alpha: int, beta: int, best: int, out: Option<Move>)
    requires Recorded(b, turn, n, alpha0, beta0, alpha, beta, best, out)
    ensures Rewarded(b, turn, n, alpha0, beta0, out, best)
  {
    hide Earned;
  }

  lemma EarnedBy(b: Board, turn: Turn, n: nat, alpha0: int, beta0: int, alpha: int, beta: int, m: Move, v: int)
    requires InBoard(m.sx, m.sy) && InBoard(m.dx, m.dy) && alpha0 <= alpha && beta <= beta0
    requires Returns(Moved(b, m.sx, m.sy, m.dx, m.dy), Other(turn), n, alpha, beta, v)
    ensures Earned(b, turn, n, alpha0, beta0, Some(m), v)
  {
    hide Returns, Moved;
  }

  /** The search of one move: the child's value, by the recursive call on a copy of the board. */
  method SearchChild(p: Field, turn: Turn, x: int, y: int, dx: int, dy: int, alpha: int, beta: int, depth: int, maxdepth: int,
                     ghost n: nat) returns (eval: int)
    requires p.Valid() && CanMove(p.field[..], x, y, dx, dy) && InBoard(x, y) && InBoard(dx, dy) && (x != dx || y != dy)
    requires depth < maxdepth && n == maxdepth - depth - 1
    ensures Returns(Moved(p.field[..], x, y, dx, dy), Other(turn), n, alpha, beta, eval)
    decreases maxdepth - depth, 0
  {
    hide CanMove, Moved, Returns, Bounds, Minimax, Reliance, LegalMove;
    var next := new Field(p.field[..]);
    next.DoMoveXY(x, y, dx, dy);
    var move;
    eval, move := AlphaBeta(next, Other(turn), alpha, beta, depth + 1, maxdepth);
  }

  /** `ai_minimax`: what it returns is one of the values that the coin allows, so that it is what plain minimax
      says of the window, whatever the coin shows on ties. */
  method AlphaBeta(p: Field, turn: Turn, alpha0: int, beta0: int, depth: int, maxdepth: int) returns (r: int, out: Option<Move>)
    requires p.Valid()
    ensures Returns(p.field[..], turn, Remaining(maxdepth, depth), alpha0, beta0, r)
    ensures Reliance(p.field[..], turn, Remaining(maxdepth, depth), alpha0, beta0) ==>
              Bounds(Minimax(p.field[..], turn, Remaining(maxdepth, depth)), r, alpha0, beta0)
    ensures LegalMove(p.field[..], turn, out)
    ensures depth < maxdepth ==> Rewarded(p.field[..], turn, maxdepth - depth - 1, alpha0, beta0, out, r)
    decreases maxdepth - depth, 2
  {
    hide Returns, Bounds, Minimax, Reliance, LegalMove, Rewarded;
    r, out := Search(p, turn, alpha0, beta0, depth, maxdepth);
    if Reliance(p.field[..], turn, Remaining(maxdepth, depth), alpha0, beta0) {
      ReturnsBounds(p.field[..], turn, Remaining(maxdepth, depth), alpha0, beta0, r);
    }
  }

  lemma LeafReturns(b: Board, turn: Turn, alpha: int, beta: int)
    ensures Returns(b, turn, 0, alpha, beta, Eval(b, turn))
  {
    hide Eval;
  }

  /** The body of `ai_minimax`. */
  method Search(p: Field, turn: Turn, alpha0: int, beta0: int, depth: int, maxdepth: int) returns (r: int, out: Option<Move>)
    requires p.Valid()
    ensures Returns(p.field[..], turn, Remaining(maxdepth, depth), alpha0, beta0, r)
    ensures LegalMove(p.field[..], turn, out)
    ensures depth < maxdepth ==> Rewarded(p.field[..], turn, maxdepth - depth - 1, alpha0, beta0, out, r)
    decreases maxdepth - depth, 1
  {
    hide CanMove, Moved, Returns, Searches, Leads, MovesFrom, PieceMoves, Slide, At, Eval, Children, Worst, LegalMove, Color, DX, DY,
         Min, Max, Other, Recorded, Rewarded, Earned, Flip, NewAlpha, NewBeta, NewBest;
    ghost var b: Board := p.field[..];
    out := None;
    NoMoveIsLegal(b, turn);
    if depth >= maxdepth {
      r := EvalPlayfield(p, turn);
      LeafReturns(b, turn, alpha0, beta0);
      return;
    }
    ghost var n: nat := maxdepth - depth - 1;
    var alpha, beta, best := alpha0, beta0, Worst(turn);
    LeadsStart(b, turn, n, alpha0, beta0);
    RecordStarts(b, turn, n, alpha0, beta0, out);
    ChildrenAre(b, turn);
    var y := 0;
    while y < SIZE
      invariant 0 <= y <= SIZE && LegalMove(b, turn, out)
      invariant Recorded(b, turn, n, alpha0, beta0, alpha, beta, best, out)
      invariant Leads(b, turn, n, alpha0, beta0, MovesFrom(b, turn, y * SIZE), alpha, beta, best)
    {
      var x := 0;
      while x < SIZE
        invariant 0 <= x <= SIZE && LegalMove(b, turn, out)
        invariant Recorded(b, turn, n, alpha0, beta0, alpha, beta, best, out)
        invariant Leads(b, turn, n, alpha0, beta0, MovesFrom(b, turn, y * SIZE + x), alpha, beta, best)
      {
        MovesNext(b, turn, x, y);
        ghost var later := MovesFrom(b, turn, y * SIZE + x + 1);
        var cur := p.GetItem(x, y);
        EmptyLeft(later);
        if Color(cur) != turn {
          x := x + 1;
          continue;
        }
        var i := 0;
        while i < |DIRECTIONS|
          invariant 0 <= i <= |DIRECTIONS| && LegalMove(b, turn, out)
          invariant Recorded(b, turn, n, alpha0, beta0, alpha, beta, best, out)
          invariant Leads(b, turn, n, alpha0, beta0, PieceMoves(b, x, y, i) + later, alpha, beta, best)
        {
          var d := DIRECTIONS[i];
          PieceNext(b, x, y, i);
          ghost var rest := PieceMoves(b, x, y, i + 1) + later;
          var dist := 1;
          Regroup(Slide(b, x, y, d, 1), PieceMoves(b, x, y, i + 1), later);
          while dist < SIZE
            invariant 1 <= dist <= SIZE && LegalMove(b, turn, out)
            invariant Recorded(b, turn, n, alpha0, beta0, alpha, beta, best, out)
            invariant Leads(b, turn, n, alpha0, beta0, Slide(b, x, y, d, dist) + rest, alpha, beta, best)
          {
            var dx, dy := x + DX(d, dist), y + DY(d, dist);
            SlideNext(b, x, y, d, dist);
            var can := p.CanMoveXY(x, y, dx, dy);
            if !can {
              break;
            }
            ghost var c := Moved(b, x, y, dx, dy);
            ghost var tail := Slide(b, x, y, d, dist + 1) + rest;
            Regroup([c], Slide(b, x, y, d, dist + 1), rest);
            var eval := SearchChild(p, turn, x, y, dx, dy, alpha, beta, depth, maxdepth, n);
            LeadsNarrow(b, turn, n, alpha0, beta0, c, tail, alpha, beta, best, eval);
            ghost var best0, out0 := best, out;
            RecordWindow(b, turn, n, alpha0, beta0, alpha, beta, best, out);
            EarnedBy(b, turn, n, alpha0, beta0, alpha, beta, Move(x, y, dx, dy), eval);
            AtLeast(turn, eval, best);
            dist := dist + 1;
            if (turn == Black && eval >= best) || (turn == White && eval <= best) {
              var coin: bool := *;
              if eval == best && coin {
                LeadsSkip(b, turn, n, alpha0, beta0, c, tail, alpha, beta, best, eval);
                continue;
              }
              out := Some(Move(x, y, dx, dy));
              MoveIsLegal(b, turn, out.value);
              best := eval;
            }
            RecordNext(b, turn, n, alpha0, beta0, alpha, beta, best0, out0, eval, out);
            NewVariables(turn, alpha, beta, eval);
            if turn == White {
              var newBeta := Min(beta, eval);
              if newBeta <= alpha {
                r := newBeta;
                return;
              }
              beta := newBeta;
              best := beta;
            } else {
              var newAlpha := Max(alpha, eval);
              if beta <= newAlpha {
                r := newAlpha;
                return;
              }
              alpha := newAlpha;
              best := alpha;
            }
          }
          if dist == SIZE {
            SlideEnds(b, x, y, d, dist);
          }
          EmptyLeft(rest);
          i := i + 1;
        }
        PieceEnds(b, x, y);
        EmptyLeft(later);
        x := x + 1;
      }
      y := y + 1;
    }
    LeadsEnd(b, turn, n, alpha0, beta0, alpha, beta, best);
    RecordEnds(b, turn, n, alpha0, beta0, alpha, beta, best, out);
    r := best;
  }

  lemma RecordWindow(b: Board, turn: Turn, n: nat, alpha0: int, beta0: int, alpha: int, beta: int, best: int, out: Option<Move>)
    requires Recorded(b, turn, n, alpha0, beta0, alpha, beta, best, out)
    ensures alpha0 <= alpha && beta <= beta0
  {
    hide Rewarded;
  }

  lemma AtLeast(turn: Turn, e: int, best: int)
    ensures Flip(turn, e) >= Flip(turn, best) <==> (turn == Black && e >= best) || (turn == White && e <= best)
  {}

  lemma NewVariables(turn: Turn, alpha: int, beta: int, e: int)
    ensures NewAlpha(turn, alpha, e) == (if turn == White then alpha else Max(alpha, e))
    ensures NewBeta(turn, beta, e) == (if turn == White then Min(beta, e) else beta)
    ensures NewBest(turn, alpha, beta, e) == (if turn == White then Min(beta, e) else Max(alpha, e))
  {}

  lemma NoMoveIsLegal(b: Board, turn: Turn)
    ensures LegalMove(b, turn, None)
  {}

  lemma MoveIsLegal(b: Board, turn: Turn, m: Move)
    requires Color(At(b, m.sx, m.sy)) == turn && CanMove(b, m.sx, m.sy, m.dx, m.dy)
    ensures LegalMove(b, turn, Some(m))
  {
    hide CanMove, At, Color;
  }

  lemma ChildrenAre(b: Board, turn: Turn)
    ensures MovesFrom(b, turn, 0) == Children(b, turn) && MovesFrom(b, turn, SQUARES) == []
  {
    hide PieceMoves;
  }

  lemma PieceEnds(b: Board, x: int, y: int)
    ensures PieceMoves(b, x, y, |DIRECTIONS|) == []
  {}

  lemma EmptyLeft(a: seq<Board>)
    ensures [] + a == a
  {}

  lemma Regroup(a: seq<Board>, b: seq<Board>, c: seq<Board>)
    ensures (a + b) + c == a + (b + c)
  {}

  /** The whole search, from the infinite window (`game_run_ai` uses depth 2): with at most one king on the
      board the value is the minimax value, whatever the coin says. */
  method RunAi(p: Field, turn: Turn, maxdepth: int) returns (r: int, out: Option<Move>)
    requires p.Valid()
    ensures OneKing(p.field[..]) ==> r == Minimax(p.field[..], turn, Remaining(maxdepth, 0))
    ensures -PF_INF < r < PF_INF ==> r == Minimax(p.field[..], turn, Remaining(maxdepth, 0))
    ensures LegalMove(p.field[..], turn, out)
    ensures maxdepth > 0 && r != Worst(turn) ==> Earned(p.field[..], turn, maxdepth - 1, -PF_INF, PF_INF, out, r)
  {
    hide OneKing, Minimax, LegalMove, Returns, Sound, Earned;
    r, out := AlphaBeta(p, turn, -PF_INF, PF_INF, 0, maxdepth);
    if maxdepth > 0 {
      NotWorse(p.field[..], turn, maxdepth - 1, r);
    }
    if OneKing(p.field[..]) {
      MinimaxFinite(p.field[..], turn, Remaining(maxdepth, 0));
      ReturnsFinite(p.field[..], turn, Remaining(maxdepth, 0), -PF_INF, PF_INF, r);
    }
  }

  /** From the infinite window nothing worse than the start value is returned. */
  lemma NotWorse(b: Board, turn: Turn, n: nat, r: int)
    requires Returns(b, turn, n + 1, -PF_INF, PF_INF, r)
    ensures r == Worst(turn) || Flip(turn, r) > -PF_INF
  {
    hide Searches, Children, Eval;
    Clipped(Children(b, turn), turn, n, -PF_INF, PF_INF, Worst(turn), r);
  }
}
