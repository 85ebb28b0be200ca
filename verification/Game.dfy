/** What every run of accepted tafl moves from the initial board keeps. */
module Game {
  import opened Options
  import opened Playfield

  // ----- the initial board -----

  const LAYOUT: seq<string> := [
    "...BBBBB...",
    ".....B.....",
    "...........",
    "B....W....B",
    "B...WWW...B",
    "BB.WWKWW.BB",
    "B...WWW...B",
    "B....W....B",
    "...........",
    ".....B.....",
    "...BBBBB..."]

  function ItemOf(c: char): Item {
    match c
    case 'B' => Black
    case 'W' => White
    case 'K' => King
    case '.' => Empty
    case _ => Invalid
  }

  lemma LayoutRows()
    ensures |LAYOUT| == SIZE && forall y :: 0 <= y < SIZE ==> |LAYOUT[y]| == SIZE
  {}

  /** `playfield_initial`. */
  function Initial(): Board {
    LayoutRows();
    seq(176, i requires 0 <= i < 176 => if i % ROW < SIZE then ItemOf(LAYOUT[i / ROW][i % ROW]) else Invalid)
  }

  // ----- the invariant -----

  /** At most one king; corners hold only the king or nothing, the throne too; the padding is invalid and
      nothing else is. */
  ghost predicate Legal(b: Board) {
    (forall x, y, x', y' :: At(b, x, y) == King && At(b, x', y') == King ==> x == x' && y == y') &&
    (forall x, y :: IsCorner(x, y) || IsThrone(x, y) ==> At(b, x, y) == King || At(b, x, y) == Empty) &&
    (forall x, y :: InBoard(x, y) ==> At(b, x, y) != Invalid) &&
    Padded(b)
  }

  ghost predicate Padded(b: Board) {
    forall i :: 0 <= i < 176 && i % ROW >= SIZE ==> b[i] == Invalid
  }

  function Count(b: seq<Item>, item: Item): nat {
    if b == [] then 0 else (if b[0] == item then 1 else 0) + Count(b[1..], item)
  }

  lemma {:induction false} CountUpdate(b: seq<Item>, i: nat, v: Item, item: Item)
    requires i < |b|
    ensures Count(b[i := v], item) == Count(b, item) - (if b[i] == item then 1 else 0) + (if v == item then 1 else 0)
  {
    if i == 0 {
      assert b[0 := v][1..] == b[1..];
    } else {
      CountUpdate(b[1..], i - 1, v, item);
      assert b[i := v][1..] == b[1..][i - 1 := v];
    }
  }

  // ----- one move -----

  lemma CapturesCount(moved: Board, dx: int, dy: int, k: nat, item: Item)
    requires InBoard(dx, dy) && k <= |DIRECTIONS| && item != Empty
    ensures Count(Captures(moved, dx, dy, k), item) <= Count(moved, item)
    decreases k
  {
    if k > 0 {
      CapturesCount(moved, dx, dy, k - 1, item);
      var d, b := DIRECTIONS[k - 1], Captures(moved, dx, dy, k - 1);
      var nx, ny := dx + DX(d, 1), dy + DY(d, 1);
      hide Count, Captured;
      if InBoard(nx, ny) {
        CountUpdate(b, Index(nx, ny), Empty, item);
      }
    }
  }

  /** The number of pieces of a kind never rises: a move keeps it, captures lower it. */
  lemma MoveCounts(b: Board, sx: int, sy: int, dx: int, dy: int, item: Item)
    requires CanMove(b, sx, sy, dx, dy) && item != Empty
    ensures InBoard(sx, sy) && InBoard(dx, dy)
    ensures Count(Stepped(b, sx, sy, dx, dy), item) == Count(b, item)
    ensures Count(Moved(b, sx, sy, dx, dy), item) <= Count(b, item)
  {
    AcceptedOnBoard(b, sx, sy, dx, dy);
    IndexDiffers(sx, sy, dx, dy);
    var i, j := Index(sx, sy), Index(dx, dy);
    CountUpdate(b, j, b[i], item);
    CountUpdate(b[j := b[i]], i, Empty, item);
    CapturesCount(Stepped(b, sx, sy, dx, dy), dx, dy, |DIRECTIONS|, item);
    hide Count, Captures, CanMove;
  }

  lemma {:induction false} CapturesSpare(moved: Board, dx: int, dy: int, k: nat, item: Item)
    requires InBoard(dx, dy) && k <= |DIRECTIONS| && Friends(item, At(moved, dx, dy))
    ensures Count(Captures(moved, dx, dy, k), item) == Count(moved, item)
    decreases k
  {
    if k > 0 {
      CapturesSpare(moved, dx, dy, k - 1, item);
      var d, b := DIRECTIONS[k - 1], Captures(moved, dx, dy, k - 1);
      var nx, ny := dx + DX(d, 1), dy + DY(d, 1);
      NotYetCaptured(moved, dx, dy, k - 1);
      NotFriend(moved, dx, dy, d, item);
      NextCapture(moved, dx, dy, k - 1);
      hide Count, Captured, Captures, Friends, DX, DY;
      if InBoard(nx, ny) {
        CountUpdate(b, Index(nx, ny), Empty, item);
      }
    }
  }

  lemma NotFriend(moved: Board, dx: int, dy: int, d: Direction, item: Item)
    requires Friends(item, At(moved, dx, dy))
    ensures Captured(moved, dx, dy, d) ==> At(moved, dx + DX(d, 1), dy + DY(d, 1)) != item
    ensures item != Empty
  {
    hide At, DX, DY;
  }

  /** A move removes no piece of the mover's own side. */
  lemma OwnCountsKept(b: Board, sx: int, sy: int, dx: int, dy: int, item: Item)
    requires CanMove(b, sx, sy, dx, dy) && Friends(item, At(b, sx, sy))
    ensures InBoard(sx, sy) && InBoard(dx, dy)
    ensures Count(Moved(b, sx, sy, dx, dy), item) == Count(b, item)
  {
    MoveCounts(b, sx, sy, dx, dy, item);
    StepEmpties(b, sx, sy, dx, dy);
    SteppedAt(b, sx, sy, dx, dy, dx, dy);
    hide CanMove, Count, Stepped, At;
    CapturesSpare(Stepped(b, sx, sy, dx, dy), dx, dy, |DIRECTIONS|, item);
  }

  lemma {:induction false} CapturesPadding(moved: Board, dx: int, dy: int, k: nat)
    requires InBoard(dx, dy) && k <= |DIRECTIONS| && Padded(moved)
    ensures Padded(Captures(moved, dx, dy, k))
    decreases k
  {
    if k > 0 {
      CapturesPadding(moved, dx, dy, k - 1);
      var d := DIRECTIONS[k - 1];
      var nx, ny := dx + DX(d, 1), dy + DY(d, 1);
      if InBoard(nx, ny) {
        assert Index(nx, ny) % ROW == nx;
      }
      hide Captured;
    }
  }

  lemma MovePadding(b: Board, sx: int, sy: int, dx: int, dy: int)
    requires InBoard(sx, sy) && InBoard(dx, dy) && Padded(b)
    ensures Padded(Moved(b, sx, sy, dx, dy))
  {
    assert Index(sx, sy) % ROW == sx && Index(dx, dy) % ROW == dx;
    CapturesPadding(Stepped(b, sx, sy, dx, dy), dx, dy, |DIRECTIONS|);
  }

  /** An accepted move keeps the board legal, and once the throne is empty it stays empty. */
  lemma MoveKeepsLegal(b: Board, sx: int, sy: int, dx: int, dy: int)
    requires Legal(b) && CanMove(b, sx, sy, dx, dy)
    ensures InBoard(sx, sy) && InBoard(dx, dy)
    ensures Legal(Moved(b, sx, sy, dx, dy))
    ensures At(b, 5, 5) == Empty ==> At(Moved(b, sx, sy, dx, dy), 5, 5) == Empty
  {
    AcceptedOnBoard(b, sx, sy, dx, dy);
    MovePadding(b, sx, sy, dx, dy);
    var after := Moved(b, sx, sy, dx, dy);
    forall x, y
      ensures At(after, x, y) == if x == dx && y == dy then At(b, sx, sy) else if x == sx && y == sy then Empty else At(after, x, y)
      ensures !(x == dx && y == dy) ==> At(after, x, y) == Empty || At(after, x, y) == At(b, x, y)
    {
      MovedAt(b, sx, sy, dx, dy, x, y);
    }
    hide Moved, Clear, At, Index, Padded;
  }

  // ----- runs -----

  datatype Move = Move(sx: int, sy: int, dx: int, dy: int)

  /** A run of accepted moves. */
  ghost function Play(b: Board, moves: seq<Move>): Option<Board>
    decreases |moves|
  {
    if moves == [] then Some(b)
    else
      var m := moves[0];
      if CanMove(b, m.sx, m.sy, m.dx, m.dy) && InBoard(m.sx, m.sy) && InBoard(m.dx, m.dy)
      then Play(Moved(b, m.sx, m.sy, m.dx, m.dy), moves[1..]) else None
  }

  lemma {:induction false} RunKeepsLegal(b: Board, moves: seq<Move>)
    requires Legal(b) && Play(b, moves).Some?
    ensures Legal(Play(b, moves).value)
    ensures forall item :: item != Empty ==> Count(Play(b, moves).value, item) <= Count(b, item)
    ensures At(b, 5, 5) == Empty ==> At(Play(b, moves).value, 5, 5) == Empty
    decreases |moves|
  {
    if moves != [] {
      var m := moves[0];
      MoveKeepsLegal(b, m.sx, m.sy, m.dx, m.dy);
      forall item | item != Empty ensures Count(Moved(b, m.sx, m.sy, m.dx, m.dy), item) <= Count(b, item) {
        MoveCounts(b, m.sx, m.sy, m.dx, m.dy, item);
      }
      hide Legal, Moved, CanMove, Count;
      RunKeepsLegal(Moved(b, m.sx, m.sy, m.dx, m.dy), moves[1..]);
    }
  }

  lemma LayoutLegal(x: int, y: int)
    requires InBoard(x, y)
    ensures |LAYOUT| == SIZE && |LAYOUT[y]| == SIZE
    ensures var c := LAYOUT[y][x];
            c in {'B', 'W', 'K', '.'} && (c == 'K' <==> x == 5 && y == 5) && (IsCorner(x, y) ==> c == '.')
  {}

  lemma InitialLegal()
    ensures Legal(Initial()) && At(Initial(), 5, 5) == King
  {
    forall x, y | InBoard(x, y)
      ensures At(Initial(), x, y) != Invalid && (At(Initial(), x, y) == King <==> x == 5 && y == 5) &&
              (IsCorner(x, y) ==> At(Initial(), x, y) == Empty)
    {
      LayoutLegal(x, y);
      assert Index(x, y) / ROW == y && Index(x, y) % ROW == x;
    }
    hide IsCorner, LAYOUT, Index, Initial;
    InitialPadded();
  }

  lemma InitialPadded()
    ensures Padded(Initial())
  {
    hide LAYOUT, ItemOf;
  }

  /** On every run of accepted moves from the initial board. */
  lemma GameKeepsLegal(moves: seq<Move>)
    requires Play(Initial(), moves).Some?
    ensures Legal(Play(Initial(), moves).value)
    ensures forall item :: item != Empty ==> Count(Play(Initial(), moves).value, item) <= Count(Initial(), item)
  {
    InitialLegal();
    hide Legal, Initial, Play;
    RunKeepsLegal(Initial(), moves);
  }

  /** Once the throne has been left, it is empty on the rest of the run. */
  lemma {:induction false} ThroneStaysEmpty(b: Board, moves: seq<Move>, more: seq<Move>)
    requires Legal(b) && Play(b, moves + more).Some?
    ensures Play(b, moves).Some?
    ensures At(Play(b, moves).value, 5, 5) == Empty ==> At(Play(b, moves + more).value, 5, 5) == Empty
    decreases |moves|
  {
    if moves == [] {
      assert moves + more == more;
      hide Legal, CanMove, Moved;
      RunKeepsLegal(b, more);
    } else {
      var m := moves[0];
      assert (moves + more)[1..] == moves[1..] + more;
      MoveKeepsLegal(b, m.sx, m.sy, m.dx, m.dy);
      hide Legal, CanMove, Moved;
      ThroneStaysEmpty(Moved(b, m.sx, m.sy, m.dx, m.dy), moves[1..], more);
    }
  }
}
