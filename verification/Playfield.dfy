/** examples/j2me/tafl-client/src/playfield.c: the board of a tafl game, its moves and its captures. */
module Playfield {
  // ----- items, directions and coordinates -----

  datatype Item = Black | White | King | Empty | Invalid

  predicate IsPiece(item: Item) {
    item != Empty && item != Invalid
  }

  /** `COLOR`: Invalid for anything that is not a piece. */
  function Color(item: Item): Item {
    match item
    case White => White
    case King => White
    case Black => Black
    case _ => Invalid
  }

  datatype Direction = Left | Right | Up | Down

  const DIRECTIONS: seq<Direction> := [Left, Right, Up, Down]

  /** `k` steps in a direction. */
  function DX(d: Direction, k: int): int {
    match d
    case Left => -k
    case Right => k
    case _ => 0
  }

  function DY(d: Direction, k: int): int {
    match d
    case Up => -k
    case Down => k
    case _ => 0
  }

  const SIZE := 11
  const ROW := 16

  /** Eleven rows of sixteen, the last five columns of each row being padding. */
  type Board = b: seq<Item> | |b| == 176 witness seq(176, _ => Empty)

  predicate InBoard(x: int, y: int) {
    0 <= x < SIZE && 0 <= y < SIZE
  }

  function Index(x: int, y: int): nat
    requires InBoard(x, y)
  {
    y * ROW + x
  }

  /** `playfield_get_item`, with coordinates below zero off the board. */
  function At(b: Board, x: int, y: int): Item {
    if InBoard(x, y) then b[Index(x, y)] else Invalid
  }

  predicate IsThrone(x: int, y: int) {
    x == 5 && y == 5
  }

  predicate IsCorner(x: int, y: int) {
    (x == 0 || x == SIZE - 1) && (y == 0 || y == SIZE - 1)
  }

  lemma IndexDiffers(x: int, y: int, x': int, y': int)
    requires InBoard(x, y) && InBoard(x', y')
    ensures Index(x, y) == Index(x', y') <==> x == x' && y == y'
    ensures Index(x, y) < 176
  {}

  // ----- moves -----

  function DirectionTo(sx: int, sy: int, dx: int, dy: int): Direction {
    if dx < sx then Left else if dx > sx then Right else if dy < sy then Up else Down
  }

  function Abs(x: int): nat {
    if x < 0 then -x else x
  }

  function Distance(sx: int, sy: int, dx: int, dy: int): nat {
    Abs(sx - dx) + Abs(sy - dy)
  }

  /** The item `j` squares ahead. */
  function Ahead(b: Board, x: int, y: int, d: Direction, j: int): Item {
    At(b, x + DX(d, j), y + DY(d, j))
  }

  /** The `k` squares from (x, y) on are empty. */
  ghost predicate Clear(b: Board, x: int, y: int, d: Direction, k: int) {
    forall j :: 1 <= j <= k ==> Ahead(b, x, y, d, j) == Empty
  }

  /** The rule of the game: a piece moves like a rook over empty squares, only the king onto a corner, nobody
      onto the throne. */
  ghost predicate CanMove(b: Board, sx: int, sy: int, dx: int, dy: int) {
    IsPiece(At(b, sx, sy)) && ((sx == dx) != (sy == dy)) &&
    (IsCorner(dx, dy) ==> At(b, sx, sy) == King) && !IsThrone(dx, dy) &&
    Clear(b, sx, sy, DirectionTo(sx, sy, dx, dy), Distance(sx, sy, dx, dy))
  }

  /** A piece of another color next to the destination, between it and a square that closes it in. */
  predicate Captured(b: Board, dx: int, dy: int, d: Direction) {
    var n := At(b, dx + DX(d, 1), dy + DY(d, 1));
    var ox, oy := dx + DX(d, 2), dy + DY(d, 2);
    IsPiece(n) && Color(n) != Color(At(b, dx, dy)) &&
    (Color(At(b, ox, oy)) == Color(At(b, dx, dy)) || IsCorner(ox, oy) || (IsThrone(ox, oy) && At(b, ox, oy) == Empty))
  }

  /** The board with a piece moved and nothing captured. */
  function Stepped(b: Board, sx: int, sy: int, dx: int, dy: int): Board
    requires InBoard(sx, sy) && InBoard(dx, dy)
  {
    b[Index(dx, dy) := b[Index(sx, sy)]][Index(sx, sy) := Empty]
  }

  function CaptureAt(b: Board, moved: Board, dx: int, dy: int, d: Direction): Board
    requires InBoard(dx, dy)
  {
    var nx, ny := dx + DX(d, 1), dy + DY(d, 1);
    if Captured(moved, dx, dy, d) && InBoard(nx, ny) then b[Index(nx, ny) := Empty] else b
  }

  /** All captures, decided on the board as it is after the move. */
  function Captures(moved: Board, dx: int, dy: int, k: nat): Board
    requires InBoard(dx, dy) && k <= |DIRECTIONS|
  {
    if k == 0 then moved else CaptureAt(Captures(moved, dx, dy, k - 1), moved, dx, dy, DIRECTIONS[k - 1])
  }

  /** The board after a move. */
  function Moved(b: Board, sx: int, sy: int, dx: int, dy: int): Board
    requires InBoard(sx, sy) && InBoard(dx, dy)
  {
    Captures(Stepped(b, sx, sy, dx, dy), dx, dy, |DIRECTIONS|)
  }

  // ----- the object -----

  class Field {
    const field: array<Item>

    ghost predicate Valid()
      reads this
    {
      field.Length == 176
    }

    constructor (b: Board)
      ensures Valid() && fresh(field) && field[..] == b
    {
      field := new Item[176](i requires 0 <= i < 176 => b[i]);
    }

    function GetItem(x: int, y: int): (item: Item)
      requires Valid()
      reads this, field
      ensures item == At(field[..], x, y)
    {
      if InBoard(x, y) then field[Index(x, y)] else Invalid
    }

    method SetItem(item: Item, x: int, y: int)
      requires Valid()
      modifies field
      ensures field[..] == if InBoard(x, y) then old(field[..])[Index(x, y) := item] else old(field[..])
    {
      if InBoard(x, y) {
        field[Index(x, y)] := item;
      }
    }

    /** `playfield_can_move_xy`. */
    method CanMoveXY(sx: int, sy: int, dx: int, dy: int) returns (yes: bool)
      requires Valid()
      ensures yes == CanMove(field[..], sx, sy, dx, dy)
    {
      var item := GetItem(sx, sy);
      ghost var b: Board := field[..];
      assert item == At(b, sx, sy);
      if item == Empty || item == Invalid {
        return false;
      }
      if !((sy - dy == 0 && Abs(sx - dx) >= 1) || (sx - dx == 0 && Abs(sy - dy) >= 1)) {
        return false;
      }
      if (item != King && IsCorner(dx, dy)) || IsThrone(dx, dy) {
        return false;
      }
      var d := DirectionTo(sx, sy, dx, dy);
      var x, y := sx, sy;
      ghost var k := 0;
      ghost var n := Distance(sx, sy, dx, dy);
      DistanceSteps(sx, sy, dx, dy);
      while x != dx || y != dy
        invariant 0 <= k <= n && x == sx + DX(d, k) && y == sy + DY(d, k) && Clear(b, sx, sy, d, k)
        decreases n - k
      {
        hide CanMove, IsCorner, IsThrone, At, DirectionTo, Distance;
        x, y, k := x + DX(d, 1), y + DY(d, 1), k + 1;
        assert GetItem(x, y) == At(b, x, y) by { AtIs(b, x, y); }
        if GetItem(x, y) != Empty {
          assert Ahead(b, sx, sy, d, k) != Empty;
          NotClear(b, sx, sy, dx, dy, k);
          return false;
        }
        MoreClear(b, sx, sy, d, k);
      }
      assert k == n;
      return true;
    }

    /** `playfield_do_move_xy`: the captures of each direction are made one after the other. */
    method DoMoveXY(sx: int, sy: int, dx: int, dy: int)
      requires Valid() && InBoard(sx, sy) && InBoard(dx, dy) && (sx != dx || sy != dy)
      modifies field
      ensures field[..] == Moved(old(field[..]), sx, sy, dx, dy)
    {
      var src := GetItem(sx, sy);
      SetItem(src, dx, dy);
      SetItem(Empty, sx, sy);
      ghost var moved: Board := field[..];
      SteppedAt(old(field[..]), sx, sy, dx, dy, dx, dy);
      for i := 0 to |DIRECTIONS|
        invariant field[..] == Captures(moved, dx, dy, i)
      {
        CaptureIn(DIRECTIONS[i], dx, dy, src, moved, i);
      }
    }

    /** One direction of the capture loop, on the board as the earlier directions left it. */
    method CaptureIn(d: Direction, dx: int, dy: int, src: Item, ghost moved: Board, ghost i: nat)
      requires Valid() && InBoard(dx, dy) && i < |DIRECTIONS| && d == DIRECTIONS[i] && src == At(moved, dx, dy)
      requires field[..] == Captures(moved, dx, dy, i)
      modifies field
      ensures field[..] == Captures(moved, dx, dy, i + 1)
    {
      hide Captures, IsPiece, Color, Index, TakenBefore, IsCorner, IsThrone;
      var nx, ny, ox, oy := dx + DX(d, 1), dy + DY(d, 1), dx + DX(d, 2), dy + DY(d, 2);
      var neighbor, opposite := GetItem(nx, ny), GetItem(ox, oy);
      NotYetCaptured(moved, dx, dy, i);
      NextCapture(moved, dx, dy, i);
      hide DX, DY;
      if IsPiece(neighbor) && Color(neighbor) != Color(src) &&
         (Color(opposite) == Color(src) || IsCorner(ox, oy) || (IsThrone(ox, oy) && opposite == Empty))
      {
        SetItem(Empty, nx, ny);
      }
    }

    /** `playfield_generate_possible_moves`: in each direction, until a move is refused. */
    method GeneratePossibleMoves(sx: int, sy: int) returns (moves: seq<(int, int)>)
      requires Valid()
      ensures forall m :: m in moves <==> Generated(field[..], sx, sy, m)
    {
      moves := [];
      ghost var b: Board := field[..];
      for i := 0 to |DIRECTIONS|
        invariant forall m :: m in moves <==> GeneratedBefore(b, sx, sy, i, m)
      {
        hide GeneratedBefore, AllMoves, CanStep, IsAhead;
        ghost var before := moves;
        moves := GenerateIn(sx, sy, DIRECTIONS[i], moves);
        forall m ensures m in moves <==> GeneratedBefore(b, sx, sy, i + 1, m) {
          GeneratedNext(b, sx, sy, i, m);
        }
      }
    }

    method GenerateIn(sx: int, sy: int, d: Direction, moves: seq<(int, int)>) returns (moves': seq<(int, int)>)
      requires Valid()
      ensures forall m :: m in moves' <==> m in moves || GeneratedIn(field[..], sx, sy, d, m)
    {
      ghost var b: Board := field[..];
      moves' := moves;
      var dist := 1;
      while dist < SIZE
        invariant 1 <= dist <= SIZE && AllMoves(b, sx, sy, d, dist - 1)
        invariant forall m :: m in moves' <==> m in moves || WithinAhead(sx, sy, d, dist, m)
      {
        hide CanStep, WithinAhead;
        var dx, dy := sx + DX(d, dist), sy + DY(d, dist);
        var can := CanMoveXY(sx, sy, dx, dy);
        StepIsMove(b, sx, sy, d, dist);
        hide DX, DY, CanMove;
        if !can {
          assert !AllMoves(b, sx, sy, d, dist);
          DirectionDone(b, sx, sy, d, dist, moves, moves');
          return;
        }
        AheadNext(sx, sy, d, dist);
        moves' := moves' + [(dx, dy)];
        dist := dist + 1;
      }
      DirectionDone(b, sx, sy, d, dist, moves, moves');
    }
  }

  lemma AtIs(b: Board, x: int, y: int)
    ensures At(b, x, y) == if InBoard(x, y) then b[Index(x, y)] else Invalid
  {}

  lemma DistanceSteps(sx: int, sy: int, dx: int, dy: int)
    requires (sx == dx) != (sy == dy)
    ensures var d, n := DirectionTo(sx, sy, dx, dy), Distance(sx, sy, dx, dy);
            n >= 1 && dx == sx + DX(d, n) && dy == sy + DY(d, n) &&
            forall k {:trigger DX(d, k)} :: sx + DX(d, k) == dx && sy + DY(d, k) == dy ==> k == n
  {}

  lemma NotClear(b: Board, sx: int, sy: int, dx: int, dy: int, k: int)
    requires 1 <= k <= Distance(sx, sy, dx, dy) && Ahead(b, sx, sy, DirectionTo(sx, sy, dx, dy), k) != Empty
    ensures !CanMove(b, sx, sy, dx, dy)
  {
    hide Distance, DirectionTo, Ahead, IsCorner, IsThrone;
  }

  lemma MoreClear(b: Board, sx: int, sy: int, d: Direction, k: int)
    requires Clear(b, sx, sy, d, k - 1) && Ahead(b, sx, sy, d, k) == Empty
    ensures Clear(b, sx, sy, d, k)
  {
    hide Ahead;
  }

  // ----- moves by direction and distance -----

  /** `CanMove`, for the square `k` ahead. */
  ghost predicate CanStep(b: Board, sx: int, sy: int, d: Direction, k: int) {
    var dx, dy := sx + DX(d, k), sy + DY(d, k);
    IsPiece(At(b, sx, sy)) && (IsCorner(dx, dy) ==> At(b, sx, sy) == King) && !IsThrone(dx, dy) && Clear(b, sx, sy, d, k)
  }

  lemma StepIsMove(b: Board, sx: int, sy: int, d: Direction, k: int)
    requires k >= 1
    ensures CanStep(b, sx, sy, d, k) <==> CanMove(b, sx, sy, sx + DX(d, k), sy + DY(d, k))
  {
    assert DirectionTo(sx, sy, sx + DX(d, k), sy + DY(d, k)) == d;
    assert Distance(sx, sy, sx + DX(d, k), sy + DY(d, k)) == k;
    hide Clear, DirectionTo, Distance, IsCorner, IsThrone, At;
  }

  predicate IsAhead(sx: int, sy: int, d: Direction, k: int, m: (int, int)) {
    m == (sx + DX(d, k), sy + DY(d, k))
  }

  ghost predicate WithinAhead(sx: int, sy: int, d: Direction, dist: int, m: (int, int)) {
    exists k :: 1 <= k < dist && IsAhead(sx, sy, d, k, m)
  }

  lemma AheadNext(sx: int, sy: int, d: Direction, dist: int)
    requires dist >= 1
    ensures forall m :: WithinAhead(sx, sy, d, dist + 1, m) <==>
                        WithinAhead(sx, sy, d, dist, m) || m == (sx + DX(d, dist), sy + DY(d, dist))
  {
    hide DX, DY;
    forall m ensures WithinAhead(sx, sy, d, dist + 1, m) <==>
                     WithinAhead(sx, sy, d, dist, m) || m == (sx + DX(d, dist), sy + DY(d, dist)) {
      assert IsAhead(sx, sy, d, dist, m) <==> m == (sx + DX(d, dist), sy + DY(d, dist));
    }
  }

  /** The first `k` squares in a direction can all be moved to. */
  ghost predicate AllMoves(b: Board, sx: int, sy: int, d: Direction, k: int) {
    forall j :: 1 <= j <= k ==> CanStep(b, sx, sy, d, j)
  }

  ghost predicate GeneratedIn(b: Board, sx: int, sy: int, d: Direction, m: (int, int)) {
    exists k :: 1 <= k < SIZE && IsAhead(sx, sy, d, k, m) && AllMoves(b, sx, sy, d, k)
  }

  ghost predicate GeneratedBefore(b: Board, sx: int, sy: int, n: nat, m: (int, int))
    requires n <= |DIRECTIONS|
  {
    exists i :: 0 <= i < n && GeneratedIn(b, sx, sy, DIRECTIONS[i], m)
  }

  ghost predicate Generated(b: Board, sx: int, sy: int, m: (int, int)) {
    GeneratedBefore(b, sx, sy, |DIRECTIONS|, m)
  }

  lemma GeneratedNext(b: Board, sx: int, sy: int, i: nat, m: (int, int))
    requires i < |DIRECTIONS|
    ensures GeneratedBefore(b, sx, sy, i + 1, m) <==> GeneratedBefore(b, sx, sy, i, m) || GeneratedIn(b, sx, sy, DIRECTIONS[i], m)
  {
    hide GeneratedIn;
  }

  // ----- captures -----

  ghost predicate TakenBefore(moved: Board, dx: int, dy: int, k: nat, x: int, y: int)
    requires k <= |DIRECTIONS|
  {
    exists i :: 0 <= i < k && x == dx + DX(DIRECTIONS[i], 1) && y == dy + DY(DIRECTIONS[i], 1) && Captured(moved, dx, dy, DIRECTIONS[i])
  }

  /** The sequential captures take exactly the pieces that were closed in when the move was made. */
  lemma {:induction false} CapturesAt(moved: Board, dx: int, dy: int, k: nat, x: int, y: int)
    requires InBoard(dx, dy) && k <= |DIRECTIONS|
    ensures At(Captures(moved, dx, dy, k), x, y) == if TakenBefore(moved, dx, dy, k, x, y) then Empty else At(moved, x, y)
  {
    if k > 0 {
      CapturesAt(moved, dx, dy, k - 1, x, y);
      var d := DIRECTIONS[k - 1];
      var nx, ny := dx + DX(d, 1), dy + DY(d, 1);
      TakenNext(moved, dx, dy, k, x, y);
      if InBoard(x, y) && InBoard(nx, ny) {
        IndexDiffers(x, y, nx, ny);
      }
      hide TakenBefore, Index;
    }
  }

  lemma TakenNext(moved: Board, dx: int, dy: int, k: nat, x: int, y: int)
    requires 0 < k <= |DIRECTIONS|
    ensures var d := DIRECTIONS[k - 1];
            TakenBefore(moved, dx, dy, k, x, y) <==>
            TakenBefore(moved, dx, dy, k - 1, x, y) || (x == dx + DX(d, 1) && y == dy + DY(d, 1) && Captured(moved, dx, dy, d))
  {
    hide Captured;
  }

  lemma NeighborsDiffer(dx: int, dy: int, i: nat)
    requires i < |DIRECTIONS|
    ensures var d := DIRECTIONS[i];
            forall k :: 0 <= k < i ==>
              var e := DIRECTIONS[k];
              !(DX(e, 1) == DX(d, 1) && DY(e, 1) == DY(d, 1)) && !(DX(e, 1) == DX(d, 2) && DY(e, 1) == DY(d, 2)) &&
              !(DX(e, 1) == 0 && DY(e, 1) == 0)
  {}

  lemma NotYetCaptured(moved: Board, dx: int, dy: int, i: nat)
    requires InBoard(dx, dy) && i < |DIRECTIONS|
    ensures var d, b := DIRECTIONS[i], Captures(moved, dx, dy, i);
            At(b, dx + DX(d, 1), dy + DY(d, 1)) == At(moved, dx + DX(d, 1), dy + DY(d, 1)) &&
            At(b, dx + DX(d, 2), dy + DY(d, 2)) == At(moved, dx + DX(d, 2), dy + DY(d, 2))
  {
    var d := DIRECTIONS[i];
    NeighborsDiffer(dx, dy, i);
    CapturesAt(moved, dx, dy, i, dx + DX(d, 1), dy + DY(d, 1));
    CapturesAt(moved, dx, dy, i, dx + DX(d, 2), dy + DY(d, 2));
    hide Captures, At, Captured, DX, DY;
  }

  lemma NextCapture(moved: Board, dx: int, dy: int, i: nat)
    requires InBoard(dx, dy) && i < |DIRECTIONS|
    ensures Captures(moved, dx, dy, i + 1) == CaptureAt(Captures(moved, dx, dy, i), moved, dx, dy, DIRECTIONS[i])
  {
    hide CaptureAt;
  }

  lemma SteppedAt(b: Board, sx: int, sy: int, dx: int, dy: int, x: int, y: int)
    requires InBoard(sx, sy) && InBoard(dx, dy) && (sx != dx || sy != dy)
    ensures At(Stepped(b, sx, sy, dx, dy), x, y) ==
            if x == dx && y == dy then At(b, sx, sy) else if x == sx && y == sy then Empty else At(b, x, y)
  {
    IndexDiffers(sx, sy, dx, dy);
    if InBoard(x, y) {
      IndexDiffers(x, y, dx, dy);
      IndexDiffers(x, y, sx, sy);
    }
    hide Index;
  }

  /** A move changes the two squares it joins and the captured neighbours of its destination, nothing else. */
  lemma MovedAt(b: Board, sx: int, sy: int, dx: int, dy: int, x: int, y: int)
    requires InBoard(sx, sy) && InBoard(dx, dy) && (sx != dx || sy != dy)
    ensures At(Moved(b, sx, sy, dx, dy), x, y) ==
            if x == dx && y == dy then At(b, sx, sy)
            else if x == sx && y == sy then Empty
            else if TakenBefore(Stepped(b, sx, sy, dx, dy), dx, dy, |DIRECTIONS|, x, y) then Empty
            else At(b, x, y)
  {
    var moved := Stepped(b, sx, sy, dx, dy);
    CapturesAt(moved, dx, dy, |DIRECTIONS|, x, y);
    SteppedAt(b, sx, sy, dx, dy, x, y);
    NotItself(moved, dx, dy);
    hide Captures, Stepped, At, TakenBefore;
  }

  lemma NotItself(moved: Board, dx: int, dy: int)
    ensures !TakenBefore(moved, dx, dy, |DIRECTIONS|, dx, dy)
  {
    hide Captured;
  }

  // ----- who is captured -----

  /** Pieces of one side: the king is white. */
  predicate Friends(i: Item, j: Item) {
    (i == Black && j == Black) || (i in {White, King} && j in {White, King})
  }

  predicate Foes(i: Item, j: Item) {
    (i == Black && j in {White, King}) || (i in {White, King} && j == Black)
  }

  /** After the step from (sx, sy), the square (x, y) holds a piece of the mover's side, or is a corner, or is the
      empty throne. */
  predicate ClosesIn(b: Board, sx: int, sy: int, x: int, y: int) {
    (!(x == sx && y == sy) && Friends(At(b, x, y), At(b, sx, sy))) ||
    (x in {0, 10} && y in {0, 10}) ||
    (x == 5 && y == 5 && (At(b, 5, 5) == Empty || (sx == 5 && sy == 5)))
  }

  predicate Beside(x: int, y: int, dx: int, dy: int) {
    (x == dx && (y == dy - 1 || y == dy + 1)) || (y == dy && (x == dx - 1 || x == dx + 1))
  }

  lemma BesideBy(x: int, y: int, dx: int, dy: int)
    ensures Beside(x, y, dx, dy) <==>
            exists i {:trigger DIRECTIONS[i]} :: 0 <= i < |DIRECTIONS| && x == dx + DX(DIRECTIONS[i], 1) && y == dy + DY(DIRECTIONS[i], 1)
    ensures forall d :: x == dx + DX(d, 1) && y == dy + DY(d, 1) ==> dx + DX(d, 2) == 2 * x - dx && dy + DY(d, 2) == 2 * y - dy
  {
    assert DIRECTIONS[0] == Left && DIRECTIONS[1] == Right && DIRECTIONS[2] == Up && DIRECTIONS[3] == Down;
  }

  /** Which neighbour of the destination is closed in, from the board before the move. */
  lemma ClosedIn(b: Board, sx: int, sy: int, dx: int, dy: int, x: int, y: int)
    requires CanMove(b, sx, sy, dx, dy) && !(x == sx && y == sy) && !(x == dx && y == dy)
    ensures InBoard(sx, sy) && InBoard(dx, dy)
    ensures TakenBefore(Stepped(b, sx, sy, dx, dy), dx, dy, |DIRECTIONS|, x, y) <==>
            Foes(At(b, x, y), At(b, sx, sy)) && Beside(x, y, dx, dy) && ClosesIn(b, sx, sy, 2 * x - dx, 2 * y - dy)
  {
    hide *;
    AcceptedOnBoard(b, sx, sy, dx, dy);
    BesideBy(x, y, dx, dy);
    var moved := Stepped(b, sx, sy, dx, dy);
    forall d | x == dx + DX(d, 1) && y == dy + DY(d, 1)
      ensures Captured(moved, dx, dy, d) <==>
              Foes(At(b, x, y), At(b, sx, sy)) && ClosesIn(b, sx, sy, 2 * x - dx, 2 * y - dy)
    {
      ClosedInBy(b, sx, sy, dx, dy, x, y, d);
    }
    TakenIs(moved, dx, dy, x, y);
  }

  lemma TakenIs(moved: Board, dx: int, dy: int, x: int, y: int)
    ensures TakenBefore(moved, dx, dy, |DIRECTIONS|, x, y) <==>
            exists i {:trigger DIRECTIONS[i]} :: 0 <= i < |DIRECTIONS| && x == dx + DX(DIRECTIONS[i], 1) && y == dy + DY(DIRECTIONS[i], 1) &&
                                                Captured(moved, dx, dy, DIRECTIONS[i])
  {
    hide Captured, DX, DY;
  }

  lemma ClosedInBy(b: Board, sx: int, sy: int, dx: int, dy: int, x: int, y: int, d: Direction)
    requires CanMove(b, sx, sy, dx, dy) && !(x == sx && y == sy) && !(x == dx && y == dy)
    requires x == dx + DX(d, 1) && y == dy + DY(d, 1) && InBoard(sx, sy) && InBoard(dx, dy)
    ensures Captured(Stepped(b, sx, sy, dx, dy), dx, dy, d) <==>
            Foes(At(b, x, y), At(b, sx, sy)) && ClosesIn(b, sx, sy, 2 * x - dx, 2 * y - dy)
  {
    hide *;
    var moved, ox, oy := Stepped(b, sx, sy, dx, dy), 2 * x - dx, 2 * y - dy;
    StepEmpties(b, sx, sy, dx, dy);
    SteppedAt(b, sx, sy, dx, dy, x, y);
    SteppedAt(b, sx, sy, dx, dy, dx, dy);
    SteppedAt(b, sx, sy, dx, dy, ox, oy);
    CapturedIs(moved, dx, dy, x, y, d);
    FoesAre(At(b, x, y), At(b, sx, sy));
    ClosesInIs(b, sx, sy, ox, oy, At(moved, ox, oy));
  }

  lemma CapturedIs(moved: Board, dx: int, dy: int, x: int, y: int, d: Direction)
    requires x == dx + DX(d, 1) && y == dy + DY(d, 1)
    ensures var ox, oy, m := 2 * x - dx, 2 * y - dy, At(moved, dx, dy);
            (ox != dx || oy != dy) &&
            (Captured(moved, dx, dy, d) <==>
               IsPiece(At(moved, x, y)) && Color(At(moved, x, y)) != Color(m) &&
               (Color(At(moved, ox, oy)) == Color(m) || IsCorner(ox, oy) || (IsThrone(ox, oy) && At(moved, ox, oy) == Empty)))
  {
    BesideBy(x, y, dx, dy);
    assert DX(d, 1) != 0 || DY(d, 1) != 0;
    hide At, Color, IsCorner, IsThrone, DX, DY, Beside;
  }

  lemma FoesAre(i: Item, j: Item)
    requires IsPiece(j)
    ensures IsPiece(i) && Color(i) != Color(j) <==> Foes(i, j)
  {}

  lemma ClosesInIs(b: Board, sx: int, sy: int, ox: int, oy: int, o: Item)
    requires IsPiece(At(b, sx, sy)) && o == if ox == sx && oy == sy then Empty else At(b, ox, oy)
    ensures Color(o) == Color(At(b, sx, sy)) || IsCorner(ox, oy) || (IsThrone(ox, oy) && o == Empty) <==> ClosesIn(b, sx, sy, ox, oy)
  {
    hide At;
  }

  lemma StepEmpties(b: Board, sx: int, sy: int, dx: int, dy: int)
    requires CanMove(b, sx, sy, dx, dy)
    ensures !(sx == dx && sy == dy) && IsPiece(At(b, sx, sy))
  {}

  /** An accepted move takes a piece of the other side if and only if it stands beside the destination and the
      square beyond it, in line, closes it in. */
  lemma FoeTakenIff(b: Board, sx: int, sy: int, dx: int, dy: int, x: int, y: int)
    requires CanMove(b, sx, sy, dx, dy) && Foes(At(b, x, y), At(b, sx, sy))
    ensures InBoard(sx, sy) && InBoard(dx, dy)
    ensures At(Moved(b, sx, sy, dx, dy), x, y) ==
            if Beside(x, y, dx, dy) && ClosesIn(b, sx, sy, 2 * x - dx, 2 * y - dy) then Empty else At(b, x, y)
  {
    AcceptedOnBoard(b, sx, sy, dx, dy);
    StepEmpties(b, sx, sy, dx, dy);
    ClosedIn(b, sx, sy, dx, dy, x, y);
    MovedAt(b, sx, sy, dx, dy, x, y);
    hide Moved, TakenBefore, CanMove, At, Beside, ClosesIn;
  }

  /** An accepted move moves the piece, and no other piece of its side. */
  lemma FriendsStay(b: Board, sx: int, sy: int, dx: int, dy: int, x: int, y: int)
    requires CanMove(b, sx, sy, dx, dy) && !Foes(At(b, x, y), At(b, sx, sy))
    ensures InBoard(sx, sy) && InBoard(dx, dy)
    ensures At(Moved(b, sx, sy, dx, dy), x, y) ==
            if x == dx && y == dy then At(b, sx, sy) else if x == sx && y == sy then Empty else At(b, x, y)
  {
    AcceptedOnBoard(b, sx, sy, dx, dy);
    StepEmpties(b, sx, sy, dx, dy);
    MovedAt(b, sx, sy, dx, dy, x, y);
    if !(x == dx && y == dy) && !(x == sx && y == sy) {
      ClosedIn(b, sx, sy, dx, dy, x, y);
    }
    hide Moved, TakenBefore, CanMove, At;
  }

  // ----- generated moves and accepted moves -----

  lemma DirectionDone(b: Board, sx: int, sy: int, d: Direction, dist: int, before: seq<(int, int)>, moves: seq<(int, int)>)
    requires 1 <= dist <= SIZE && AllMoves(b, sx, sy, d, dist - 1) && (dist < SIZE ==> !AllMoves(b, sx, sy, d, dist))
    requires forall m :: m in moves <==> m in before || WithinAhead(sx, sy, d, dist, m)
    ensures forall m :: m in moves <==> m in before || GeneratedIn(b, sx, sy, d, m)
  {
    forall m: (int, int) ensures WithinAhead(sx, sy, d, dist, m) <==> GeneratedIn(b, sx, sy, d, m) {
      hide CanStep, IsAhead;
      if WithinAhead(sx, sy, d, dist, m) {
        var k :| 1 <= k < dist && IsAhead(sx, sy, d, k, m);
        assert AllMoves(b, sx, sy, d, k);
      }
      if GeneratedIn(b, sx, sy, d, m) {
        var k :| 1 <= k < SIZE && IsAhead(sx, sy, d, k, m) && AllMoves(b, sx, sy, d, k);
        assert forall j :: 1 <= j <= k ==> AllMoves(b, sx, sy, d, j);
        assert k < dist;
      }
    }
  }

  /** Between the two squares of a straight line. */
  predicate CrossesThrone(sx: int, sy: int, dx: int, dy: int) {
    (sx == 5 && dx == 5 && (sy < 5 < dy || dy < 5 < sy)) || (sy == 5 && dy == 5 && (sx < 5 < dx || dx < 5 < sx))
  }

  /** A move that is accepted stays on the board and ends on an empty square. */
  lemma AcceptedOnBoard(b: Board, sx: int, sy: int, dx: int, dy: int)
    requires CanMove(b, sx, sy, dx, dy)
    ensures InBoard(sx, sy) && InBoard(dx, dy) && At(b, dx, dy) == Empty && 1 <= Distance(sx, sy, dx, dy) < SIZE
  {
    var d, n := DirectionTo(sx, sy, dx, dy), Distance(sx, sy, dx, dy);
    DistanceSteps(sx, sy, dx, dy);
    assert Ahead(b, sx, sy, d, n) == Empty;
    hide Clear, DX, DY, DirectionTo, IsCorner, IsThrone, Index;
  }

  /** A shorter move in the same direction is refused only for the throne; a corner cannot be passed. */
  lemma ShorterMove(b: Board, sx: int, sy: int, d: Direction, k: int, j: int)
    requires 1 <= j <= k && CanStep(b, sx, sy, d, k)
    ensures CanStep(b, sx, sy, d, j) <==> !IsThrone(sx + DX(d, j), sy + DY(d, j))
  {
    ClearShorter(b, sx, sy, d, k, j);
    StepIsMove(b, sx, sy, d, k);
    AcceptedOnBoard(b, sx, sy, sx + DX(d, k), sy + DY(d, k));
    PassesNoCorner(sx, sy, d, k, j);
    hide DX, DY, At, IsCorner, IsThrone, Clear, CanMove;
  }

  lemma ClearShorter(b: Board, sx: int, sy: int, d: Direction, k: int, j: int)
    requires j <= k && Clear(b, sx, sy, d, k)
    ensures Clear(b, sx, sy, d, j)
  {
    hide Ahead;
  }

  lemma PassesNoCorner(sx: int, sy: int, d: Direction, k: int, j: int)
    requires 1 <= j <= k && InBoard(sx, sy) && InBoard(sx + DX(d, k), sy + DY(d, k))
    ensures IsCorner(sx + DX(d, j), sy + DY(d, j)) ==> j == k
  {}

  /** The generated moves are the accepted ones whose path does not cross the throne. */
  lemma GeneratedIffAccepted(b: Board, sx: int, sy: int, dx: int, dy: int)
    ensures Generated(b, sx, sy, (dx, dy)) <==> CanMove(b, sx, sy, dx, dy) && !CrossesThrone(sx, sy, dx, dy)
  {
    if CanMove(b, sx, sy, dx, dy) && !CrossesThrone(sx, sy, dx, dy) {
      AcceptedIsGenerated(b, sx, sy, dx, dy);
    }
    if Generated(b, sx, sy, (dx, dy)) {
      GeneratedIsAccepted(b, sx, sy, dx, dy);
    }
  }

  lemma ThroneOnPath(sx: int, sy: int, d: Direction, k: int)
    requires k >= 1
    ensures forall j {:trigger DX(d, j)} :: 1 <= j < k && IsThrone(sx + DX(d, j), sy + DY(d, j)) ==>
              CrossesThrone(sx, sy, sx + DX(d, k), sy + DY(d, k))
    ensures CrossesThrone(sx, sy, sx + DX(d, k), sy + DY(d, k)) ==>
              exists j {:trigger DX(d, j)} :: 1 <= j < k && IsThrone(sx + DX(d, j), sy + DY(d, j))
  {
    if CrossesThrone(sx, sy, sx + DX(d, k), sy + DY(d, k)) {
      var j := if sx == 5 && DX(d, 1) == 0 then Abs(5 - sy) else Abs(5 - sx);
      assert 1 <= j < k && IsThrone(sx + DX(d, j), sy + DY(d, j));
    }
  }

  lemma AcceptedIsGenerated(b: Board, sx: int, sy: int, dx: int, dy: int)
    requires CanMove(b, sx, sy, dx, dy) && !CrossesThrone(sx, sy, dx, dy)
    ensures Generated(b, sx, sy, (dx, dy))
  {
    var d, k := DirectionTo(sx, sy, dx, dy), Distance(sx, sy, dx, dy);
    AcceptedOnBoard(b, sx, sy, dx, dy);
    DistanceSteps(sx, sy, dx, dy);
    StepIsMove(b, sx, sy, d, k);
    ThroneOnPath(sx, sy, d, k);
    assert IsAhead(sx, sy, d, k, (dx, dy));
    hide CanMove, CrossesThrone, DirectionTo, Distance, InBoard, CanStep, IsAhead;
    forall j | 1 <= j <= k ensures CanStep(b, sx, sy, d, j) {
      if j < k {
        ShorterMove(b, sx, sy, d, k, j);
        assert DX(d, j) == DX(d, j);
      }
    }
    assert AllMoves(b, sx, sy, d, k);
    hide AllMoves;
    assert GeneratedIn(b, sx, sy, d, (dx, dy));
    assert DIRECTIONS[match d case Left => 0 case Right => 1 case Up => 2 case Down => 3] == d;
  }

  lemma GeneratedIsAccepted(b: Board, sx: int, sy: int, dx: int, dy: int)
    requires Generated(b, sx, sy, (dx, dy))
    ensures CanMove(b, sx, sy, dx, dy) && !CrossesThrone(sx, sy, dx, dy)
  {
    var i :| 0 <= i < |DIRECTIONS| && GeneratedIn(b, sx, sy, DIRECTIONS[i], (dx, dy));
    var d := DIRECTIONS[i];
    var k :| 1 <= k < SIZE && IsAhead(sx, sy, d, k, (dx, dy)) && AllMoves(b, sx, sy, d, k);
    StepIsMove(b, sx, sy, d, k);
    ThroneOnPath(sx, sy, d, k);
    hide CanMove, CrossesThrone;
    forall j {:trigger DX(d, j)} | 1 <= j <= k ensures !IsThrone(sx + DX(d, j), sy + DY(d, j)) {
      assert CanStep(b, sx, sy, d, j);
      hide Clear, IsThrone;
    }
    assert CanStep(b, sx, sy, d, k);
  }

  /** The two differ: a lone piece may pass over the empty throne, but the move is never generated. */
  lemma ThroneCrossingNotGenerated()
    ensures var b: Board := seq(176, i => if i == 5 then Black else Empty);
            CanMove(b, 5, 0, 5, 10) && !Generated(b, 5, 0, (5, 10))
  {
    var b: Board := seq(176, i => if i == 5 then Black else Empty);
    GeneratedIffAccepted(b, 5, 0, 5, 10);
    hide Generated;
    assert At(b, 5, 0) == Black;
    forall j | 1 <= j <= 10 ensures Ahead(b, 5, 0, Down, j) == Empty {
      assert Index(5, j) == j * 16 + 5;
    }
  }
}
