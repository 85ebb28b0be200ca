/** examples/j2me/tafl-client/src/ai.c: for which boards the search is right whatever its window.  The value that
    `best_eval` starts from is a real value, which a tie may skip; this module says exactly when that matters. */
module SearchWindows {
  import opened Options
  import opened Playfield
  import opened Ai

  // ----- every search returns something -----

  lemma {:induction false} SomeResult(b: Board, turn: Turn, n: nat, alpha: int, beta: int) returns (r: int)
    ensures Returns(b, turn, n, alpha, beta, r)
    decreases n, 0
  {
    hide Searches, Children, Eval;
    if n == 0 {
      r := Eval(b, turn);
    } else {
      r := SomeSearch(Children(b, turn), turn, n - 1, alpha, beta, Worst(turn));
    }
  }

  lemma {:induction false} SomeSearch(cs: seq<Board>, turn: Turn, n: nat, alpha: int, beta: int, best: int) returns (r: int)
    ensures Searches(cs, turn, n, alpha, beta, best, r)
    decreases n, |cs| + 1
  {
    hide Searches, Returns;
    if cs == [] {
      r := best;
      NothingSearched(turn, n, alpha, beta, best, r);
    } else {
      var e := SomeResult(cs[0], Other(turn), n, alpha, beta);
      var alpha', beta', best' := NewAlpha(turn, alpha, e), NewBeta(turn, beta, e), NewBest(turn, alpha, beta, e);
      if beta' <= alpha' {
        r := best';
      } else {
        r := SomeSearch(cs[1..], turn, n, alpha', beta', best');
      }
      FirstSearched(cs, turn, n, alpha, beta, best, e, r);
    }
  }

  lemma FirstSearched(cs: seq<Board>, turn: Turn, n: nat, alpha: int, beta: int, best: int, e: int, r: int)
    requires cs != [] && Returns(cs[0], Other(turn), n, alpha, beta, e) && Continues(cs[1..], turn, n, alpha, beta, best, e, r)
    ensures Searches(cs, turn, n, alpha, beta, best, r)
  {
    hide Returns, Continues, Searches;
    assert cs == [cs[0]] + cs[1..];
    SearchesWith(cs[0], cs[1..], turn, n, alpha, beta, best, e, r);
  }

  /** A child that does not end the search, for the side that maximises. */
  lemma Narrowed(cs: seq<Board>, turn: Turn, n: nat, alpha: int, beta: int, best: int, e: int, alpha': int, beta': int, r: int)
    requires cs != [] && Returns(cs[0], Other(turn), n, alpha, beta, e)
    requires alpha' == NewAlpha(turn, alpha, e) && beta' == NewBeta(turn, beta, e) && alpha' < beta'
    requires Searches(cs[1..], turn, n, alpha', beta', NewBest(turn, alpha, beta, e), r)
    ensures Searches(cs, turn, n, alpha, beta, best, r)
  {
    hide Returns, Searches;
    FirstSearched(cs, turn, n, alpha, beta, best, e, r);
  }

  lemma NewWindow(turn: Turn, alpha: int, beta: int, e: int)
    ensures var alpha', beta' := NewAlpha(turn, alpha, e), NewBeta(turn, beta, e);
            Lo(turn, alpha', beta') == Max(Lo(turn, alpha, beta), Flip(turn, e)) == Flip(turn, NewBest(turn, alpha, beta, e)) &&
            Hi(turn, alpha', beta') == Hi(turn, alpha, beta) && (alpha' < beta' <==> Lo(turn, alpha', beta') < Hi(turn, alpha, beta))
    ensures Max(Lo(turn, alpha, beta), Flip(turn, e)) == Lo(turn, alpha, beta) ==>
              NewAlpha(turn, alpha, e) == alpha && NewBeta(turn, beta, e) == beta
  {}

  // ----- the failing run -----

  ghost predicate AllSound(cs: seq<Board>, turn: Turn, n: nat) {
    forall i :: 0 <= i < |cs| ==> Sound(cs[i], Other(turn), n)
  }

  ghost predicate AtMost(cs: seq<Board>, turn: Turn, n: nat, v: int) {
    forall i :: 0 <= i < |cs| ==> ValueFor(cs[i], turn, n) <= v
  }

  ghost predicate Above(cs: seq<Board>, turn: Turn, n: nat, v: int) {
    forall i :: 0 <= i < |cs| ==> ValueFor(cs[i], turn, n) > v
  }

  lemma SoundHead(cs: seq<Board>, turn: Turn, n: nat)
    requires AllSound(cs, turn, n) && cs != []
    ensures Sound(cs[0], Other(turn), n) && AllSound(cs[1..], turn, n)
  {
    hide Sound;
  }

  lemma AtMostHead(cs: seq<Board>, turn: Turn, n: nat, v: int)
    requires AtMost(cs, turn, n, v) && cs != []
    ensures ValueFor(cs[0], turn, n) <= v && AtMost(cs[1..], turn, n, v)
  {
    hide ValueFor;
  }

  lemma AboveHead(cs: seq<Board>, turn: Turn, n: nat, v: int)
    requires Above(cs, turn, n, v) && cs != []
    ensures ValueFor(cs[0], turn, n) > v && Above(cs[1..], turn, n, v)
  {
    hide ValueFor;
  }

  /** A result for a board that is searched rightly. */
  lemma BoundedResult(c: Board, turn: Turn, n: nat, alpha: int, beta: int) returns (e: int)
    requires Sound(c, Other(turn), n) && alpha < beta
    ensures Returns(c, Other(turn), n, alpha, beta, e)
    ensures Bounds(ValueFor(c, turn, n), Flip(turn, e), Lo(turn, alpha, beta), Hi(turn, alpha, beta))
  {
    hide Sound, Returns, Minimax, Bounds;
    e := SomeResult(c, Other(turn), n, alpha, beta);
    ReturnsBounds(c, Other(turn), n, alpha, beta, e);
    ChildBounds(c, turn, n, alpha, beta, e);
  }

  /** Boards that are worth no more than the lower end of the window leave it as it is. */
  lemma {:induction false} StaysLow(cs: seq<Board>, turn: Turn, n: nat, alpha: int, beta: int, best: int, r: int)
    requires AllSound(cs, turn, n) && AtMost(cs, turn, n, Lo(turn, alpha, beta)) && alpha < beta
    requires Flip(turn, r) == Lo(turn, alpha, beta) && (cs == [] ==> best == r)
    ensures Searches(cs, turn, n, alpha, beta, best, r)
    decreases |cs|
  {
    hide Searches, Returns, AllSound, AtMost, Sound, ValueFor;
    if cs == [] {
      NothingSearched(turn, n, alpha, beta, best, r);
    } else {
      SoundHead(cs, turn, n);
      AtMostHead(cs, turn, n, Lo(turn, alpha, beta));
      var e := BoundedResult(cs[0], turn, n, alpha, beta);
      NewWindow(turn, alpha, beta, e);
      StaysLow(cs[1..], turn, n, alpha, beta, r, r);
      Narrowed(cs, turn, n, alpha, beta, best, e, alpha, beta, r);
    }
  }

  /** A child that can tie does so, from the window that ends at the start value. */
  lemma TieReturns(c: Board, turn: Turn, n: nat, alpha: int, beta: int)
    requires CanTie(c, turn, n) && Sound(c, Other(turn), n) && Hi(turn, alpha, beta) == -PF_INF && alpha < beta
    ensures Returns(c, Other(turn), n, alpha, beta, Worst(turn))
  {
    hide Eval, Children, Sound, Searches;
    if n > 0 {
      var o := Other(turn);
      var cs := Children(c, o);
      SoundFrom(c, o, n);
      MinimaxIsBest(c, o, n - 1);
      forall i | 0 <= i < |cs| ensures ValueFor(cs[i], o, n - 1) <= PF_INF {
        MoreChildren(cs, i, o, n - 1);
      }
      hide Minimax;
      StaysLow(cs, o, n - 1, alpha, beta, Worst(o), Worst(turn));
    }
  }

  /** Worse boards only: the search ends below the start value. */
  lemma {:induction false} LostRun(cs: seq<Board>, turn: Turn, n: nat, lo0: int, alpha: int, beta: int, best: int) returns (r: int)
    requires AllSound(cs, turn, n) && Above(cs, turn, n, lo0) && AtMost(cs, turn, n, -PF_INF - 1)
    requires lo0 <= Lo(turn, alpha, beta) < Hi(turn, alpha, beta) == -PF_INF && alpha < beta
    requires cs == [] ==> Flip(turn, best) == Lo(turn, alpha, beta) > lo0
    ensures Searches(cs, turn, n, alpha, beta, best, r) && lo0 < Flip(turn, r) < -PF_INF
    decreases |cs|
  {
    hide Searches, Returns, AllSound, AtMost, Above, Sound, ValueFor;
    if cs == [] {
      r := best;
      NothingSearched(turn, n, alpha, beta, best, r);
    } else {
      SoundHead(cs, turn, n);
      AtMostHead(cs, turn, n, -PF_INF - 1);
      AboveHead(cs, turn, n, lo0);
      var e := BoundedResult(cs[0], turn, n, alpha, beta);
      NewWindow(turn, alpha, beta, e);
      var alpha', beta' := NewAlpha(turn, alpha, e), NewBeta(turn, beta, e);
      r := LostRun(cs[1..], turn, n, lo0, alpha', beta', NewBest(turn, alpha, beta, e));
      Narrowed(cs, turn, n, alpha, beta, best, e, alpha', beta', r);
    }
  }

  /** Ties that are skipped, then worse boards only. */
  lemma {:induction false} TiedRun(cs: seq<Board>, turn: Turn, n: nat, k: nat, lo0: int, alpha: int, beta: int) returns (r: int)
    requires AllSound(cs, turn, n) && Above(cs, turn, n, lo0) && k < |cs|
    requires (forall i :: 0 <= i < k ==> CanTie(cs[i], turn, n)) && forall i :: k <= i < |cs| ==> IsWorse(cs[i], turn, n)
    requires lo0 == Lo(turn, alpha, beta) < Hi(turn, alpha, beta) == -PF_INF && alpha < beta
    ensures Searches(cs, turn, n, alpha, beta, Worst(turn), r) && lo0 < Flip(turn, r) < -PF_INF
    decreases |cs|
  {
    hide Searches, Returns, AllSound, Above, Sound, CanTie;
    if k == 0 {
      WorseAtMost(cs, turn, n);
      r := LostRun(cs, turn, n, lo0, alpha, beta, Worst(turn));
    } else {
      hide IsWorse;
      SoundHead(cs, turn, n);
      AboveHead(cs, turn, n, lo0);
      r := TiedRun(cs[1..], turn, n, k - 1, lo0, alpha, beta);
      TieReturns(cs[0], turn, n, alpha, beta);
      FirstSearched(cs, turn, n, alpha, beta, Worst(turn), Worst(turn), r);
    }
  }

  lemma WorseAtMost(cs: seq<Board>, turn: Turn, n: nat)
    requires forall i :: 0 <= i < |cs| ==> IsWorse(cs[i], turn, n)
    ensures AtMost(cs, turn, n, -PF_INF - 1)
  {
    hide ValueFor;
  }

  lemma {:induction false} LowerBound(cs: seq<Board>, turn: Turn, n: nat) returns (l: int)
    ensures l < -PF_INF && Above(cs, turn, n, l)
    decreases |cs|
  {
    hide ValueFor;
    if cs == [] {
      l := -PF_INF - 1;
    } else {
      l := LowerBound(cs[1..], turn, n);
      l := Min(l, ValueFor(cs[0], turn, n) - 1);
      forall i | 0 <= i < |cs| ensures ValueFor(cs[i], turn, n) > l {
        assert i > 0 ==> cs[i] == cs[1..][i - 1];
      }
    }
  }

  // ----- exactly which boards -----

  /** Whatever the window and the coin, the value returned is right. */
  ghost predicate Correct(b: Board, turn: Turn, n: nat) {
    forall alpha, beta, r :: alpha < beta && Returns(b, turn, n, alpha, beta, r) ==> Bounds(Minimax(b, turn, n), r, alpha, beta)
  }

  /** So it is for every board in the tree of the search. */
  ghost predicate Reliable(b: Board, turn: Turn, n: nat)
    decreases n
  {
    Correct(b, turn, n) &&
    (n > 0 ==> forall i :: 0 <= i < |Children(b, turn)| ==> Reliable(Children(b, turn)[i], Other(turn), n - 1))
  }

  lemma SoundIsCorrect(b: Board, turn: Turn, n: nat)
    requires Sound(b, turn, n)
    ensures Correct(b, turn, n)
  {
    hide Sound, Returns, Bounds, Minimax;
    forall alpha, beta, r | alpha < beta && Returns(b, turn, n, alpha, beta, r)
      ensures Bounds(Minimax(b, turn, n), r, alpha, beta)
    {
      ReturnsBounds(b, turn, n, alpha, beta, r);
    }
  }

  /** Skipped ties followed by worse boards only: some window and coin return a wrong value. */
  lemma TieThenWorseFails(b: Board, turn: Turn, n: nat)
    requires AllSound(Children(b, turn), turn, n) && TieThenWorse(Children(b, turn), turn, n)
    ensures !Correct(b, turn, n + 1)
  {
    hide Children, AllSound, CanTie, IsWorse;
    var cs := Children(b, turn);
    var k :| TiesUpTo(cs, turn, n, k) && k < |cs|;
    var l := LowerBound(cs, turn, n);
    var alpha, beta := if turn == White then PF_INF else l, if turn == White then -l else -PF_INF;
    var r := TiedRun(cs, turn, n, k, l, alpha, beta);
    FirstValue(cs, turn, n, k);
    MoreChildren(cs, 0, turn, n);
    MinimaxIsBest(b, turn, n);
    hide Best, TiesUpTo, Above;
    var v := Minimax(b, turn, n + 1);
    assert Returns(b, turn, n + 1, alpha, beta, r) by { hide Searches; }
    hide Minimax, Returns, Searches;
    WrongValue(turn, v, r, alpha, beta);
  }

  lemma FirstValue(cs: seq<Board>, turn: Turn, n: nat, k: int)
    requires TiesUpTo(cs, turn, n, k)
    ensures cs != [] && ValueFor(cs[0], turn, n) >= -PF_INF
  {
    hide ValueFor;
  }

  lemma WrongValue(turn: Turn, v: int, r: int, alpha: int, beta: int)
    requires Lo(turn, alpha, beta) < Flip(turn, r) < Hi(turn, alpha, beta) == -PF_INF <= Flip(turn, v)
    ensures alpha < beta && !Bounds(v, r, alpha, beta)
  {}

  /** The search is right for every window, coin and board of its tree if and only if nowhere in the tree ties
      with the start value precede nothing but worse boards. */
  lemma {:induction false} SoundIff(b: Board, turn: Turn, n: nat)
    ensures Sound(b, turn, n) <==> Reliable(b, turn, n)
    decreases n
  {
    hide *;
    if n == 0 {
      SoundLeaf(b, turn);
      SoundIsCorrect(b, turn, n);
      ReliableFrom(b, turn, n);
    } else {
      var cs := Children(b, turn);
      forall i | 0 <= i < |cs| ensures Sound(cs[i], Other(turn), n - 1) <==> Reliable(cs[i], Other(turn), n - 1) {
        SoundIff(cs[i], Other(turn), n - 1);
      }
      SoundFrom(b, turn, n);
      ReliableFrom(b, turn, n);
      if Sound(b, turn, n) {
        SoundIsCorrect(b, turn, n);
      } else if Reliable(b, turn, n) {
        AllSoundFrom(cs, turn, n - 1);
        TieThenWorseFails(b, turn, n - 1);
      }
    }
  }

  lemma ReliableFrom(b: Board, turn: Turn, n: nat)
    ensures Reliable(b, turn, n) <==>
            Correct(b, turn, n) &&
            (n > 0 ==> forall i :: 0 <= i < |Children(b, turn)| ==> Reliable(Children(b, turn)[i], Other(turn), n - 1))
  {
    hide Children, Correct;
  }

  lemma AllSoundFrom(cs: seq<Board>, turn: Turn, n: nat)
    requires forall i :: 0 <= i < |cs| ==> Sound(cs[i], Other(turn), n)
    ensures AllSound(cs, turn, n)
  {
    hide Sound;
  }

  // ----- a board on which the search is wrong -----

  const NO_PIECES: Board := seq(176, i => Empty)

  /** Two kings, two white pieces, and a black piece with two moves. */
  const TWO_KINGS: Board := NO_PIECES[0 := King][3 := Black][4 := White][19 := White][148 := King]

  const FIRST: Board := NO_PIECES[0 := King][2 := Black][4 := White][19 := White][148 := King]
  const SECOND: Board := NO_PIECES[0 := King][1 := Black][4 := White][19 := White][148 := King]

  /** The board with the black piece at (x, 0). */
  ghost predicate BlackAt(b: Board, bx: int) {
    forall x, y :: At(b, x, y) ==
      if !InBoard(x, y) then Invalid
      else if x == 0 && y == 0 then King else if x == bx && y == 0 then Black
      else if (x == 4 && y == 0) || (x == 3 && y == 1) then White
      else if x == 4 && y == 9 then King else Empty
  }

  lemma Layouts()
    ensures BlackAt(TWO_KINGS, 3) && BlackAt(FIRST, 2) && BlackAt(SECOND, 1)
  {}

  /** Squares without pieces of the side to move have no moves. */
  lemma {:induction false} NoMoves(b: Board, turn: Turn, j: nat, k: nat)
    requires j <= k <= SQUARES && forall i :: j <= i < k ==> Color(At(b, Square(i).0, Square(i).1)) != turn
    ensures MovesFrom(b, turn, j) == MovesFrom(b, turn, k)
    decreases k - j
  {
    hide At, Square, Color, PieceMoves;
    if j < k {
      NoMoves(b, turn, j + 1, k);
    }
  }

  /** Squares without pieces are worth nothing. */
  lemma {:induction false} NoWorth(b: Board, turn: Turn, j: nat, k: nat)
    requires j <= k <= SQUARES && forall i :: j <= i < k ==> At(b, Square(i).0, Square(i).1) in {Empty, Invalid}
    ensures Worth(b, turn, k) == Worth(b, turn, j)
    decreases k
  {
    hide At, Square, NeighborSum;
    if j < k {
      NoWorth(b, turn, j, k - 1);
    }
  }

  lemma BlackMoves(dx: int, dy: int)
    requires BlackAt(TWO_KINGS, 3)
    ensures (dx == 2 || dx == 1) && dy == 0 ==> CanMove(TWO_KINGS, 3, 0, dx, dy)
    ensures (dx, dy) in {(0, 0), (4, 0), (3, -1), (3, 1)} ==> !CanMove(TWO_KINGS, 3, 0, dx, dy)
  {
    var b := TWO_KINGS;
    if (dx, dy) in {(0, 0), (4, 0), (3, -1), (3, 1)} {
      var d, n := DirectionTo(3, 0, dx, dy), Distance(3, 0, dx, dy);
      assert Ahead(b, 3, 0, d, n) != Empty;
    }
  }

  /** Nothing is captured when nothing is closed in. */
  lemma {:induction false} NothingTaken(moved: Board, dx: int, dy: int, k: nat)
    requires InBoard(dx, dy) && k <= |DIRECTIONS| && forall d :: !Captured(moved, dx, dy, d)
    ensures Captures(moved, dx, dy, k) == moved
  {
    if k > 0 {
      NothingTaken(moved, dx, dy, k - 1);
    }
  }

  lemma MovedTo(dx: int, after: Board)
    requires (dx == 2 && after == FIRST) || (dx == 1 && after == SECOND)
    requires BlackAt(after, dx)
    ensures Moved(TWO_KINGS, 3, 0, dx, 0) == after
  {
    assert Stepped(TWO_KINGS, 3, 0, dx, 0) == after;
    forall d ensures !Captured(after, dx, 0, d) {
      match d
      case Left =>
      case Right =>
      case Up =>
      case Down =>
    }
    NothingTaken(after, dx, 0, |DIRECTIONS|);
  }

  lemma SlideLeft()
    requires BlackAt(TWO_KINGS, 3)
    ensures Slide(TWO_KINGS, 3, 0, Left, 1) == [Moved(TWO_KINGS, 3, 0, 2, 0), Moved(TWO_KINGS, 3, 0, 1, 0)]
  {
    hide CanMove, Moved, Slide, BlackAt;
    BlackMoves(2, 0);
    BlackMoves(1, 0);
    BlackMoves(0, 0);
    SlideNext(TWO_KINGS, 3, 0, Left, 1);
    SlideNext(TWO_KINGS, 3, 0, Left, 2);
    SlideNext(TWO_KINGS, 3, 0, Left, 3);
  }

  lemma NoSlides()
    requires BlackAt(TWO_KINGS, 3)
    ensures Slide(TWO_KINGS, 3, 0, Right, 1) == Slide(TWO_KINGS, 3, 0, Up, 1) == Slide(TWO_KINGS, 3, 0, Down, 1) == []
  {
    hide CanMove, Moved, Slide, BlackAt;
    BlackMoves(4, 0);
    BlackMoves(3, -1);
    BlackMoves(3, 1);
    SlideNext(TWO_KINGS, 3, 0, Right, 1);
    SlideNext(TWO_KINGS, 3, 0, Up, 1);
    SlideNext(TWO_KINGS, 3, 0, Down, 1);
  }

  lemma OnePiece()
    requires BlackAt(TWO_KINGS, 3)
    ensures PieceMoves(TWO_KINGS, 3, 0, 0) == [Moved(TWO_KINGS, 3, 0, 2, 0), Moved(TWO_KINGS, 3, 0, 1, 0)]
  {
    hide Moved, Slide, BlackAt, PieceMoves;
    SlideLeft();
    NoSlides();
    PieceNext(TWO_KINGS, 3, 0, 0);
    PieceNext(TWO_KINGS, 3, 0, 1);
    PieceNext(TWO_KINGS, 3, 0, 2);
    PieceNext(TWO_KINGS, 3, 0, 3);
    PieceEnds(TWO_KINGS, 3, 0);
  }

  lemma OnlyBlack(k: nat)
    requires BlackAt(TWO_KINGS, 3) && k < SQUARES
    ensures Color(At(TWO_KINGS, Square(k).0, Square(k).1)) == Black <==> k == 3
  {}

  lemma TwoChildren()
    ensures Children(TWO_KINGS, Black) == [FIRST, SECOND]
  {
    Layouts();
    MovedTo(2, FIRST);
    MovedTo(1, SECOND);
    OnePiece();
    forall k: nat | k < SQUARES ensures Color(At(TWO_KINGS, Square(k).0, Square(k).1)) == Black <==> k == 3 {
      OnlyBlack(k);
    }
    hide BlackAt, At, Square, Color, PieceMoves, MovesFrom;
    NoMoves(TWO_KINGS, Black, 0, 3);
    MovesNext(TWO_KINGS, Black, 3, 0);
    NoMoves(TWO_KINGS, Black, 4, SQUARES);
    ChildrenAre(TWO_KINGS, Black);
    SquareAt(3, 0);
  }

  /** The squares of the pieces, and nothing on the others. */
  lemma Pieces(b: Board, bx: int, k: nat)
    requires BlackAt(b, bx) && 1 <= bx <= 2 && k < SQUARES
    ensures At(b, Square(k).0, Square(k).1) ==
            if k == 0 || k == 103 then King else if k == bx then Black else if k == 4 || k == 14 then White else Empty
  {}

  lemma PieceValues(b: Board, bx: int)
    requires BlackAt(b, bx) && 1 <= bx <= 2
    ensures SquareValue(b, White, 0, 0) == -30000 && SquareValue(b, White, bx, 0) == 3 + bx
    ensures SquareValue(b, White, 4, 0) == SquareValue(b, White, 3, 1) == -5
    ensures SquareValue(b, White, 4, 9) == -14995
  {
    Sums(b, bx, Black, bx, 0);
    Sums(b, bx, White, 4, 0);
    Sums(b, bx, White, 3, 1);
    Sums(b, bx, King, 4, 9);
    hide NeighborSum;
  }

  lemma Sums(b: Board, bx: int, cur: Item, x: int, y: int)
    requires BlackAt(b, bx) && 1 <= bx <= 2
    requires (cur, x, y) in {(Black, bx, 0), (White, 4, 0), (White, 3, 1), (King, 4, 9)}
    ensures NeighborSum(b, White, cur, x, y, |DIRECTIONS|) == if cur == Black then bx - 2 else 0
  {
    var s1, s2, s3 := NeighborSum(b, White, cur, x, y, 1), NeighborSum(b, White, cur, x, y, 2), NeighborSum(b, White, cur, x, y, 3);
    NoNeighbors(b, White, cur, x, y);
    NextNeighbor(b, White, cur, x, y, 0);
    NextNeighbor(b, White, cur, x, y, 1);
    NextNeighbor(b, White, cur, x, y, 2);
    NextNeighbor(b, White, cur, x, y, 3);
    hide NeighborSum;
  }

  lemma Worths(b: Board, bx: int)
    requires BlackAt(b, bx) && 1 <= bx <= 2
    ensures Eval(b, White) == -30002 + bx
  {
    forall k: nat | k < SQUARES
      ensures At(b, Square(k).0, Square(k).1) ==
              if k == 0 || k == 103 then King else if k == bx then Black else if k == 4 || k == 14 then White else Empty
    {
      Pieces(b, bx, k);
    }
    PieceValues(b, bx);
    hide BlackAt, At, SquareValue, Worth, Square;
    WorthStarts(b, White);
    WorthNext(b, White, 0, 0);
    NoWorth(b, White, 1, bx);
    WorthNext(b, White, bx, 0);
    NoWorth(b, White, bx + 1, 4);
    WorthNext(b, White, 4, 0);
    NoWorth(b, White, 5, 14);
    WorthNext(b, White, 3, 1);
    NoWorth(b, White, 15, 103);
    WorthNext(b, White, 4, 9);
    NoWorth(b, White, 104, SQUARES);
  }

  lemma ChildValues()
    ensures Minimax(FIRST, White, 0) == -30000 && Minimax(SECOND, White, 0) == -30001
    ensures Minimax(TWO_KINGS, Black, 1) == -30000
  {
    Layouts();
    Worths(FIRST, 2);
    Worths(SECOND, 1);
    TwoChildren();
    hide BlackAt, Eval, Children;
    var cs := [FIRST, SECOND];
    assert cs[..1] == [FIRST];
    assert Best([FIRST], Black, 0) == -30000;
    assert Best(cs, Black, 0) == -30000;
  }

  /** With two kings and a window that reaches below the infinities, the search may return a value that is
      neither the minimax value nor a bound: it skips the tie with the start value and then narrows the window
      to the worse move. */
  lemma AlphaBetaWrong(alpha: int, beta: int)
    requires alpha < -30001 && -30000 < beta
    ensures Returns(TWO_KINGS, Black, 1, alpha, beta, -30001) && !Bounds(Minimax(TWO_KINGS, Black, 1), -30001, alpha, beta)
  {
    TwoChildren();
    ChildValues();
    hide Eval, Children;
    var cs := [FIRST, SECOND];
    assert Returns(FIRST, White, 0, alpha, beta, -30000) && Returns(SECOND, White, 0, alpha, beta, -30001);
    assert cs[1..] == [SECOND] && [SECOND][1..] == [];
    hide Returns, Searches, Minimax;
    NothingSearched(Black, 0, -30001, beta, -30001, -30001);
    Narrowed([SECOND], Black, 0, alpha, beta, -30000, -30001, -30001, beta, -30001);
    FirstSearched(cs, Black, 0, alpha, beta, -30000, -30000, -30001);
    RootReturns(cs, alpha, beta);
  }

  lemma RootReturns(cs: seq<Board>, alpha: int, beta: int)
    requires Children(TWO_KINGS, Black) == cs && Searches(cs, Black, 0, alpha, beta, -30000, -30001)
    ensures Returns(TWO_KINGS, Black, 1, alpha, beta, -30001)
  {
    hide Children, Searches;
  }
}
