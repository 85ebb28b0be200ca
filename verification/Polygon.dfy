/** syscalls/jmicropolygon/classes: filling a polygon by cutting off triangles at its left-most point, and by
    splitting it where such a triangle would hold other points. */
module Polygon {
  import opened Triangles

  datatype Triangle = Triangle(a: Point, b: Point, c: Point)

  type Weight = (Point, Point) -> int

  // ----- sums over edges -----

  /** A weight of directed edges that changes sign with their direction. */
  ghost predicate Antisymmetric(w: Weight) {
    forall p, q :: w(p, q) == -w(q, p)
  }

  /** The weights along an open path. */
  ghost function Path(w: Weight, p: seq<Point>): int {
    if |p| < 2 then 0 else Path(w, p[..|p| - 1]) + w(p[|p| - 2], p[|p| - 1])
  }

  /** The weights around a polygon. */
  ghost function Cycle(w: Weight, p: seq<Point>): int
    requires |p| > 0
  {
    Path(w, p) + w(p[|p| - 1], p[0])
  }

  ghost function TriangleWeight(w: Weight, t: Triangle): int {
    w(t.a, t.b) + w(t.b, t.c) + w(t.c, t.a)
  }

  ghost function Total(w: Weight, ts: seq<Triangle>): int {
    if ts == [] then 0 else Total(w, ts[..|ts| - 1]) + TriangleWeight(w, ts[|ts| - 1])
  }

  /** Twice the signed area under an edge: the summand of the shoelace formula. */
  function Cross(p: Point, q: Point): int {
    p.x * q.y - q.x * p.y
  }

  lemma CrossAntisymmetric()
    ensures Antisymmetric(Cross)
  {
    forall p, q ensures Cross(p, q) == -Cross(q, p) {
      Commutes(p.x, q.y);
      Commutes(q.x, p.y);
    }
  }

  lemma Commutes(a: int, b: int)
    ensures a * b == b * a
  {}

  lemma {:induction false} PathJoin(w: Weight, p: seq<Point>, m: Point, q: seq<Point>)
    ensures Path(w, p + [m] + q) == Path(w, p + [m]) + Path(w, [m] + q)
    decreases |q|
  {
    if q == [] {
      assert p + [m] + q == p + [m];
      assert [m] + q == [m];
    } else {
      var front, last := q[..|q| - 1], q[|q| - 1];
      var all, tail := p + [m] + q, [m] + q;
      assert all[..|all| - 1] == p + [m] + front;
      assert tail[..|tail| - 1] == [m] + front;
      PathJoin(w, p, m, front);
    }
  }

  /** A path cut at an inner point. */
  lemma PathCut(w: Weight, p: seq<Point>, k: nat)
    requires k < |p|
    ensures Path(w, p) == Path(w, p[..k + 1]) + Path(w, p[k..])
  {
    assert p == p[..k] + [p[k]] + p[k + 1..];
    assert p[..k + 1] == p[..k] + [p[k]] && p[k..] == [p[k]] + p[k + 1..];
    hide Path;
    PathJoin(w, p[..k], p[k], p[k + 1..]);
  }

  lemma PathTwo(w: Weight, p: Point, q: Point)
    ensures Path(w, [p, q]) == w(p, q)
  {
    assert [p, q][..1] == [p];
  }

  // ----- cutting off an ear -----

  function Before(n: nat, a: nat): nat
    requires a < n
  {
    if a > 0 then a - 1 else n - 1
  }

  function Next(n: nat, a: nat): nat
    requires a < n
  {
    if a + 1 < n then a + 1 else 0
  }

  function Trimmed(p: seq<Point>, a: nat): seq<Point>
    requires a < |p|
  {
    p[..a] + p[a + 1..]
  }

  function Ear(p: seq<Point>, a: nat): Triangle
    requires a < |p|
  {
    Triangle(p[a], p[Next(|p|, a)], p[Before(|p|, a)])
  }

  /** The ear and what is left have the polygon's weight together. */
  lemma TrimConserves(w: Weight, p: seq<Point>, a: nat)
    requires Antisymmetric(w) && a < |p| && |p| >= 3
    ensures Cycle(w, p) == Cycle(w, Trimmed(p, a)) + TriangleWeight(w, Ear(p, a))
  {
    if a == 0 {
      PathCut(w, p, 1);
      PathTwo(w, p[0], p[1]);
      assert p[..2] == [p[0], p[1]];
      assert Trimmed(p, 0) == p[1..];
    } else if a == |p| - 1 {
      PathCut(w, p, a - 1);
      PathTwo(w, p[a - 1], p[a]);
      assert p[a - 1..] == [p[a - 1], p[a]];
      assert Trimmed(p, a) == p[..a];
    } else {
      TrimInside(w, p, a);
    }
    hide Path, Antisymmetric;
    Flips(w, p[Next(|p|, a)], p[Before(|p|, a)]);
  }

  lemma Flips(w: Weight, p: Point, q: Point)
    requires Antisymmetric(w)
    ensures w(p, q) == -w(q, p)
  {}

  lemma TrimInside(w: Weight, p: seq<Point>, a: nat)
    requires 0 < a < |p| - 1
    ensures Path(w, p) - Path(w, Trimmed(p, a)) == w(p[a - 1], p[a]) + w(p[a], p[a + 1]) - w(p[a - 1], p[a + 1])
  {
    var front, l, e, r, back := p[..a - 1], p[a - 1], p[a], p[a + 1], p[a + 2..];
    FromOn(p, a - 1);
    FromOn(p, a);
    FromOn(p, a + 1);
    TrimmedParts(p, a);
    hide *;
    PathJoin(w, front, l, [e] + ([r] + back));
    PathJoin(w, front, l, [r] + back);
    PathStart(w, l, e, [r] + back);
    PathStart(w, e, r, back);
    PathStart(w, l, r, back);
  }

  lemma FromOn(p: seq<Point>, k: nat)
    requires k < |p|
    ensures p[k..] == [p[k]] + p[k + 1..]
  {}

  lemma TrimmedParts(p: seq<Point>, a: nat)
    requires 0 < a < |p| - 1
    ensures p == p[..a - 1] + [p[a - 1]] + p[a..]
    ensures Trimmed(p, a) == p[..a - 1] + [p[a - 1]] + p[a + 1..]
  {
    assert p[..a] == p[..a - 1] + [p[a - 1]];
  }

  lemma PathStart(w: Weight, x: Point, y: Point, q: seq<Point>)
    ensures Path(w, [x] + ([y] + q)) == w(x, y) + Path(w, [y] + q)
  {
    assert [x] + ([y] + q) == [x] + [y] + q && [x] + [y] == [x, y];
    hide Path;
    PathJoin(w, [x], y, q);
    PathTwo(w, x, y);
  }

  // ----- splitting along a diagonal -----

  /** The points from `i` on, going around, `n` of them. */
  function Around(p: seq<Point>, i: nat, n: nat): seq<Point>
    requires i < |p| && n <= |p|
  {
    if i + n <= |p| then p[i..i + n] else p[i..] + p[..i + n - |p|]
  }

  function FirstLength(n: nat, a: nat, b: nat): nat
    requires a < n && b < n
  {
    if b < a then n - a + b + 1 else b - a + 1
  }

  /** A chord between points that are not neighbours cuts off at least three points on either side. */
  lemma SplitLengths(n: nat, a: nat, b: nat)
    requires a < n && b < n && b != a && b != Next(n, a) && b != Before(n, a)
    ensures 3 <= FirstLength(n, a, b) < n && 3 <= n - FirstLength(n, a, b) + 2 < n
  {}

  lemma SplitConserves(w: Weight, p: seq<Point>, a: nat, b: nat)
    requires Antisymmetric(w) && a < |p| && b < |p| && a != b && b != Next(|p|, a) && b != Before(|p|, a)
    ensures var n := FirstLength(|p|, a, b);
            3 <= n < |p| &&
            Cycle(w, p) == Cycle(w, Around(p, a, n)) + Cycle(w, Around(p, b, |p| - n + 2))
  {
    SplitLengths(|p|, a, b);
    if a < b {
      ChordConserves(w, p, a, b);
    } else {
      ChordConserves(w, p, b, a);
    }
    hide Cycle, Antisymmetric;
  }

  lemma ChordConserves(w: Weight, p: seq<Point>, i: nat, j: nat)
    requires Antisymmetric(w) && i < j < |p| && (j < |p| - 1 || i > 0)
    ensures var n := j - i + 1;
            Cycle(w, p) == Cycle(w, Around(p, i, n)) + Cycle(w, Around(p, j, |p| - n + 2))
  {
    var inner, tail, head := p[i..j + 1], p[j..], p[..i + 1];
    ThreeParts(w, p, i, j);
    OuterPath(w, tail, head);
    Flips(w, p[i], p[j]);
    AroundChord(p, i, j);
    CycleIs(w, inner);
    CycleIs(w, tail + head);
    CycleIs(w, p);
    hide *;
  }

  lemma CycleIs(w: Weight, p: seq<Point>)
    requires |p| > 0
    ensures Cycle(w, p) == Path(w, p) + w(p[|p| - 1], p[0])
  {}

  lemma ThreeParts(w: Weight, p: seq<Point>, i: nat, j: nat)
    requires i < j < |p|
    ensures Path(w, p) == Path(w, p[..i + 1]) + Path(w, p[i..j + 1]) + Path(w, p[j..])
  {
    PathCut(w, p, i);
    PathCut(w, p[i..], j - i);
    SlicesOf(p, i, j);
    hide *;
  }

  lemma SlicesOf(p: seq<Point>, i: nat, j: nat)
    requires i < j < |p|
    ensures p[i..][..j - i + 1] == p[i..j + 1] && p[i..][j - i..] == p[j..]
  {}

  lemma AroundChord(p: seq<Point>, i: nat, j: nat)
    requires i < j < |p| && (j < |p| - 1 || i > 0)
    ensures Around(p, i, j - i + 1) == p[i..j + 1]
    ensures Around(p, j, |p| - (j - i + 1) + 2) == p[j..] + p[..i + 1]
  {}

  /** Two paths joined by an edge. */
  lemma OuterPath(w: Weight, tail: seq<Point>, head: seq<Point>)
    requires tail != [] && head != []
    ensures Path(w, tail + head) == Path(w, tail) + w(tail[|tail| - 1], head[0]) + Path(w, head)
  {
    var front, l, f, back := tail[..|tail| - 1], tail[|tail| - 1], head[0], head[1..];
    assert tail == front + [l] && head == [f] + back;
    assert tail + head == front + [l] + ([f] + back);
    hide Path;
    PathJoin(w, front, l, [f] + back);
    PathStart(w, l, f, back);
  }

  // ----- what filling draws -----

  /** The triangles are cut from the polygon: as many as its points less two, all corners among its points,
      and for every weight of edges the triangles' sum is the polygon's. */
  ghost predicate Fills(ts: seq<Triangle>, p: seq<Point>) {
    if |p| < 3 then ts == []
    else
      |ts| == |p| - 2 &&
      (forall t :: t in ts ==> t.a in p && t.b in p && t.c in p) &&
      forall w :: Antisymmetric(w) ==> Total(w, ts) == Cycle(w, p)
  }

  lemma {:induction false} TotalJoin(w: Weight, s: seq<Triangle>, t: seq<Triangle>)
    ensures Total(w, s + t) == Total(w, s) + Total(w, t)
    decreases |t|
  {
    if t == [] {
      assert s + t == s;
    } else {
      var all := s + t;
      assert all[..|all| - 1] == s + t[..|t| - 1];
      TotalJoin(w, s, t[..|t| - 1]);
    }
  }

  /** The signed areas of the triangles add up to that of the polygon. */
  lemma FilledArea(ts: seq<Triangle>, p: seq<Point>)
    requires Fills(ts, p) && |p| >= 3
    ensures Total(Cross, ts) == Cycle(Cross, p)
  {
    CrossAntisymmetric();
    hide Total, Cycle, Antisymmetric;
  }

  /** Two points and back weigh nothing. */
  lemma TwoPoints(w: Weight, p: seq<Point>)
    requires Antisymmetric(w) && |p| == 2
    ensures Cycle(w, p) == 0
  {
    PathTwo(w, p[0], p[1]);
    assert p == [p[0], p[1]];
    Flips(w, p[0], p[1]);
    hide Path, Antisymmetric;
  }

  /** What is left to fill after an ear. */
  lemma FillsEar(p: seq<Point>, a: nat, ts: seq<Triangle>)
    requires |p| >= 3 && a < |p| && Fills(ts, Trimmed(p, a))
    ensures Fills([Ear(p, a)] + ts, p)
  {
    var q := Trimmed(p, a);
    forall w | Antisymmetric(w) ensures Total(w, [Ear(p, a)] + ts) == Cycle(w, p) {
      TrimConserves(w, p, a);
      TotalJoin(w, [Ear(p, a)], ts);
      TotalOne(w, Ear(p, a));
      if |q| == 2 {
        TwoPoints(w, q);
        TotalNone(w);
      }
      hide Total, Cycle, Antisymmetric, TriangleWeight;
    }
    hide Total, Cycle, Antisymmetric;
    assert forall x :: x in q ==> x in p;
  }

  lemma TotalOne(w: Weight, t: Triangle)
    ensures Total(w, [t]) == TriangleWeight(w, t)
  {
    assert [t][..0] == [];
  }

  lemma TotalNone(w: Weight)
    ensures Total(w, []) == 0
  {}

  /** What two pieces of a split polygon fill. */
  lemma FillsSplit(p: seq<Point>, a: nat, b: nat, ts1: seq<Triangle>, ts2: seq<Triangle>)
    requires a < |p| && b < |p| && a != b && b != Next(|p|, a) && b != Before(|p|, a)
    requires var n := FirstLength(|p|, a, b);
             3 <= n < |p| && Fills(ts1, Around(p, a, n)) && Fills(ts2, Around(p, b, |p| - n + 2))
    ensures Fills(ts1 + ts2, p)
  {
    var n := FirstLength(|p|, a, b);
    var first, second := Around(p, a, n), Around(p, b, |p| - n + 2);
    SplitLengths(|p|, a, b);
    forall w | Antisymmetric(w) ensures Total(w, ts1 + ts2) == Cycle(w, p) {
      SplitConserves(w, p, a, b);
      TotalJoin(w, ts1, ts2);
      hide Total, Cycle, Antisymmetric;
    }
    hide Total, Cycle, Antisymmetric;
    assert forall x :: x in first ==> x in p;
    assert forall x :: x in second ==> x in p;
  }

  // ----- where the cuts are made -----

  /** A test whether a point lies in a triangle. */
  type Test = (Point, Point, Point, Point) -> bool

  /** The first of the left-most points. */
  predicate IsLeftMost(p: seq<Point>, a: nat) {
    a < |p| && (forall i :: 0 <= i < |p| ==> p[a].x <= p[i].x) && forall i :: 0 <= i < a ==> p[a].x < p[i].x
  }

  /** A point that is no corner of the triangle at `a` lies in it. */
  predicate Inside(inside: Test, p: seq<Point>, a: nat, i: nat)
    requires a < |p|
  {
    i < |p| && i != a && i != Next(|p|, a) && i != Before(|p|, a) &&
    inside(p[i], p[a], p[Next(|p|, a)], p[Before(|p|, a)])
  }

  ghost predicate NoneInside(inside: Test, p: seq<Point>, a: nat)
    requires a < |p|
  {
    forall i: nat :: !Inside(inside, p, a, i)
  }

  /** The first of the left-most points in the triangle. */
  ghost predicate IsFirstInside(inside: Test, p: seq<Point>, a: nat, b: nat)
    requires a < |p|
  {
    Inside(inside, p, a, b) &&
    forall i: nat :: Inside(inside, p, a, i) ==> p[b].x <= p[i].x && (i < b ==> p[b].x < p[i].x)
  }

  /** How a polygon is to be cut: a triangle is drawn at a left-most point when no other point of the polygon lies in
      it, and the rest is cut likewise; otherwise the chord from there to a left-most point in the triangle makes two
      polygons, which are cut likewise. */
  ghost predicate CutWell(inside: Test, p: seq<Point>, ts: seq<Triangle>)
    decreases |p|, 2
  {
    if |p| < 3 then ts == []
    else exists a: nat :: IsLeftMost(p, a) && CutFrom(inside, p, ts, a)
  }

  ghost predicate CutFrom(inside: Test, p: seq<Point>, ts: seq<Triangle>, a: nat)
    requires |p| >= 3 && a < |p|
    decreases |p|, 1
  {
    if NoneInside(inside, p, a) then ts != [] && ts[0] == Ear(p, a) && CutWell(inside, Trimmed(p, a), ts[1..])
    else exists b: nat :: IsFirstInside(inside, p, a, b) && CutAt(inside, p, ts, a, b)
  }

  ghost predicate CutAt(inside: Test, p: seq<Point>, ts: seq<Triangle>, a: nat, b: nat)
    requires a < |p| && Inside(inside, p, a, b)
    decreases |p|, 0
  {
    var n := FirstLength(|p|, a, b);
    n - 2 <= |ts| &&
    CutWell(inside, Around(p, a, n), ts[..n - 2]) && CutWell(inside, Around(p, b, |p| - n + 2), ts[n - 2..])
  }

  lemma CutEar(inside: Test, p: seq<Point>, a: nat, rest: seq<Triangle>)
    requires |p| >= 3 && IsLeftMost(p, a) && NoneInside(inside, p, a) && CutWell(inside, Trimmed(p, a), rest)
    ensures CutWell(inside, p, [Ear(p, a)] + rest)
  {
    assert ([Ear(p, a)] + rest)[1..] == rest;
    assert CutFrom(inside, p, [Ear(p, a)] + rest, a);
    hide IsLeftMost, CutFrom;
  }

  lemma CutTwo(inside: Test, p: seq<Point>, a: nat, b: nat, ts1: seq<Triangle>, ts2: seq<Triangle>)
    requires |p| >= 3 && IsLeftMost(p, a) && IsFirstInside(inside, p, a, b)
    requires var n := FirstLength(|p|, a, b);
             3 <= n < |p| && |ts1| == n - 2 &&
             CutWell(inside, Around(p, a, n), ts1) && CutWell(inside, Around(p, b, |p| - n + 2), ts2)
    ensures CutWell(inside, p, ts1 + ts2)
  {
    TwoParts(ts1, ts2);
    assert CutAt(inside, p, ts1 + ts2, a, b);
    assert CutFrom(inside, p, ts1 + ts2, a) by {
      hide Inside, IsLeftMost, Around, FirstLength, CutAt;
    }
    hide IsLeftMost, CutFrom, CutAt;
  }

  lemma TwoParts(ts1: seq<Triangle>, ts2: seq<Triangle>)
    ensures (ts1 + ts2)[..|ts1|] == ts1 && (ts1 + ts2)[|ts1|..] == ts2
  {}

  /** However it is tested what lies inside, a polygon that is cut in this way is filled. */
  lemma {:induction false} CutWellFills(inside: Test, p: seq<Point>, ts: seq<Triangle>)
    requires CutWell(inside, p, ts)
    ensures Fills(ts, p)
    decreases |p|, 2
  {
    hide Fills, CutFrom;
    if |p| < 3 {
      NothingFills(p);
    } else {
      var a: nat :| IsLeftMost(p, a) && CutFrom(inside, p, ts, a);
      CutFromFills(inside, p, ts, a);
    }
  }

  lemma {:induction false} CutFromFills(inside: Test, p: seq<Point>, ts: seq<Triangle>, a: nat)
    requires |p| >= 3 && a < |p| && CutFrom(inside, p, ts, a)
    ensures Fills(ts, p)
    decreases |p|, 1
  {
    hide Fills, CutWell, CutAt, FirstLength;
    if NoneInside(inside, p, a) {
      CutWellFills(inside, Trimmed(p, a), ts[1..]);
      FillsEar(p, a, ts[1..]);
      assert ts == [ts[0]] + ts[1..];
    } else {
      var b: nat :| IsFirstInside(inside, p, a, b) && CutAt(inside, p, ts, a, b);
      CutAtFills(inside, p, ts, a, b);
    }
  }

  lemma {:induction false} CutAtFills(inside: Test, p: seq<Point>, ts: seq<Triangle>, a: nat, b: nat)
    requires a < |p| && Inside(inside, p, a, b) && CutAt(inside, p, ts, a, b)
    ensures Fills(ts, p)
    decreases |p|, 0
  {
    var n := FirstLength(|p|, a, b);
    ChordIs(inside, p, a, b);
    CutAtIs(inside, p, ts, a, b);
    hide *;
    CutWellFills(inside, Around(p, a, n), ts[..n - 2]);
    CutWellFills(inside, Around(p, b, |p| - n + 2), ts[n - 2..]);
    FillsSplit(p, a, b, ts[..n - 2], ts[n - 2..]);
    TwoHalves(ts, n - 2);
  }

  lemma ChordIs(inside: Test, p: seq<Point>, a: nat, b: nat)
    requires a < |p| && Inside(inside, p, a, b)
    ensures b < |p| && b != a && b != Next(|p|, a) && b != Before(|p|, a)
    ensures var n := FirstLength(|p|, a, b);
            3 <= n < |p| && |Around(p, a, n)| == n && |Around(p, b, |p| - n + 2)| == |p| - n + 2 < |p|
  {
    var n := FirstLength(|p|, a, b);
    SplitLengths(|p|, a, b);
    AroundOf(p, a, n);
    AroundOf(p, b, |p| - n + 2);
    hide Around, FirstLength;
  }

  lemma CutAtIs(inside: Test, p: seq<Point>, ts: seq<Triangle>, a: nat, b: nat)
    requires a < |p| && b < |p| && Inside(inside, p, a, b) && CutAt(inside, p, ts, a, b)
    requires var n := FirstLength(|p|, a, b); 3 <= n < |p|
    ensures var n := FirstLength(|p|, a, b);
            n - 2 <= |ts| && CutWell(inside, Around(p, a, n), ts[..n - 2]) &&
            CutWell(inside, Around(p, b, |p| - n + 2), ts[n - 2..])
  {
    hide CutWell, Around, FirstLength, Inside;
  }

  lemma TwoHalves(ts: seq<Triangle>, n: nat)
    requires n <= |ts|
    ensures ts == ts[..n] + ts[n..]
  {}

  lemma NothingFills(p: seq<Point>)
    requires |p| < 3
    ensures Fills([], p)
  {}

  /** There is one way to cut a polygon. */
  lemma {:induction false} CutWellUnique(inside: Test, p: seq<Point>, ts: seq<Triangle>, us: seq<Triangle>)
    requires CutWell(inside, p, ts) && CutWell(inside, p, us)
    ensures ts == us
    decreases |p|, 2
  {
    if |p| >= 3 {
      hide CutFrom;
      var a: nat :| IsLeftMost(p, a) && CutFrom(inside, p, ts, a);
      var a': nat :| IsLeftMost(p, a') && CutFrom(inside, p, us, a');
      LeastOnce(p, a, a');
      CutFromUnique(inside, p, ts, us, a);
    }
  }

  lemma {:induction false} CutFromUnique(inside: Test, p: seq<Point>, ts: seq<Triangle>, us: seq<Triangle>, a: nat)
    requires |p| >= 3 && a < |p| && CutFrom(inside, p, ts, a) && CutFrom(inside, p, us, a)
    ensures ts == us
    decreases |p|, 1
  {
    hide CutWell, CutAt, FirstLength;
    if NoneInside(inside, p, a) {
      CutWellUnique(inside, Trimmed(p, a), ts[1..], us[1..]);
      assert ts == [ts[0]] + ts[1..] && us == [us[0]] + us[1..];
    } else {
      var b: nat :| IsFirstInside(inside, p, a, b) && CutAt(inside, p, ts, a, b);
      var b': nat :| IsFirstInside(inside, p, a, b') && CutAt(inside, p, us, a, b');
      FirstOnce(inside, p, a, b, b');
      CutAtUnique(inside, p, ts, us, a, b);
    }
  }

  lemma {:induction false} CutAtUnique(inside: Test, p: seq<Point>, ts: seq<Triangle>, us: seq<Triangle>, a: nat, b: nat)
    requires a < |p| && Inside(inside, p, a, b) && CutAt(inside, p, ts, a, b) && CutAt(inside, p, us, a, b)
    ensures ts == us
    decreases |p|, 0
  {
    var n := FirstLength(|p|, a, b);
    ChordIs(inside, p, a, b);
    CutAtIs(inside, p, ts, a, b);
    CutAtIs(inside, p, us, a, b);
    hide *;
    CutWellUnique(inside, Around(p, a, n), ts[..n - 2], us[..n - 2]);
    CutWellUnique(inside, Around(p, b, |p| - n + 2), ts[n - 2..], us[n - 2..]);
    TwoHalves(ts, n - 2);
    TwoHalves(us, n - 2);
  }

  lemma LeastOnce(p: seq<Point>, a: nat, b: nat)
    requires IsLeftMost(p, a) && IsLeftMost(p, b)
    ensures a == b
  {
    assert p[a].x <= p[b].x && p[b].x <= p[a].x;
  }

  lemma FirstOnce(inside: Test, p: seq<Point>, a: nat, b: nat, c: nat)
    requires a < |p| && IsFirstInside(inside, p, a, b) && IsFirstInside(inside, p, a, c)
    ensures b == c
  {
    hide Inside;
  }

  /** The tests agree on the points of a polygon. */
  ghost predicate Agree(one: Test, other: Test, p: seq<Point>) {
    forall q, a, b, c :: q in p && a in p && b in p && c in p ==> one(q, a, b, c) == other(q, a, b, c)
  }

  lemma AgreeOn(one: Test, other: Test, p: seq<Point>, q: seq<Point>)
    requires Agree(one, other, p) && forall x :: x in q ==> x in p
    ensures Agree(one, other, q)
  {}

  lemma AgreeInside(one: Test, other: Test, p: seq<Point>, a: nat, i: nat)
    requires Agree(one, other, p) && a < |p|
    ensures Inside(one, p, a, i) == Inside(other, p, a, i)
  {}

  lemma AgreeFirst(one: Test, other: Test, p: seq<Point>, a: nat)
    requires Agree(one, other, p) && a < |p|
    ensures NoneInside(one, p, a) == NoneInside(other, p, a)
    ensures forall b: nat :: IsFirstInside(one, p, a, b) == IsFirstInside(other, p, a, b)
  {
    forall i: nat ensures Inside(one, p, a, i) == Inside(other, p, a, i) {
      AgreeInside(one, other, p, a, i);
    }
    hide Inside, Agree;
  }

  lemma {:induction false} SameCut(one: Test, other: Test, p: seq<Point>, ts: seq<Triangle>)
    requires Agree(one, other, p) && CutWell(one, p, ts)
    ensures CutWell(other, p, ts)
    decreases |p|, 2
  {
    if |p| >= 3 {
      hide CutFrom, Agree;
      var a: nat :| IsLeftMost(p, a) && CutFrom(one, p, ts, a);
      SameCutFrom(one, other, p, ts, a);
    }
  }

  lemma {:induction false} SameCutFrom(one: Test, other: Test, p: seq<Point>, ts: seq<Triangle>, a: nat)
    requires |p| >= 3 && a < |p| && Agree(one, other, p) && CutFrom(one, p, ts, a)
    ensures CutFrom(other, p, ts, a)
    decreases |p|, 1
  {
    AgreeFirst(one, other, p, a);
    hide Agree, CutWell, CutAt;
    if NoneInside(one, p, a) {
      TrimmedOf(p, a);
      AgreeOn(one, other, p, Trimmed(p, a));
      SameCut(one, other, Trimmed(p, a), ts[1..]);
    } else {
      var b: nat :| IsFirstInside(one, p, a, b) && CutAt(one, p, ts, a, b);
      SameCutAt(one, other, p, ts, a, b);
      assert IsFirstInside(other, p, a, b);
    }
  }

  lemma {:induction false} SameCutAt(one: Test, other: Test, p: seq<Point>, ts: seq<Triangle>, a: nat, b: nat)
    requires a < |p| && Inside(one, p, a, b) && CutAt(one, p, ts, a, b) && Agree(one, other, p)
    ensures Inside(other, p, a, b) && CutAt(other, p, ts, a, b)
    decreases |p|, 0
  {
    AgreeInside(one, other, p, a, b);
    var n := FirstLength(|p|, a, b);
    SplitLengths(|p|, a, b);
    AroundOf(p, a, n);
    AroundOf(p, b, |p| - n + 2);
    hide Agree, Around;
    AgreeOn(one, other, p, Around(p, a, n));
    AgreeOn(one, other, p, Around(p, b, |p| - n + 2));
    SameCut(one, other, Around(p, a, n), ts[..n - 2]);
    SameCut(one, other, Around(p, b, |p| - n + 2), ts[n - 2..]);
  }

  lemma TrimmedOf(p: seq<Point>, a: nat)
    requires a < |p|
    ensures forall x :: x in Trimmed(p, a) ==> x in p
  {}

  lemma AroundOf(p: seq<Point>, i: nat, n: nat)
    requires i < |p| && n <= |p|
    ensures |Around(p, i, n)| == n && forall x :: x in Around(p, i, n) ==> x in p
  {}

  /** The triangles between the points of a polygon have areas that are Java ints. */
  ghost predicate AllFit(p: seq<Point>) {
    forall a, b, c :: a in p && b in p && c in p ==> FitsInt(Area(a, b, c))
  }

  /** This holds of every polygon in a box of less than 2^31 pixels. */
  lemma BoxPolygon(p: seq<Point>, corner: Point, width: nat, height: nat)
    requires width * height < 0x8000_0000 && forall i :: 0 <= i < |p| ==> InBox(p[i], corner, width, height)
    ensures AllFit(p)
  {
    forall a, b, c | a in p && b in p && c in p ensures FitsInt(Area(a, b, c)) {
      BoxFits(a, b, c, corner, width, height);
    }
  }

  /** Where the areas fit, cutting by the test of the program is cutting by what the triangles hold. */
  lemma CutByGeometry(p: seq<Point>, ts: seq<Triangle>)
    requires AllFit(p) && CutWell(WithinBounds, p, ts)
    ensures CutWell(Holds, p, ts)
  {
    hide CutWell, WithinBounds, Holds, Area, FitsInt;
    forall q, a, b, c | q in p && a in p && b in p && c in p ensures WithinBounds(q, a, b, c) == Holds(q, a, b, c) {
      FitTogether(q, a, b, c);
      WithinBoundsIff(q, a, b, c);
    }
    SameCut(WithinBounds, Holds, p, ts);
  }

  lemma FitTogether(q: Point, a: Point, b: Point, c: Point)
    requires FitsInt(Area(a, b, c)) && FitsInt(Area(q, b, c)) && FitsInt(Area(q, c, a)) && FitsInt(Area(q, a, b))
    ensures AreasFit(q, a, b, c)
  {
    hide Area, FitsInt;
  }

  /** The polygon that two coordinate arrays stand for. */
  function Points(xs: seq<int>, ys: seq<int>): (p: seq<Point>)
    requires |xs| == |ys|
    ensures |p| == |xs|
  {
    seq(|xs|, i requires 0 <= i < |xs| => Point(xs[i], ys[i]))
  }

  method IndexOfLeast(elements: array<int>) returns (index: nat)
    requires elements.Length > 0
    ensures index < elements.Length
    ensures forall k :: 0 <= k < elements.Length ==> elements[index] <= elements[k]
    ensures forall k :: 0 <= k < index ==> elements[index] < elements[k]
  {
    index := 0;
    var least := elements[0];
    for i := 1 to elements.Length
      invariant index < i && least == elements[index]
      invariant forall k :: 0 <= k < i ==> least <= elements[k]
      invariant forall k :: 0 <= k < index ==> least < elements[k]
    {
      if elements[i] < least {
        index, least := i, elements[i];
      }
    }
  }

  method TrimEar(xs: array<int>, ys: array<int>, ear: nat) returns (newXs: array<int>, newYs: array<int>)
    requires xs.Length == ys.Length && ear < xs.Length
    ensures fresh(newXs) && fresh(newYs) && newXs.Length == newYs.Length == xs.Length - 1
    ensures Points(newXs[..], newYs[..]) == Trimmed(Points(xs[..], ys[..]), ear)
  {
    newXs := new int[xs.Length - 1];
    newYs := new int[ys.Length - 1];
    var p := 0;
    for i := 0 to xs.Length
      invariant p == if i <= ear then i else i - 1
      invariant forall k :: 0 <= k < p ==> newXs[k] == xs[if k < ear then k else k + 1]
      invariant forall k :: 0 <= k < p ==> newYs[k] == ys[if k < ear then k else k + 1]
    {
      if i != ear {
        newXs[p] := xs[i];
        newYs[p] := ys[i];
        p := p + 1;
      }
    }
  }

  /** One piece of `split`: the points from `from` on, going around. */
  method Piece(xs: array<int>, ys: array<int>, from: nat, n: nat) returns (newXs: array<int>, newYs: array<int>)
    requires xs.Length == ys.Length && from < xs.Length && n <= xs.Length
    ensures fresh(newXs) && fresh(newYs) && newXs.Length == newYs.Length == n
    ensures Points(newXs[..], newYs[..]) == Around(Points(xs[..], ys[..]), from, n)
  {
    newXs := new int[n];
    newYs := new int[n];
    for i := 0 to n
      invariant forall k :: 0 <= k < i ==> newXs[k] == xs[Turn(xs.Length, from, k)] && newYs[k] == ys[Turn(xs.Length, from, k)]
    {
      var index := (from + i) % xs.Length;
      TurnIs(xs.Length, from, i);
      newXs[i] := xs[index];
      newYs[i] := ys[index];
    }
    ghost var p, q := Points(xs[..], ys[..]), Points(newXs[..], newYs[..]);
    forall k | 0 <= k < n ensures q[k] == Around(p, from, n)[k] {
      assert q[k] == p[Turn(xs.Length, from, k)];
    }
  }

  function Turn(n: nat, from: nat, k: nat): nat
    requires from < n && k < n
  {
    if from + k < n then from + k else from + k - n
  }

  lemma TurnIs(n: nat, from: nat, k: nat)
    requires from < n && k < n
    ensures (from + k) % n == Turn(n, from, k)
  {
    if from + k >= n {
      ModBelow(from + k - n, n);
    } else {
      ModBelow(from + k, n);
    }
  }

  lemma ModBelow(x: nat, n: nat)
    requires x < n
    ensures x % n == x && (x + n) % n == x
  {}

  method Split(xs: array<int>, ys: array<int>, a: nat, b: nat) returns (x1: array<int>, y1: array<int>, x2: array<int>, y2: array<int>)
    requires xs.Length == ys.Length && a < xs.Length && b < xs.Length
    requires b != a && b != Next(xs.Length, a) && b != Before(xs.Length, a)
    ensures fresh(x1) && fresh(y1) && fresh(x2) && fresh(y2)
    ensures var p, n := Points(xs[..], ys[..]), FirstLength(xs.Length, a, b);
            3 <= n < xs.Length && x1.Length == y1.Length == n && x2.Length == y2.Length == xs.Length - n + 2 &&
            Points(x1[..], y1[..]) == Around(p, a, n) && Points(x2[..], y2[..]) == Around(p, b, |p| - n + 2)
  {
    SplitLengths(xs.Length, a, b);
    var firstLen := if b < a then (xs.Length - a) + b + 1 else (b - a) + 1;
    var secondLen := (xs.Length - firstLen) + 2;
    x1, y1 := Piece(xs, ys, a, firstLen);
    x2, y2 := Piece(xs, ys, b, secondLen);
  }

  // ----- fillPolygon -----

  /** The screen: the triangles drawn so far. */
  class Graphics {
    var drawn: seq<Triangle>

    constructor ()
      ensures drawn == []
    {
      drawn := [];
    }

    method FillTriangle(a: Point, b: Point, c: Point)
      modifies this
      ensures drawn == old(drawn) + [Triangle(a, b, c)]
    {
      drawn := drawn + [Triangle(a, b, c)];
    }
  }

  /** The left-most of the other points within the candidate triangle, -1 when there is none. */
  method LeastInternal(xs: array<int>, ys: array<int>, a: nat, b: nat, c: nat) returns (index: int)
    requires xs.Length == ys.Length && a < xs.Length && b < xs.Length && c < xs.Length
    ensures var p := Points(xs[..], ys[..]);
            if index == -1 then forall i :: 0 <= i < |p| ==> !Internal(p, i, a, b, c)
            else 0 <= index < |p| && Internal(p, index, a, b, c) &&
                 forall i :: 0 <= i < |p| && Internal(p, i, a, b, c) ==>
                   p[index].x <= p[i].x && (i < index ==> p[index].x < p[i].x)
  {
    ghost var p := Points(xs[..], ys[..]);
    index := -1;
    for i := 0 to xs.Length
      invariant -1 <= index < i
      invariant index == -1 ==> forall k :: 0 <= k < i ==> !Internal(p, k, a, b, c)
      invariant index != -1 ==> Internal(p, index, a, b, c) &&
                                forall k :: 0 <= k < i && Internal(p, k, a, b, c) ==>
                                  p[index].x <= p[k].x && (k < index ==> p[index].x < p[k].x)
    {
      hide WithinBounds;
      if i != a && i != b && i != c {
        if WithinBounds(Point(xs[i], ys[i]), Point(xs[a], ys[a]), Point(xs[b], ys[b]), Point(xs[c], ys[c])) {
          if index == -1 || xs[i] < xs[index] {
            index := i;
          }
        }
      }
    }
  }

  predicate Internal(p: seq<Point>, i: nat, a: nat, b: nat, c: nat)
    requires i < |p| && a < |p| && b < |p| && c < |p|
  {
    i != a && i != b && i != c && WithinBounds(p[i], p[a], p[b], p[c])
  }

  lemma InternalIs(p: seq<Point>, i: nat, a: nat)
    requires i < |p| && a < |p|
    ensures Internal(p, i, a, Next(|p|, a), Before(|p|, a)) == Inside(WithinBounds, p, a, i)
  {
    hide WithinBounds;
  }

  lemma FoundNone(p: seq<Point>, a: nat)
    requires a < |p|
    requires |p| > 3 ==> forall i :: 0 <= i < |p| ==> !Internal(p, i, a, Next(|p|, a), Before(|p|, a))
    ensures |p| >= 3 ==> NoneInside(WithinBounds, p, a)
  {
    forall i: nat | i < |p| && |p| > 3 ensures !Inside(WithinBounds, p, a, i) {
      InternalIs(p, i, a);
    }
    hide WithinBounds, Internal;
  }

  lemma FoundFirst(p: seq<Point>, a: nat, b: nat)
    requires a < |p| && b < |p| && Internal(p, b, a, Next(|p|, a), Before(|p|, a))
    requires forall i :: 0 <= i < |p| && Internal(p, i, a, Next(|p|, a), Before(|p|, a)) ==>
                           p[b].x <= p[i].x && (i < b ==> p[b].x < p[i].x)
    ensures IsFirstInside(WithinBounds, p, a, b)
  {
    forall i: nat | i < |p| ensures Inside(WithinBounds, p, a, i) == Internal(p, i, a, Next(|p|, a), Before(|p|, a)) {
      InternalIs(p, i, a);
    }
    assert forall i: nat :: Inside(WithinBounds, p, a, i) ==> i < |p|;
    hide WithinBounds, Internal, Inside;
  }

  lemma FoundLeftMost(xs: seq<int>, ys: seq<int>, a: nat)
    requires |xs| == |ys| && a < |xs| && (forall k :: 0 <= k < |xs| ==> xs[a] <= xs[k]) && forall k :: 0 <= k < a ==> xs[a] < xs[k]
    ensures IsLeftMost(Points(xs, ys), a)
  {}

  /** With the triangles `cuts`, however `p` is to be cut, the given polygon is. */
  ghost predicate CutBy(given: seq<Point>, cuts: seq<Triangle>, p: seq<Point>) {
    forall rest :: CutWell(WithinBounds, p, rest) ==> CutWell(WithinBounds, given, cuts + rest)
  }

  lemma CutByNone(p: seq<Point>)
    ensures CutBy(p, [], p)
  {
    hide CutWell;
    forall rest | CutWell(WithinBounds, p, rest) ensures CutWell(WithinBounds, p, [] + rest) {
      assert [] + rest == rest;
    }
  }

  lemma CutByEar(given: seq<Point>, cuts: seq<Triangle>, p: seq<Point>, a: nat)
    requires CutBy(given, cuts, p) && |p| >= 3 && IsLeftMost(p, a) && NoneInside(WithinBounds, p, a)
    ensures CutBy(given, cuts + [Ear(p, a)], Trimmed(p, a))
  {
    assert a < |p|;
    hide CutWell, Trimmed, Ear, IsLeftMost, NoneInside;
    var ear := Ear(p, a);
    forall rest | CutWell(WithinBounds, Trimmed(p, a), rest) ensures CutWell(WithinBounds, given, cuts + [ear] + rest) {
      CutEar(WithinBounds, p, a, rest);
      assert cuts + [ear] + rest == cuts + ([ear] + rest);
    }
  }

  lemma CutByDone(given: seq<Point>, cuts: seq<Triangle>, p: seq<Point>, ts: seq<Triangle>)
    requires CutBy(given, cuts, p) && CutWell(WithinBounds, p, ts)
    ensures CutWell(WithinBounds, given, cuts + ts)
  {
    hide CutWell;
  }

  lemma NothingLeft(given: seq<Point>, cuts: seq<Triangle>, p: seq<Point>)
    requires CutBy(given, cuts, p) && |p| < 3
    ensures CutWell(WithinBounds, given, cuts)
  {
    assert CutWell(WithinBounds, p, []);
    hide CutWell;
    assert cuts + [] == cuts;
  }

  /** What is drawn is cut well and fills the polygon. */
  lemma CutMeans(p: seq<Point>, ts: seq<Triangle>)
    requires CutWell(WithinBounds, p, ts)
    ensures Fills(ts, p) && (AllFit(p) ==> CutWell(Holds, p, ts))
  {
    CutWellFills(WithinBounds, p, ts);
    hide Fills, CutWell;
    if AllFit(p) {
      CutByGeometry(p, ts);
    }
  }

  lemma FillsLength(ts: seq<Triangle>, p: seq<Point>)
    requires Fills(ts, p) && |p| >= 3
    ensures |ts| == |p| - 2
  {}

  /** `fillPolygon` terminates and draws a triangulation of the polygon, cut at its left-most points. */
  method FillPolygon(g: Graphics, xPoints: array<int>, yPoints: array<int>) returns (ghost ts: seq<Triangle>)
    requires xPoints.Length == yPoints.Length
    modifies g
    ensures g.drawn == old(g.drawn) + ts
    ensures var p := Points(xPoints[..], yPoints[..]);
            CutWell(WithinBounds, p, ts) && (AllFit(p) ==> CutWell(Holds, p, ts)) && Fills(ts, p)
    decreases xPoints.Length
  {
    hide Fills, CutWell, CutBy, WithinBounds, Trimmed, Around, Points, Internal, IsLeftMost, NoneInside, IsFirstInside, AllFit;
    var xs, ys := xPoints, yPoints;
    ghost var given: seq<Point> := Points(xs[..], ys[..]);
    ts := [];
    CutByNone(given);
    while xs.Length > 2
      invariant xs.Length == ys.Length <= xPoints.Length
      invariant g.drawn == old(g.drawn) + ts
      invariant CutBy(given, ts, Points(xs[..], ys[..]))
      decreases xs.Length
    {
      var a := IndexOfLeast(xs);
      var b := if a + 1 < xs.Length then a + 1 else 0;
      var c := if a > 0 then a - 1 else xs.Length - 1;
      ghost var p := Points(xs[..], ys[..]);
      FoundLeftMost(xs[..], ys[..], a);
      var internal := -1;
      if xs.Length > 3 {
        internal := LeastInternal(xs, ys, a, b, c);
      }
      if internal == -1 {
        FoundNone(p, a);
        CutByEar(given, ts, p, a);
        EarIs(xs[..], ys[..], a);
        g.FillTriangle(Point(xs[a], ys[a]), Point(xs[b], ys[b]), Point(xs[c], ys[c]));
        ts := ts + [Ear(p, a)];
        xs, ys := TrimEar(xs, ys, a);
      } else {
        FoundFirst(p, a, internal);
        assert Internal(p, internal, a, b, c);
        InternalOther(p, internal, a, b, c);
        var x1, y1, x2, y2 := Split(xs, ys, a, internal);
        ghost var ts1 := FillPolygon(g, x1, y1);
        ghost var ts2 := FillPolygon(g, x2, y2);
        FillsLength(ts1, Points(x1[..], y1[..]));
        CutTwo(WithinBounds, p, a, internal, ts1, ts2);
        CutByDone(given, ts, p, ts1 + ts2);
        ts := ts + (ts1 + ts2);
        CutMeans(given, ts);
        return;
      }
    }
    NothingLeft(given, ts, Points(xs[..], ys[..]));
    CutMeans(given, ts);
  }

  lemma InternalOther(p: seq<Point>, i: nat, a: nat, b: nat, c: nat)
    requires i < |p| && a < |p| && b < |p| && c < |p| && Internal(p, i, a, b, c)
    ensures i != a && i != b && i != c
  {}

  lemma EarIs(xs: seq<int>, ys: seq<int>, a: nat)
    requires |xs| == |ys| && a < |xs|
    ensures var n := |xs|;
            Ear(Points(xs, ys), a) ==
            Triangle(Point(xs[a], ys[a]), Point(xs[Next(n, a)], ys[Next(n, a)]), Point(xs[Before(n, a)], ys[Before(n, a)]))
  {}
}
