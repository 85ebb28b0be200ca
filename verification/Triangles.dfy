/** syscalls/jmicropolygon/classes/GeomUtils.java: which points lie in a triangle, by Java int arithmetic and by
    geometry. */
module Triangles {
  import opened Words

  datatype Point = Point(x: int, y: int)

  // ----- GeomUtils -----

  type JavaInt = n: int | -0x8000_0000 <= n < 0x8000_0000

  /** Java int arithmetic wraps. */
  function Int(n: int): JavaInt {
    Signed(Wrap(n))
  }

  function Min3(a: int, b: int, c: int): int {
    var ab := if a < b then a else b;
    if ab < c then ab else c
  }

  function Max3(a: int, b: int, c: int): int {
    var ab := if a > b then a else b;
    if ab > c then ab else c
  }

  /** `sameSide`: the int expressions wrap before they are widened, their product does not. */
  predicate SameSide(p1: Point, p2: Point, l1: Point, l2: Point) {
    var lhs := Int(Int(p1.x - l1.x) * Int(l2.y - l1.y) - Int(l2.x - l1.x) * Int(p1.y - l1.y));
    var rhs := Int(Int(p2.x - l1.x) * Int(l2.y - l1.y) - Int(l2.x - l1.x) * Int(p2.y - l1.y));
    lhs * rhs >= 0
  }

  predicate WithinBounds(p: Point, a: Point, b: Point, c: Point) {
    !(p.x < Min3(a.x, b.x, c.x) || p.x > Max3(a.x, b.x, c.x) || p.y < Min3(a.y, b.y, c.y) || p.y > Max3(a.y, b.y, c.y)) &&
    SameSide(p, a, b, c) && SameSide(p, b, a, c) && SameSide(p, c, a, b)
  }

  // ----- geometry -----

  /** `u + v + w` times `q` is the sum of the corners with these weights. */
  predicate Weighs(q: Point, a: Point, b: Point, c: Point, u: nat, v: nat, w: nat) {
    u + v + w > 0 &&
    (u + v + w) * q.x == u * a.x + v * b.x + w * c.x &&
    (u + v + w) * q.y == u * a.y + v * b.y + w * c.y
  }

  /** The point is a convex combination of the corners. */
  ghost predicate IsMixture(q: Point, a: Point, b: Point, c: Point) {
    exists u: nat, v: nat, w: nat :: Weighs(q, a, b, c, u, v, w)
  }

  predicate OnOneLine(a: Point, b: Point, c: Point) {
    (b.x - a.x) * (c.y - a.y) == (c.x - a.x) * (b.y - a.y)
  }

  /** The least rectangle with the corners holds the point. */
  predicate InRectangle(q: Point, a: Point, b: Point, c: Point) {
    (a.x <= q.x || b.x <= q.x || c.x <= q.x) && (q.x <= a.x || q.x <= b.x || q.x <= c.x) &&
    (a.y <= q.y || b.y <= q.y || c.y <= q.y) && (q.y <= a.y || q.y <= b.y || q.y <= c.y)
  }

  /** The points that a triangle holds; one whose corners lie on one line holds its whole rectangle. */
  ghost predicate Holds(q: Point, a: Point, b: Point, c: Point) {
    if OnOneLine(a, b, c) then InRectangle(q, a, b, c) else IsMixture(q, a, b, c)
  }

  /** Twice the signed area of a triangle. */
  function Area(a: Point, b: Point, c: Point): int {
    (b.x - a.x) * (c.y - a.y) - (c.x - a.x) * (b.y - a.y)
  }

  /** The areas of four points' triangles are Java ints. */
  predicate AreasFit(q: Point, a: Point, b: Point, c: Point) {
    FitsInt(Area(a, b, c)) && FitsInt(Area(q, b, c)) && FitsInt(Area(q, c, a)) && FitsInt(Area(q, a, b))
  }

  predicate FitsInt(n: int) {
    -0x8000_0000 <= n < 0x8000_0000 && -0x8000_0000 <= -n < 0x8000_0000
  }

  /** Where the areas are ints, the test finds exactly the points that the triangle holds. */
  lemma WithinBoundsIff(q: Point, a: Point, b: Point, c: Point)
    requires AreasFit(q, a, b, c)
    ensures WithinBounds(q, a, b, c) <==> Holds(q, a, b, c)
  {
    TestIs(q, a, b, c);
    HoldsIs(q, a, b, c);
    hide *;
    if Area(a, b, c) == 0 {
      FlatSides(Area(q, b, c), Area(q, c, a), Area(q, a, b));
    } else if WithinBounds(q, a, b, c) {
      SidesMix(q, a, b, c);
    } else if IsMixture(q, a, b, c) {
      MixturePasses(q, a, b, c);
    }
  }

  /** The three areas with a point have the sign of the triangle's, or are zero. */
  predicate Sides(al: int, be: int, ga: int, d: int) {
    al * d >= 0 && be * d >= 0 && ga * d >= 0
  }

  lemma FlatSides(al: int, be: int, ga: int)
    ensures Sides(al, be, ga, 0)
  {}

  lemma HoldsIs(q: Point, a: Point, b: Point, c: Point)
    ensures Holds(q, a, b, c) <==> if Area(a, b, c) == 0 then InRectangle(q, a, b, c) else IsMixture(q, a, b, c)
  {
    hide IsMixture, InRectangle;
  }

  // ----- the test -----

  lemma TestIs(q: Point, a: Point, b: Point, c: Point)
    requires AreasFit(q, a, b, c)
    ensures WithinBounds(q, a, b, c) <==>
            InRectangle(q, a, b, c) && Sides(Area(q, b, c), Area(q, c, a), Area(q, a, b), Area(a, b, c))
  {
    AreaTurns(b, q, c);
    AreaTurns(b, a, c);
    AreaTurns(a, q, c);
    AreaTurns(c, q, a);
    AreaTurns(a, q, b);
    AreaTurns(a, c, b);
    hide Area;
    SameSideIs(q, a, b, c);
    SameSideIs(q, b, a, c);
    SameSideIs(q, c, a, b);
    hide SameSide;
    BothFlip(Area(q, b, c), Area(a, b, c));
    BothFlip(Area(q, a, b), Area(a, b, c));
  }

  lemma BothFlip(m: int, n: int)
    ensures -m * -n == m * n
  {}

  /** Two corners swapped, or all three moved on. */
  lemma AreaTurns(a: Point, b: Point, c: Point)
    ensures Area(a, b, c) == -Area(b, a, c) && Area(a, b, c) == Area(b, c, a) == Area(c, a, b)
  {
    AreaIs(a, b, c);
    AreaIs(b, a, c);
    AreaIs(b, c, a);
    AreaIs(c, a, b);
  }

  lemma AreaIs(a: Point, b: Point, c: Point)
    ensures Area(a, b, c) == b.x * c.y - c.x * b.y + c.x * a.y - a.x * c.y + a.x * b.y - b.x * a.y
  {}

  lemma SameSideIs(p1: Point, p2: Point, l1: Point, l2: Point)
    requires FitsInt(Area(l1, p1, l2)) && FitsInt(Area(l1, p2, l2))
    ensures SameSide(p1, p2, l1, l2) <==> Area(l1, p1, l2) * Area(l1, p2, l2) >= 0
  {
    IntCross(p1.x - l1.x, l2.y - l1.y, l2.x - l1.x, p1.y - l1.y);
    IntCross(p2.x - l1.x, l2.y - l1.y, l2.x - l1.x, p2.y - l1.y);
    hide Int;
  }

  /** Only the final value has to fit: inner overflows cancel. */
  lemma IntCross(m: int, n: int, k: int, l: int)
    requires FitsInt(m * n - k * l)
    ensures Int(Int(m) * Int(n) - Int(k) * Int(l)) == m * n - k * l
  {
    var f, g, h, i := Laps(m), Laps(n), Laps(k), Laps(l);
    IntLaps(m);
    IntLaps(n);
    IntLaps(k);
    IntLaps(l);
    CrossLaps(Int(m), Int(n), Int(k), Int(l), f, g, h, i);
    var laps := Int(m) * g + f * Int(n) + 0x1_0000_0000 * f * g - (Int(k) * i + h * Int(l) + 0x1_0000_0000 * h * i);
    IntOf(Int(m) * Int(n) - Int(k) * Int(l), laps);
    hide Int, Laps;
  }

  function Laps(n: int): int {
    (n + 0x8000_0000) / 0x1_0000_0000
  }

  lemma IntLaps(n: int)
    ensures n == Int(n) + 0x1_0000_0000 * Laps(n)
  {}

  lemma IntOf(n: int, laps: int)
    requires FitsInt(n + 0x1_0000_0000 * laps)
    ensures Int(n) == n + 0x1_0000_0000 * laps
  {}

  lemma CrossLaps(m: int, n: int, k: int, l: int, f: int, g: int, h: int, i: int)
    ensures (m + 0x1_0000_0000 * f) * (n + 0x1_0000_0000 * g) - (k + 0x1_0000_0000 * h) * (l + 0x1_0000_0000 * i) ==
            m * n - k * l + 0x1_0000_0000 * (m * g + f * n + 0x1_0000_0000 * f * g - (k * i + h * l + 0x1_0000_0000 * h * i))
  {
    ProductLaps(m, n, f, g);
    ProductLaps(k, l, h, i);
  }

  lemma ProductLaps(m: int, n: int, f: int, g: int)
    ensures (m + 0x1_0000_0000 * f) * (n + 0x1_0000_0000 * g) == m * n + 0x1_0000_0000 * (m * g + f * n + 0x1_0000_0000 * f * g)
  {}

  // ----- areas and weights -----

  /** The areas with the point are weights for which it is a mixture of the corners. */
  lemma SidesMix(q: Point, a: Point, b: Point, c: Point)
    requires Area(a, b, c) != 0 && Sides(Area(q, b, c), Area(q, c, a), Area(q, a, b), Area(a, b, c))
    ensures IsMixture(q, a, b, c)
  {
    var d, u, v, w := Area(a, b, c), Area(q, b, c), Area(q, c, a), Area(q, a, b);
    AreasWeigh(q, a, b, c);
    SignOf(u, d);
    SignOf(v, d);
    SignOf(w, d);
    hide *;
    if d > 0 {
      MixtureBy(q, a, b, c, u, v, w);
    } else {
      Negated(u, v, w, q.x, a.x, b.x, c.x);
      Negated(u, v, w, q.y, a.y, b.y, c.y);
      MixtureBy(q, a, b, c, -u, -v, -w);
    }
  }

  lemma AreasWeigh(q: Point, a: Point, b: Point, c: Point)
    ensures var u, v, w := Area(q, b, c), Area(q, c, a), Area(q, a, b);
            u + v + w == Area(a, b, c) &&
            (u + v + w) * q.x == u * a.x + v * b.x + w * c.x && (u + v + w) * q.y == u * a.y + v * b.y + w * c.y
  {}

  lemma Negated(u: int, v: int, w: int, q: int, a: int, b: int, c: int)
    requires (u + v + w) * q == u * a + v * b + w * c
    ensures (-u + -v + -w) * q == -u * a + -v * b + -w * c
  {}

  lemma SignOf(n: int, d: int)
    requires n * d >= 0 && d != 0
    ensures if d > 0 then n >= 0 else n <= 0
  {}

  lemma MixtureBy(q: Point, a: Point, b: Point, c: Point, u: nat, v: nat, w: nat)
    requires u + v + w > 0
    requires (u + v + w) * q.x == u * a.x + v * b.x + w * c.x && (u + v + w) * q.y == u * a.y + v * b.y + w * c.y
    ensures IsMixture(q, a, b, c)
  {
    assert Weighs(q, a, b, c, u, v, w);
  }

  /** A mixture of the corners passes the test. */
  lemma MixturePasses(q: Point, a: Point, b: Point, c: Point)
    requires IsMixture(q, a, b, c)
    ensures InRectangle(q, a, b, c) && Sides(Area(q, b, c), Area(q, c, a), Area(q, a, b), Area(a, b, c))
  {
    var u: nat, v: nat, w: nat :| Weighs(q, a, b, c, u, v, w);
    Between(u, v, w, q.x, a.x, b.x, c.x);
    Between(u, v, w, q.y, a.y, b.y, c.y);
    WeighsTurned(q, a, b, c, u, v, w);
    WeighsTurned(q, b, c, a, v, w, u);
    hide Weighs;
    AreaWeighed(q, a, b, c, u, v, w);
    AreaWeighed(q, b, c, a, v, w, u);
    AreaWeighed(q, c, a, b, w, u, v);
    AreaTurns(a, b, c);
    hide Area;
    SameSign(u + v + w, Area(q, b, c), u, Area(a, b, c));
    SameSign(v + w + u, Area(q, c, a), v, Area(a, b, c));
    SameSign(w + u + v, Area(q, a, b), w, Area(a, b, c));
  }

  lemma Between(u: nat, v: nat, w: nat, q: int, a: int, b: int, c: int)
    requires u + v + w > 0 && (u + v + w) * q == u * a + v * b + w * c
    ensures (a <= q || b <= q || c <= q) && (q <= a || q <= b || q <= c)
  {
    Spread(u, v, w, q, a, b, c);
    if q < a && q < b && q < c {
      Positive(u, v, w, a - q, b - q, c - q);
    }
    if a < q && b < q && c < q {
      Positive(u, v, w, q - a, q - b, q - c);
      Spread2(u, v, w, q, a, b, c);
    }
  }

  lemma Spread(u: nat, v: nat, w: nat, q: int, a: int, b: int, c: int)
    requires (u + v + w) * q == u * a + v * b + w * c
    ensures u * (a - q) + v * (b - q) + w * (c - q) == 0
  {}

  lemma Spread2(u: nat, v: nat, w: nat, q: int, a: int, b: int, c: int)
    requires (u + v + w) * q == u * a + v * b + w * c
    ensures u * (q - a) + v * (q - b) + w * (q - c) == 0
  {}

  lemma Positive(u: nat, v: nat, w: nat, a: int, b: int, c: int)
    requires u + v + w > 0 && a > 0 && b > 0 && c > 0
    ensures u * a + v * b + w * c > 0
  {
    Product(u, a);
    Product(v, b);
    Product(w, c);
  }

  lemma Product(u: nat, a: int)
    requires a > 0
    ensures u * a >= u
  {}

  lemma WeighsTurned(q: Point, a: Point, b: Point, c: Point, u: nat, v: nat, w: nat)
    requires Weighs(q, a, b, c, u, v, w)
    ensures Weighs(q, b, c, a, v, w, u)
  {}

  /** The area with the point is that part of the triangle's that the opposite corner weighs. */
  lemma AreaWeighed(q: Point, a: Point, b: Point, c: Point, u: nat, v: nat, w: nat)
    requires Weighs(q, a, b, c, u, v, w)
    ensures (u + v + w) * Area(q, b, c) == u * Area(a, b, c)
  {
    var k, m, n := b.x * c.y - c.x * b.y, c.x - b.x, b.y - c.y;
    AreaOver(q, b, c);
    AreaOver(a, b, c);
    OnEdge(b, c);
    hide Area;
    Scaled(u + v + w, k, m, n, q.x, q.y);
    Scaled(u, k, m, n, a.x, a.y);
    Scaled(v, k, m, n, b.x, b.y);
    Scaled(w, k, m, n, c.x, c.y);
    Parts(u, v, w, a.x, b.x, c.x, n);
    Parts(u, v, w, a.y, b.y, c.y, m);
    Distributes(u, v, w, k);
  }

  /** The area as a function of the point opposite to an edge. */
  lemma AreaOver(a: Point, b: Point, c: Point)
    ensures Area(a, b, c) == b.x * c.y - c.x * b.y + (c.x - b.x) * a.y + (b.y - c.y) * a.x
  {}

  lemma OnEdge(b: Point, c: Point)
    ensures b.x * c.y - c.x * b.y + (c.x - b.x) * b.y + (b.y - c.y) * b.x == 0
    ensures b.x * c.y - c.x * b.y + (c.x - b.x) * c.y + (b.y - c.y) * c.x == 0
  {}

  lemma Scaled(s: int, k: int, m: int, n: int, x: int, y: int)
    ensures s * (k + m * y + n * x) == s * k + m * (s * y) + n * (s * x)
  {}

  lemma Distributes(u: int, v: int, w: int, k: int)
    ensures (u + v + w) * k == u * k + v * k + w * k
  {}

  lemma Parts(u: int, v: int, w: int, a: int, b: int, c: int, n: int)
    ensures n * (u * a + v * b + w * c) == n * (u * a) + n * (v * b) + n * (w * c)
  {}

  lemma SameSign(s: nat, n: int, u: nat, d: int)
    requires s > 0 && s * n == u * d
    ensures n * d >= 0
  {
    if n > 0 && d < 0 {
      Product(s, n);
      Product(u, -d);
    } else if n < 0 && d > 0 {
      Product(s, -n);
      Product(u, d);
    }
  }

  // ----- when the areas fit -----

  predicate InBox(q: Point, corner: Point, width: nat, height: nat) {
    corner.x <= q.x <= corner.x + width && corner.y <= q.y <= corner.y + height
  }

  /** Triangles in a box of less than 2^31 pixels have areas that fit. */
  lemma BoxFits(a: Point, b: Point, c: Point, corner: Point, width: nat, height: nat)
    requires InBox(a, corner, width, height) && InBox(b, corner, width, height) && InBox(c, corner, width, height)
    requires width * height < 0x8000_0000
    ensures FitsInt(Area(a, b, c))
  {
    AreaTurns(a, b, c);
    AreaAtMost(a, b, c, corner, width, height);
    AreaAtMost(b, a, c, corner, width, height);
    hide *;
  }

  lemma AreaAtMost(a: Point, b: Point, c: Point, corner: Point, width: nat, height: nat)
    requires InBox(a, corner, width, height) && InBox(b, corner, width, height) && InBox(c, corner, width, height)
    ensures Area(a, b, c) <= width * height
  {
    var k, l, m := b.y - c.y, c.y - a.y, a.y - b.y;
    AreaIs(a, b, c);
    hide Area;
    Shifted(a, b, c, corner.x);
    AtMost(a.x - corner.x, k, width);
    AtMost(b.x - corner.x, l, width);
    AtMost(c.x - corner.x, m, width);
    Rises(width, Up(k), Up(l), Up(m), height);
  }

  function Up(k: int): nat {
    if k > 0 then k else 0
  }

  lemma Shifted(a: Point, b: Point, c: Point, x: int)
    ensures b.x * c.y - c.x * b.y + c.x * a.y - a.x * c.y + a.x * b.y - b.x * a.y ==
            (a.x - x) * (b.y - c.y) + (b.x - x) * (c.y - a.y) + (c.x - x) * (a.y - b.y)
  {}

  lemma AtMost(x: int, k: int, width: nat)
    requires 0 <= x <= width
    ensures x * k <= width * Up(k)
  {
    if k > 0 {
      Larger(x, width, k);
    }
  }

  lemma Larger(x: nat, y: nat, k: nat)
    requires x <= y
    ensures x * k <= y * k
  {}

  lemma Rises(width: nat, k: nat, l: nat, m: nat, height: nat)
    requires k + l + m <= height
    ensures width * k + width * l + width * m <= width * height
  {}

  /** Where an area overflows, the test is wrong: the corner of a square is taken to lie in the half of the square on
      the other side of its diagonal. */
  lemma OverflowMisjudges()
    ensures var q, a, b, c := Point(65535, 65535), Point(0, 0), Point(65536, 0), Point(0, 65536);
            WithinBounds(q, a, b, c) && !Holds(q, a, b, c)
  {
    var q, a, b, c := Point(65535, 65535), Point(0, 0), Point(65536, 0), Point(0, 65536);
    CornerAccepted();
    HoldsIs(q, a, b, c);
    assert Area(a, b, c) == 0x1_0000_0000;
    hide Holds, WithinBounds, InRectangle, Area;
    forall u: nat, v: nat, w: nat ensures !Weighs(q, a, b, c, u, v, w) {
      BeyondDiagonal(u, v, w);
    }
    hide Weighs;
  }

  lemma CornerAccepted()
    ensures WithinBounds(Point(65535, 65535), Point(0, 0), Point(65536, 0), Point(0, 65536))
  {
    var q, a, b, c := Point(65535, 65535), Point(0, 0), Point(65536, 0), Point(0, 65536);
    AreaLost(q, a, b, c);
    AreaLost(q, b, a, c);
    AreaLost(q, c, a, b);
    hide SameSide;
  }

  /** When the area of a triangle is a multiple of 2^32, every point is on the same side. */
  lemma AreaLost(p1: Point, p2: Point, l1: Point, l2: Point)
    requires FitsInt(p2.x - l1.x) && FitsInt(l2.y - l1.y) && FitsInt(l2.x - l1.x) && FitsInt(p2.y - l1.y)
    requires Area(l1, p2, l2) % 0x1_0000_0000 == 0
    ensures SameSide(p1, p2, l1, l2)
  {
    IntSmall(p2.x - l1.x);
    IntSmall(l2.y - l1.y);
    IntSmall(l2.x - l1.x);
    IntSmall(p2.y - l1.y);
    assert Int(Area(l1, p2, l2)) == 0;
    hide Int;
  }

  lemma IntSmall(n: int)
    requires FitsInt(n)
    ensures Int(n) == n
  {}

  lemma BeyondDiagonal(u: nat, v: nat, w: nat)
    ensures !Weighs(Point(65535, 65535), Point(0, 0), Point(65536, 0), Point(0, 65536), u, v, w)
  {}
}
