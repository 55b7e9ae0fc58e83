/** Points, turns and the order by angle that the hull's sort and scan rest on. */
module HullGeometry {

  // C's int32_t, and a vertex of two.
  type Int32 = i: int | -0x8000_0000 <= i < 0x8000_0000
  datatype Vertex = Vertex(x: Int32, y: Int32)

  // C's arithmetic shift right by 17 is division rounded down.
  function Shifted(x: Int32): (s: int)
    ensures -16384 <= s <= 16383
  {
    x / 0x2_0000
  }

  // --- vectors -----------------------------------------------------------------------------

  datatype Vec = Vec(x: int, y: int)

  const ORIGIN := Vec(0, 0)

  function Cross(a: Vec, b: Vec): int {
    a.x * b.y - a.y * b.x
  }

  function Square(a: Vec): int {
    a.x * a.x + a.y * a.y
  }

  // Twice the signed area of a triangle: positive when a, b, c turn left.
  function Turn(a: Vec, b: Vec, c: Vec): int {
    Cross(a, b) + Cross(b, c) - Cross(a, c)
  }

  // A vertex as seen from v0, after the shift.
  function Rel(v0: Vertex, p: Vertex): Vec {
    Vec(Shifted(p.x) - Shifted(v0.x), Shifted(p.y) - Shifted(v0.y))
  }

  // --- the source's arithmetic ----------------------------------------------------------------

  function OrientationValue(p: Vertex, q: Vertex, r: Vertex): int {
    var px, py := Shifted(p.x), Shifted(p.y);
    var qx, qy := Shifted(q.x), Shifted(q.y);
    var rx, ry := Shifted(r.x), Shifted(r.y);
    (qy - py) * (rx - qx) - (qx - px) * (ry - qy)
  }

  function Orientation(p: Vertex, q: Vertex, r: Vertex): int {
    var val := OrientationValue(p, q, r);
    if val == 0 then 0 else if val > 0 then 1 else -1
  }

  function DistSq(p1: Vertex, p2: Vertex): int {
    var dx, dy := Shifted(p1.x) - Shifted(p2.x), Shifted(p1.y) - Shifted(p2.y);
    dx * dx + dy * dy
  }

  lemma ProductBound(a: int, b: int, m: int)
    requires -m <= a <= m && -m <= b <= m
    ensures -(m * m) <= a * b <= m * m
  {
    assert (m - a) * (m + b) >= 0 && (m + a) * (m - b) >= 0;
    assert (m - a) * (m - b) >= 0 && (m + a) * (m + b) >= 0;
  }

  // No product, difference or sum the two functions form leaves 32 bits, for any vertices: the
  // shift leaves 15 bits and a sign, and 2 * 32767^2 is just below 2^31.
  lemma ArithmeticFits(p: Vertex, q: Vertex, r: Vertex)
    ensures -0x8000_0000 <= OrientationValue(p, q, r) < 0x8000_0000
    ensures 0 <= DistSq(p, q) < 0x8000_0000
    ensures var a := (Shifted(q.y) - Shifted(p.y)) * (Shifted(r.x) - Shifted(q.x));
            var b := (Shifted(q.x) - Shifted(p.x)) * (Shifted(r.y) - Shifted(q.y));
            -0x8000_0000 <= a < 0x8000_0000 && -0x8000_0000 <= b < 0x8000_0000
  {
    ProductBound(Shifted(q.y) - Shifted(p.y), Shifted(r.x) - Shifted(q.x), 32767);
    ProductBound(Shifted(q.x) - Shifted(p.x), Shifted(r.y) - Shifted(q.y), 32767);
    var dx, dy := Shifted(p.x) - Shifted(q.x), Shifted(p.y) - Shifted(q.y);
    ProductBound(dx, dx, 32767);
    ProductBound(dy, dy, 32767);
    SquareNat(dx);
    SquareNat(dy);
  }

  lemma SquareNat(a: int)
    ensures a * a >= 0 && (a != 0 ==> a * a > 0)
  {
  }

  // The source's orientation is the turn, with the sign reversed, seen from anywhere.
  lemma OrientationIsTurn(v0: Vertex, p: Vertex, q: Vertex, r: Vertex)
    ensures OrientationValue(p, q, r) == -Turn(Rel(v0, p), Rel(v0, q), Rel(v0, r))
  {
    var ox, oy := Shifted(v0.x), Shifted(v0.y);
  }

  // --- the order by angle, then by distance ----------------------------------------------------

  predicate Lt(a: Vec, b: Vec) {
    Cross(a, b) > 0 || (Cross(a, b) == 0 && Square(a) < Square(b))
  }

  predicate Le(a: Vec, b: Vec) {
    !Lt(b, a)
  }

  function Dot(w: Vec, a: Vec): int {
    w.x * a.x + w.y * a.y
  }

  // In the open half plane in front of w, or at the origin.
  predicate Ahead(w: Vec, a: Vec) {
    a == ORIGIN || Dot(w, a) > 0
  }

  lemma CrossSwaps(a: Vec, b: Vec)
    ensures Cross(a, b) == -Cross(b, a) && Cross(a, a) == 0
  {
  }

  lemma Cyclic(w: Vec, a: Vec, b: Vec, c: Vec)
    ensures Cross(a, c) * Dot(w, b) == Cross(a, b) * Dot(w, c) + Cross(b, c) * Dot(w, a)
  {
  }

  lemma Signs(a: int, b: int)
    ensures b > 0 && a * b >= 0 ==> a >= 0
    ensures b > 0 && a * b > 0 ==> a > 0
    ensures b > 0 && a * b == 0 ==> a == 0
    ensures a >= 0 && b >= 0 ==> a * b >= 0
    ensures a > 0 && b > 0 ==> a * b > 0
  {
  }

  lemma SquareZero(a: Vec)
    ensures Square(a) >= 0 && (Square(a) == 0 <==> a == ORIGIN)
  {
    SquareNat(a.x);
    SquareNat(a.y);
  }

  // Turning on and on stays a left turn while everything is in front of w.
  lemma CrossTransitive(w: Vec, a: Vec, b: Vec, c: Vec)
    requires Ahead(w, a) && Ahead(w, b) && Ahead(w, c) && b != ORIGIN
    requires Cross(a, b) >= 0 && Cross(b, c) >= 0
    ensures Cross(a, c) >= 0
    ensures Cross(a, b) > 0 && c != ORIGIN ==> Cross(a, c) > 0
    ensures Cross(b, c) > 0 && a != ORIGIN ==> Cross(a, c) > 0
  {
    Cyclic(w, a, b, c);
    Signs(Cross(a, b), Dot(w, c));
    Signs(Cross(b, c), Dot(w, a));
    Signs(Cross(a, c), Dot(w, b));
  }

  // The order is total, and transitive in front of w: a strict order a sort may rely on.
  lemma LeTotal(a: Vec, b: Vec)
    ensures Le(a, b) || Le(b, a)
    ensures Le(a, b) <==> Cross(a, b) > 0 || (Cross(a, b) == 0 && Square(a) <= Square(b))
  {
    CrossSwaps(a, b);
  }

  lemma LeTransitive(w: Vec, a: Vec, b: Vec, c: Vec)
    requires Ahead(w, a) && Ahead(w, b) && Ahead(w, c) && Le(a, b) && Le(b, c)
    ensures Le(a, c)
  {
    hide Cross;
    hide Square;
    hide Dot;
    LeTotal(a, b);
    LeTotal(b, c);
    LeTotal(a, c);
    SquareZero(a);
    SquareZero(b);
    SquareZero(c);
    CrossOrigin(a);
    CrossOrigin(b);
    CrossOrigin(c);
    if a != ORIGIN && b != ORIGIN && c != ORIGIN {
      CrossTransitive(w, a, b, c);
    }
  }

  lemma CrossOrigin(a: Vec)
    ensures Cross(ORIGIN, a) == Cross(a, ORIGIN) == 0
  {
  }

  // --- identities for four points ------------------------------------------------------------------

  lemma Pluecker(a: Vec, b: Vec, c: Vec, d: Vec)
    ensures Cross(a, b) * Cross(c, d) - Cross(a, c) * Cross(b, d) + Cross(a, d) * Cross(b, c) == 0
  {
  }

  lemma TurnCyclic(a: Vec, b: Vec, c: Vec)
    ensures Turn(a, b, c) == Turn(b, c, a) == Turn(c, a, b) == -Turn(b, a, c)
  {
    CrossSwaps(a, b);
    CrossSwaps(b, c);
    CrossSwaps(a, c);
  }

  // Two left turns a, b, c and b, c, d make one at a, b, d and one at a, c, d.
  lemma TurnsJoin(a: Vec, b: Vec, c: Vec, d: Vec)
    ensures Turn(a, b, d) * Cross(b, c) == Cross(a, b) * Turn(b, c, d) + Cross(b, d) * Turn(a, b, c)
    ensures Turn(a, c, d) * Cross(b, c) == Cross(c, d) * Turn(a, b, c) + Cross(a, c) * Turn(b, c, d)
  {
    Pluecker(a, b, c, d);
  }

  // A vertex q that does not turn left between w and z hides behind the edge w, z, and so does
  // whatever lay behind w, q or behind q, z.
  lemma TurnsHide(w: Vec, q: Vec, z: Vec, p: Vec)
    ensures Turn(w, z, p) * Cross(w, q) == Cross(w, z) * Turn(w, q, p) - Cross(w, p) * Turn(w, q, z)
    ensures Turn(w, z, p) * Cross(q, z) == Cross(w, z) * Turn(q, z, p) - Cross(p, z) * Turn(w, q, z)
  {
    Pluecker(w, q, z, p);
    CrossSwaps(p, z);
    CrossSwaps(q, p);
  }

  // The nearer of two points on a ray in front of w.
  lemma Nearer(w: Vec, x: Vec, k: Vec)
    requires Ahead(w, x) && Ahead(w, k) && Cross(x, k) == 0 && Square(x) <= Square(k)
    ensures 0 <= Dot(w, x) <= Dot(w, k)
  {
    hide Cross;
    hide Square;
    hide Dot;
    var p, q := Dot(w, x), Dot(w, k);
    SquareZero(x);
    SquareZero(k);
    DotOrigin(w);
    if p > q {
      Proportional(w, x, k);
      Larger(Square(x), Square(k), p, q);
    }
  }

  lemma DotOrigin(w: Vec)
    ensures Dot(w, ORIGIN) == 0
  {
  }

  // Points on one ray have squares in the ratio of the squares of their heights.
  lemma Proportional(w: Vec, x: Vec, k: Vec)
    requires Cross(x, k) == 0
    ensures Square(x) * (Dot(w, k) * Dot(w, k)) == Square(k) * (Dot(w, x) * Dot(w, x))
  {
    var p, q := Dot(w, x), Dot(w, k);
    assert x.x * q - k.x * p == w.y * Cross(x, k);
    assert x.y * q - k.y * p == -w.x * Cross(x, k);
  }

  lemma Larger(sx: int, sk: int, p: int, q: int)
    requires sx * (q * q) == sk * (p * p) && p > q > 0 && sk > 0
    ensures sx > sk
  {
    assert p * p - q * q == (p - q) * (p + q);
    Signs(p - q, p + q);
    SquareNat(q);
    Signs(sk, p * p - q * q);
    assert (sx - sk) * (q * q) == sk * (p * p - q * q);
    Signs(sx - sk, q * q);
  }

  // A half plane through which the origin and k pass holds every point between them.
  lemma NearerInside(w: Vec, a: Vec, b: Vec, x: Vec, k: Vec)
    requires Ahead(w, x) && Ahead(w, k) && Cross(x, k) == 0 && Square(x) <= Square(k)
    requires Turn(a, b, ORIGIN) >= 0 && Turn(a, b, k) >= 0
    ensures Turn(a, b, x) >= 0
  {
    hide Cross;
    hide Square;
    hide Dot;
    hide Turn;
    Nearer(w, x, k);
    SquareZero(x);
    SquareZero(k);
    if k == ORIGIN {
      assert x == ORIGIN;
    } else {
      var e := Vec(b.x - a.x, b.y - a.y);
      TurnFromEdge(a, b, e, x);
      TurnFromEdge(a, b, e, k);
      TurnFromEdge(a, b, e, ORIGIN);
      CrossOrigin(e);
      Cyclic(w, e, k, x);
      CrossSwaps(x, k);
      Between(Cross(a, b), Cross(e, x), Cross(e, k), Dot(w, x), Dot(w, k));
    }
  }

  lemma TurnFromEdge(a: Vec, b: Vec, e: Vec, x: Vec)
    requires e == Vec(b.x - a.x, b.y - a.y)
    ensures Turn(a, b, x) == Cross(a, b) + Cross(e, x)
  {
  }

  lemma Between(n: int, ex: int, ek: int, p: int, q: int)
    requires n >= 0 && n + ek >= 0 && 0 <= p <= q && q > 0 && ex * q == ek * p
    ensures n + ex >= 0
  {
    assert (n + ex) * q == n * (q - p) + (n + ek) * p;
    Signs(n, q - p);
    Signs(n + ek, p);
    Signs(n + ex, q);
  }
}
