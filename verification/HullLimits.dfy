/** The two conditions under which the answer is a hull: that they are needed, and that they can fail. */
module HullLimits {
  import opened HullGeometry
  import opened HullScan
  import opened Hull

  // --- vertices on both sides of the anchor -----------------------------------------------------------

  // The source always puts the anchor first. A hull that starts with the anchor leaves no room
  // for vertices on both sides of it in its row, so where Sided fails the answer cannot be right.
  lemma HullNeedsSided(pts: seq<Vertex>, h: seq<Vertex>, v0: Vertex)
    requires IsHull(h, pts) && IsAnchor(pts, v0) && h[0] == v0
    ensures OneSided(pts, v0)
  {
    var n := |h|;
    var a, z := Rel(v0, h[1]), Rel(v0, h[n - 1]);
    RelSelf(v0);
    assert Orientation(h[0], h[1], h[n - 1]) == -1;
    OrientationSign(v0, h[0], h[1], h[n - 1]);
    hide Orientation;
    forall p, q {:trigger p in pts, q in pts} | p in pts && q in pts
      ensures !(Rel(v0, p).y == 0 && Rel(v0, q).y == 0 && Rel(v0, p).x < 0 < Rel(v0, q).x)
    {
      assert Contains(h, p) && Contains(h, q);
      OrientationSign(v0, h[0], h[1], p);
      OrientationSign(v0, h[0], h[1], q);
      OrientationSign(v0, h[n - 1], h[0], p);
      OrientationSign(v0, h[n - 1], h[0], q);
      if Rel(v0, p).y == 0 && Rel(v0, q).y == 0 && Rel(v0, p).x < 0 < Rel(v0, q).x {
        NoRoom(a, z, Rel(v0, p), Rel(v0, q));
      }
    }
  }

  lemma NoRoom(a: Vec, z: Vec, p: Vec, q: Vec)
    requires p.y == 0 && q.y == 0 && p.x < 0 < q.x
    requires Turn(ORIGIN, a, p) >= 0 && Turn(ORIGIN, a, q) >= 0
    requires Turn(z, ORIGIN, p) >= 0 && Turn(z, ORIGIN, q) >= 0
    ensures Turn(ORIGIN, a, z) == 0
  {
    assert a.y * -p.x >= 0 && a.y * q.x <= 0;
    assert z.y * p.x >= 0 && z.y * q.x >= 0;
    Signs(a.y, -p.x);
    Signs(-a.y, q.x);
    Signs(-z.y, -p.x);
    Signs(z.y, q.x);
  }

  // Vertices for which it fails: two that the shift brings down beside the anchor.
  lemma NotAlwaysSided() returns (pts: seq<Vertex>)
    ensures |pts| == 4 && !Sided(pts)
  {
    hide *;
    var v0, p, q, r := Vertex(0, 0), Vertex(-0x2_0000, 1), Vertex(0x2_0000, 1), Vertex(0, 0x2_0000);
    NextTo(-1);
    NextTo(1);
    pts := [v0, p, q, r];
    LowestOfFour(pts, v0, p, q, r);
    BothSides(pts, v0, p, q);
  }

  lemma NextTo(x: int)
    requires -1 <= x <= 1
    ensures Rel(Vertex(0, 0), Vertex(x * 0x2_0000, 1)) == Vec(x, 0)
  {
  }

  lemma LowestOfFour(pts: seq<Vertex>, v0: Vertex, p: Vertex, q: Vertex, r: Vertex)
    requires pts == [v0, p, q, r] && v0.y < p.y && v0.y < q.y && v0.y < r.y
    ensures IsAnchor(pts, v0) && p in pts && q in pts
  {
    assert v0 == pts[0] && p == pts[1] && q == pts[2];
  }

  lemma BothSides(pts: seq<Vertex>, v0: Vertex, p: Vertex, q: Vertex)
    requires IsAnchor(pts, v0) && p in pts && q in pts
    requires Rel(v0, p).y == 0 && Rel(v0, q).y == 0 && Rel(v0, p).x < 0 < Rel(v0, q).x
    ensures !Sided(pts)
  {
    hide Rel;
    assert !OneSided(pts, v0);
  }

  // --- too many rays -----------------------------------------------------------------------------------

  // Up to eight vertices the condition always holds.
  lemma EightAreFew(pts: seq<Vertex>)
    requires |pts| <= 8
    ensures FewRays(pts)
  {
    hide Rel;
    hide Cross;
    forall v0: Vertex, s {:trigger Spread(v0, s)} |
      IsAnchor(pts, v0) && Spread(v0, s) && (forall p :: p in s ==> p in pts)
      ensures |s| < STACK
    {
      if |s| >= 2 {
        SpreadDiffers(v0, s);
        var all := [v0] + s;
        var js := seq(|all|, i requires 0 <= i < |all| => PlaceOf(pts, all[i]));
        Pigeons(js, |pts|);
      }
    }
  }

  function PlaceOf(pts: seq<Vertex>, p: Vertex): (k: nat)
    ensures p in pts ==> k < |pts| && pts[k] == p
  {
    if p !in pts || pts[0] == p then 0 else 1 + PlaceOf(pts[1..], p)
  }

  lemma SpreadDiffers(v0: Vertex, s: seq<Vertex>)
    requires Spread(v0, s) && |s| >= 2
    ensures v0 !in s && forall i, j {:trigger s[i], s[j]} :: 0 <= i < j < |s| ==> s[i] != s[j]
  {
    hide Rel;
    hide Cross;
    RelSelf(v0);
    forall i {:trigger s[i]} | 0 <= i < |s|
      ensures s[i] != v0
    {
      CrossOrigin(Rel(v0, s[if i == 0 then 1 else 0]));
      if i == 0 {
        assert Cross(Rel(v0, s[0]), Rel(v0, s[1])) != 0;
      } else {
        assert Cross(Rel(v0, s[0]), Rel(v0, s[i])) != 0;
      }
    }
    forall i, j {:trigger s[i], s[j]} | 0 <= i < j < |s|
      ensures s[i] != s[j]
    {
      CrossSwaps(Rel(v0, s[i]), Rel(v0, s[i]));
    }
  }

  // A vertex of the parabola y = x * x, where the shift still tells its neighbours apart.
  function OnParabola(x: int): Vertex
    requires -4 <= x <= 4
  {
    ParabolaFits(x);
    Vertex(x * 0x2_0000, x * x * 0x2_0000)
  }

  lemma ParabolaFits(x: int)
    requires -4 <= x <= 4
    ensures 0 <= x * x <= 16
  {
    ProductBound(x, x, 4);
    SquareNat(x);
  }

  lemma ParabolaRel(a: int, b: int)
    requires -4 <= a <= 4 && -4 <= b <= 4
    ensures Rel(OnParabola(a), OnParabola(b)) == Vec(b - a, b * b - a * a)
  {
    ParabolaFits(a);
    ParabolaFits(b);
  }

  lemma ParabolaTurn(a: int, b: int, c: int)
    requires -4 <= a <= 4 && -4 <= b <= 4 && -4 <= c <= 4
    ensures var o, t := Orientation(OnParabola(a), OnParabola(b), OnParabola(c)), (b - a) * (c - a) * (c - b);
            (o == -1 <==> t > 0) && (o == 0 <==> t == 0)
  {
    hide *;
    var v0, v1, v2 := OnParabola(a), OnParabola(b), OnParabola(c);
    OrientationSign(v0, v0, v1, v2);
    RelSelf(v0);
    OriginTurn(Rel(v0, v1), Rel(v0, v2));
    ParabolaCross(a, b, c);
  }

  lemma ParabolaCross(a: int, b: int, c: int)
    requires -4 <= a <= 4 && -4 <= b <= 4 && -4 <= c <= 4
    ensures Cross(Rel(OnParabola(a), OnParabola(b)), Rel(OnParabola(a), OnParabola(c)))
         == (b - a) * (c - a) * (c - b)
  {
    hide OnParabola;
    hide Rel;
    ParabolaRel(a, b);
    ParabolaRel(a, c);
    Vandermonde(a, b, c);
  }

  lemma Vandermonde(a: int, b: int, c: int)
    ensures (b - a) * (c * c - a * a) - (b * b - a * a) * (c - a) == (b - a) * (c - a) * (c - b)
  {
    assert c * c - a * a == (c - a) * (c + a) && b * b - a * a == (b - a) * (b + a);
    assert (b - a) * ((c - a) * (c + a)) == (b - a) * (c - a) * (c + a);
    assert (b - a) * (b + a) * (c - a) == (b - a) * (c - a) * (b + a);
  }

  function Parabola(): (pts: seq<Vertex>)
    ensures |pts| == 9 && forall i {:trigger pts[i]} :: 0 <= i < 9 ==> pts[i] == OnParabola(i - 4)
  {
    seq(9, i requires 0 <= i < 9 => OnParabola(i - 4))
  }

  // Vertices for which it fails: nine corners of a polygon that is its own hull, none of them
  // beside the lowest one. The stack overwrites the ninth before the scan gets to it.
  lemma NotAlwaysFew(pts: seq<Vertex>)
    requires pts == Parabola()
    ensures |pts| == 9 && Sided(pts) && IsHull(pts, pts) && !FewRays(pts)
  {
    hide OnParabola;
    hide Orientation;
    ParabolaSided(pts);
    ParabolaHull(pts);
    ParabolaRays(pts);
  }

  lemma ParabolaHull(pts: seq<Vertex>)
    requires pts == Parabola()
    ensures IsHull(pts, pts)
  {
    hide OnParabola;
    hide Orientation;
    forall i, j, k {:trigger pts[i], pts[j], pts[k]} | 0 <= i < j < k < 9
      ensures Orientation(pts[i], pts[j], pts[k]) == -1
    {
      ParabolaTurn(i - 4, j - 4, k - 4);
      Signs(j - i, k - i);
      Signs((j - i) * (k - i), k - j);
    }
    forall p {:trigger Contains(pts, p)} | p in pts
      ensures Contains(pts, p)
    {
      var x :| 0 <= x < 9 && pts[x] == p;
      ParabolaContains(pts, x);
    }
  }

  lemma ParabolaContains(pts: seq<Vertex>, x: nat)
    requires pts == Parabola() && x < 9
    ensures Contains(pts, pts[x])
  {
    hide OnParabola;
    hide Orientation;
    forall k {:trigger pts[k]} | 0 <= k < 8
      ensures Orientation(pts[k], pts[k + 1], pts[x]) <= 0
    {
      ParabolaTurn(k - 4, k - 3, x - 4);
      OrientationValues(pts[k], pts[k + 1], pts[x]);
      if x > k { Signs(x - k, x - k - 1); } else { Signs(k - x, k + 1 - x); }
    }
    ParabolaTurn(4, -4, x - 4);
    OrientationValues(pts[8], pts[0], pts[x]);
    Signs(8 - x, x);
  }

  lemma ParabolaAnchor(pts: seq<Vertex>, v0: Vertex)
    requires pts == Parabola()
    ensures IsAnchor(pts, v0) <==> v0 == pts[4]
  {
    forall i | 0 <= i < 9
      ensures pts[i].y >= 0 && (pts[i].y == 0 <==> i == 4)
    {
      ParabolaFits(i - 4);
      SquareNat(i - 4);
    }
    assert pts[4] in pts;
    if v0 in pts {
      var i :| 0 <= i < 9 && pts[i] == v0;
    }
  }

  lemma ParabolaSided(pts: seq<Vertex>)
    requires pts == Parabola()
    ensures Sided(pts)
  {
    forall v0 {:trigger OneSided(pts, v0)} | IsAnchor(pts, v0)
      ensures OneSided(pts, v0)
    {
      ParabolaAnchor(pts, v0);
      forall p {:trigger p in pts} | p in pts
        ensures Rel(v0, p).y == 0 ==> Rel(v0, p).x == 0
      {
        var i :| 0 <= i < 9 && pts[i] == p;
        ParabolaRel(0, i - 4);
        SquareNat(i - 4);
      }
    }
  }

  lemma ParabolaRays(pts: seq<Vertex>)
    requires pts == Parabola()
    ensures !FewRays(pts)
  {
    hide OnParabola;
    var v0, s := pts[4], pts[..4] + pts[5..];
    forall i, j {:trigger s[i], s[j]} | 0 <= i < j < |s|
      ensures Cross(Rel(v0, s[i]), Rel(v0, s[j])) != 0
    {
      var a, b := if i < 4 then i - 4 else i - 3, if j < 4 then j - 4 else j - 3;
      ParabolaRel(0, a);
      ParabolaRel(0, b);
      Vandermonde(0, a, b);
      NonZero(a, b, b - a);
    }
    ParabolaAnchor(pts, v0);
    assert Spread(v0, s);
    assert |s| == 8;
  }

  lemma NonZero(a: int, b: int, c: int)
    requires a != 0 && b != 0 && c != 0
    ensures a * b * c != 0
  {
    assert a * b != 0;
  }
}
