/** The convex hull of an array of vertices, in place: anchor, sort, filter and scan. */
module Hull {
  import opened HullGeometry
  import opened HullSort
  import opened HullScan

  // The stack starts here in the caller's array, whether or not the vertices end before it.
  const STACK: nat := 8

  // --- what a hull is -----------------------------------------------------------------------------

  // Any three vertices in order turn the same way.
  ghost predicate StrictlyConvex(h: seq<Vertex>) {
    forall i, j, k {:trigger h[i], h[j], h[k]} ::
      0 <= i < j < k < |h| ==> Orientation(h[i], h[j], h[k]) == -1
  }

  // No edge has p on its other side.
  ghost predicate Contains(h: seq<Vertex>, p: Vertex) {
    && (forall k {:trigger h[k]} :: 0 <= k < |h| - 1 ==> Orientation(h[k], h[k + 1], p) <= 0)
    && (|h| > 0 ==> Orientation(h[|h| - 1], h[0], p) <= 0)
  }

  ghost predicate IsHull(h: seq<Vertex>, pts: seq<Vertex>) {
    && |h| >= 3 && StrictlyConvex(h)
    && (forall k {:trigger h[k]} :: 0 <= k < |h| ==> h[k] in pts)
    && (forall p {:trigger Contains(h, p)} :: p in pts ==> Contains(h, p))
  }

  // Lowest, and leftmost among the lowest, before any shift.
  ghost predicate IsAnchor(pts: seq<Vertex>, v0: Vertex) {
    && v0 in pts
    && forall p {:trigger p in pts} :: p in pts ==> v0.y < p.y || (v0.y == p.y && v0.x <= p.x)
  }

  // The shift can bring other vertices down to the anchor's row; it must not put one on each side.
  ghost predicate OneSided(pts: seq<Vertex>, v0: Vertex) {
    forall p, q {:trigger p in pts, q in pts} :: p in pts && q in pts ==>
      !(Rel(v0, p).y == 0 && Rel(v0, q).y == 0 && Rel(v0, p).x < 0 < Rel(v0, q).x)
  }

  // --- from vertices to vectors --------------------------------------------------------------------

  function Rels(v0: Vertex, s: seq<Vertex>): (r: seq<Vec>)
    ensures |r| == |s| && forall i {:trigger r[i]} :: 0 <= i < |r| ==> r[i] == Rel(v0, s[i])
  {
    seq(|s|, i requires 0 <= i < |s| => Rel(v0, s[i]))
  }

  lemma OrientationSign(v0: Vertex, p: Vertex, q: Vertex, r: Vertex)
    ensures var t := Turn(Rel(v0, p), Rel(v0, q), Rel(v0, r));
      && (Orientation(p, q, r) == -1 <==> t > 0) && (Orientation(p, q, r) == 0 <==> t == 0)
      && (Orientation(p, q, r) == 1 <==> t < 0)
  {
    OrientationIsTurn(v0, p, q, r);
  }

  // Everything lies ahead of one vector, the same for all.
  lemma FrontOf(pts: seq<Vertex>, v0: Vertex) returns (w: Vec)
    requires IsAnchor(pts, v0) && OneSided(pts, v0)
    ensures AllAhead(v0, w, pts)
  {
    var left := exists p {:trigger p in pts} :: p in pts && Rel(v0, p).y == 0 && Rel(v0, p).x < 0;
    w := Vec(if left then -1 else 1, 32768);
    forall p {:trigger p in pts} | p in pts
      ensures Ahead(w, Rel(v0, p))
    {
      if left {
        var q :| q in pts && Rel(v0, q).y == 0 && Rel(v0, q).x < 0;
      }
    }
  }

  // --- the anchor ------------------------------------------------------------------------------------

  method FindAnchor(v: array<Vertex>, n: nat) returns (min: nat)
    requires 1 <= n <= v.Length
    ensures min < n && IsAnchor(v[..n], v[min])
  {
    var ymin, i := v[0].y, 1;
    min := 0;
    while i < n
      invariant 1 <= i <= n && min < i && ymin == v[min].y
      invariant forall k {:trigger v[k]} :: 0 <= k < i ==>
                  v[min].y < v[k].y || (v[min].y == v[k].y && v[min].x <= v[k].x)
    {
      if v[i].y < ymin || (v[i].y == ymin && v[i].x < v[min].x) {
        ymin := v[i].y;
        min := i;
      }
      i := i + 1;
    }
    assert v[min] == v[..n][min];
  }

  // --- the filter --------------------------------------------------------------------------------------

  lemma KeepNext(v0: Vertex, s: seq<Vertex>, r: seq<Vec>, i: nat)
    requires r == Rels(v0, s) && i < |s|
    ensures i + 1 < |s| ==> (Orientation(v0, s[i], s[i + 1]) == 0 <==> Cross(r[i], r[i + 1]) == 0)
  {
    if i + 1 < |s| {
      OrientationSign(v0, v0, s[i], s[i + 1]);
      assert Rel(v0, v0) == ORIGIN;
      CrossOrigin(r[i]);
      CrossOrigin(r[i + 1]);
    }
  }

  lemma KeepStarts(v0: Vertex, r: seq<Vec>)
    ensures Rels(v0, []) + Keep(r, 0) == Keep(r, 0)
  {
  }

  lemma KeepSkips(r: seq<Vec>, i: nat)
    requires i < |r|
    ensures i + 1 < |r| && Cross(r[i], r[i + 1]) == 0 ==> Keep(r, i) == Keep(r, i + 1)
  {
  }

  lemma KeepTakes(v0: Vertex, s: seq<Vertex>, r: seq<Vec>, i: nat, done: seq<Vertex>)
    requires r == Rels(v0, s) && i < |s| && !(i + 1 < |s| && Cross(r[i], r[i + 1]) == 0)
    ensures Rels(v0, done + [s[i]]) + Keep(r, i + 1) == Rels(v0, done) + Keep(r, i)
  {
    hide Cross;
    hide Rel;
    assert Rels(v0, done + [s[i]]) == Rels(v0, done) + [r[i]];
    assert Keep(r, i) == [r[i]] + Keep(r, i + 1);
  }

  lemma KeepEnds(r: seq<Vec>, a: seq<Vec>)
    ensures a + Keep(r, |r|) == a
  {
  }

  // Skip what v[0] sees on one ray with its successor.
  method LastOfRay(v: array<Vertex>, n: nat, i0: nat, ghost s: seq<Vertex>, ghost r: seq<Vec>) returns (i: nat)
    requires 1 <= i0 < n <= v.Length && |s| == n - 1 && r == Rels(v[0], s)
    requires forall k {:trigger v[k]} :: i0 <= k < n ==> v[k] == s[k - 1]
    ensures i0 <= i < n && Keep(r, i - 1) == Keep(r, i0 - 1)
    ensures !(i < n - 1 && Cross(r[i - 1], r[i]) == 0)
  {
    hide Orientation;
    hide Cross;
    hide Rel;
    hide Rels;
    hide Keep;
    i := i0;
    KeepNext(v[0], s, r, i - 1);
    while i < n - 1 && Orientation(v[0], v[i], v[i + 1]) == 0
      invariant i0 <= i < n && Keep(r, i - 1) == Keep(r, i0 - 1)
      invariant i < n - 1 ==> (Orientation(v[0], v[i], v[i + 1]) == 0 <==> Cross(r[i - 1], r[i]) == 0)
    {
      KeepSkips(r, i - 1);
      i := i + 1;
      KeepNext(v[0], s, r, i - 1);
    }
  }

  // Keeps, in place, the last of each run of vertices that v[0] sees on one ray.
  method Filter(v: array<Vertex>, n: nat, ghost r: seq<Vec>) returns (m: nat)
    requires 1 <= n <= v.Length && r == Rels(v[0], v[1..n])
    modifies v
    ensures 1 <= m <= n && v[0] == old(v[0])
    ensures Rels(v[0], v[1..m]) == Keep(r, 0)
    ensures forall k {:trigger v[k]} :: 1 <= k < m ==> v[k] in old(v[1..n])
  {
    hide Rels;
    hide Keep;
    hide Cross;
    hide Rel;
    ghost var v0, s := v[0], v[1..n];
    KeepStarts(v0, r);
    assert v[1..1] == [];
    m := 1;
    var i := 1;
    while i < n
      invariant 1 <= m <= i <= n && v[0] == v0
      invariant forall k {:trigger v[k]} :: i <= k < n ==> v[k] == s[k - 1]
      invariant Rels(v0, v[1..m]) + Keep(r, i - 1) == Keep(r, 0)
      invariant forall k {:trigger v[k]} :: 1 <= k < m ==> v[k] in s
    {
      i := LastOfRay(v, n, i, s, r);
      ghost var done := v[1..m];
      KeepTakes(v0, s, r, i - 1, done);
      assert s[i - 1] in s;
      v[m] := v[i];
      m := m + 1;
      i := i + 1;
      assert v[1..m] == done + [s[i - 2]];
    }
    KeepEnds(r, Rels(v0, v[1..m]));
  }

  // --- the scan ----------------------------------------------------------------------------------------

  lemma RelsTakes(v0: Vertex, s: seq<Vertex>, p: Vertex)
    ensures Rels(v0, s + [p]) == Rels(v0, s) + [Rel(v0, p)]
  {
    hide Rel;
  }

  lemma RelsDrops(v0: Vertex, s: seq<Vertex>)
    requires s != []
    ensures Rels(v0, s[..|s| - 1]) == Rels(v0, s)[..|s| - 1]
  {
    hide Rel;
  }

  lemma TopTurn(v0: Vertex, h: seq<Vertex>, p: Vertex, z: Vec)
    requires |h| >= 2 && z == Rel(v0, p)
    ensures Pop(Rels(v0, h), z)
         == if Orientation(h[|h| - 2], h[|h| - 1], p) >= 0 then Pop(Rels(v0, h[..|h| - 1]), z) else Rels(v0, h)
  {
    hide Rel;
    hide Turn;
    hide Pop;
    hide Orientation;
    PopOnce(Rels(v0, h), z);
    RelsDrops(v0, h);
    OrientationSign(v0, h[|h| - 2], h[|h| - 1], p);
    OrientationValues(h[|h| - 2], h[|h| - 1], p);
  }

  // Pop while the top two and v[i] do not turn the hull's way. Nothing in the source stops the
  // loop above the bottom of the stack; what is asked here is that two entries stay.
  method PopFor(v: array<Vertex>, m0: nat, i: nat, ghost t: seq<Vec>, ghost z: Vec) returns (m: nat)
    requires i < v.Length && STACK + m0 < v.Length && z == Rel(v[0], v[i])
    requires t == Rels(v[0], v[STACK..STACK + m0 + 1]) && |Pop(t, z)| >= 2
    ensures m == |Pop(t, z)| - 1 <= m0 && Rels(v[0], v[STACK..STACK + m + 1]) == Pop(t, z)
  {
    hide Orientation;
    hide Rel;
    hide Rels;
    hide Pop;
    m := m0;
    ghost var h := v[STACK..STACK + m0 + 1];
    TopTurn(v[0], h, v[i], z);
    while Orientation(v[STACK + m - 1], v[STACK + m], v[i]) >= 0
      invariant 1 <= m <= m0 && h == v[STACK..STACK + m + 1] && Pop(Rels(v[0], h), z) == Pop(t, z)
      invariant Pop(Rels(v[0], h), z)
             == if Orientation(h[m - 1], h[m], v[i]) >= 0 then Pop(Rels(v[0], h[..m]), z) else Rels(v[0], h)
      decreases m
    {
      h := h[..m];
      m := m - 1;
      TopTurn(v[0], h, v[i], z);
    }
  }

  // One vertex of the scan: pop for it, push it.
  method ScanOne(v: array<Vertex>, m0: nat, i: nat, ghost t: seq<Vec>, ghost z: Vec) returns (m: nat)
    requires i < v.Length && STACK + m0 + 1 < v.Length && z == Rel(v[0], v[i])
    requires t == Rels(v[0], v[STACK..STACK + m0 + 1]) && |Pop(t, z)| >= 2
    modifies v
    ensures 2 <= m <= m0 + 1 && v[STACK + m] == old(v[i])
    ensures forall k {:trigger v[k]} :: 0 <= k < STACK + m ==> v[k] == old(v[k])
    ensures Rels(v[0], v[STACK..STACK + m + 1]) == Pop(t, z) + [z]
  {
    hide Rel;
    hide Rels;
    hide Pop;
    ghost var v0 := v[0];
    m := PopFor(v, m0, i, t, z);
    ghost var h := v[STACK..STACK + m + 1];
    RelsTakes(v0, h, v[i]);
    m := m + 1;
    v[STACK + m] := v[i];
    assert v[STACK..STACK + m + 1] == h + [old(v[i])];
  }

  // What the scan knows before v[i]: up to v[8] that the stack is the hull of what it has seen,
  // from then on that it is being read back, around and around the chain c it had come to.
  ghost predicate Scanning(w: Vec, t: seq<Vec>, f: seq<Vec>, i: nat, c: seq<Vec>) {
    && i <= |f|
    && (i <= STACK ==> Scanned(t, f, i) && AllInFront(w, t))
    && (i >= STACK ==> Wound(t, c) && |t| == |c| + (i - STACK))
  }

  // The vector of v[i]: its own, or the stack's where the stack has overwritten it.
  lemma ScanStep(w: Vec, t: seq<Vec>, f: seq<Vec>, i: nat, c: seq<Vec>, z: Vec) returns (c': seq<Vec>)
    requires 3 <= i < |f| && f[0] == ORIGIN && Fan(f[1..]) && AllInFront(w, f) && Scanning(w, t, f, i, c)
    requires if i < STACK then z == f[i] else z == t[i - STACK]
    ensures |Pop(t, z)| >= 2 && Scanning(w, Pop(t, z) + [z], f, i + 1, c')
  {
    hide Turn;
    hide Chain;
    hide Fan;
    hide Scanned;
    hide Popping;
    hide Wound;
    hide Pop;
    hide Ahead;
    c' := c;
    if i < STACK {
      StartPop(t, f, i);
      PopKeeps(w, t, f, i);
      var u := Pop(t, z);
      PushStep(u, f, i);
      if i + 1 == STACK {
        c' := u + [z];
        ScannedChain(c', f, i + 1);
        StartsWound(c');
      }
    } else {
      WoundSize(t, c);
      WindsOn(t, c, z);
    }
  }

  lemma ScannedChain(t: seq<Vec>, f: seq<Vec>, i: nat)
    requires i <= |f| && Scanned(t, f, i)
    ensures Chain(t) && |t| >= 3
  {
  }

  lemma WoundSize(t: seq<Vec>, c: seq<Vec>)
    requires Wound(t, c)
    ensures 3 <= |c| <= |t| && (|t| > |c| ==> t[|c|] == t[0])
  {
    assert |t| > |c| ==> Again(t, |c|, |c|);
  }

  // The first three vertices go onto the stack as they are.
  method StartStack(v: array<Vertex>, n: nat, ghost w: Vec, ghost f: seq<Vec>)
    requires 3 <= n && STACK + n <= v.Length && f == Rels(v[0], v[..n])
    requires f[0] == ORIGIN && Fan(f[1..]) && AllInFront(w, f)
    modifies v
    ensures v[..STACK] == old(v[..STACK]) && v[STACK..STACK + 3] == old(v[..3])
    ensures Scanning(w, Rels(v[0], v[STACK..STACK + 3]), f, 3, [])
  {
    hide Rel;
    hide Scanned;
    hide Fan;
    hide Ahead;
    ghost var v0, pts := v[0], v[..n];
    v[STACK] := v[0];
    v[STACK + 1] := v[1];
    v[STACK + 2] := v[2];
    StartScan(f);
    assert v[STACK..STACK + 3] == pts[..3];
    assert Rels(v0, pts[..3]) == f[..3];
  }

  // One turn of the loop. From v[8] on the stack has overwritten what is read.
  method ScanTurn(v: array<Vertex>, m0: nat, i: nat, ghost w: Vec, ghost f: seq<Vec>, ghost c: seq<Vec>)
    returns (m: nat, ghost c': seq<Vec>)
    requires 3 <= i < |f| && 2 <= m0 < i && STACK + |f| <= v.Length
    requires f[0] == ORIGIN && Fan(f[1..]) && AllInFront(w, f) && (i < STACK ==> f[i] == Rel(v[0], v[i]))
    requires Scanning(w, Rels(v[0], v[STACK..STACK + m0 + 1]), f, i, c)
    modifies v
    ensures 2 <= m <= m0 + 1 && v[STACK + m] == old(v[i])
    ensures forall k {:trigger v[k]} :: 0 <= k < STACK + m ==> v[k] == old(v[k])
    ensures Scanning(w, Rels(v[0], v[STACK..STACK + m + 1]), f, i + 1, c')
  {
    hide Rel;
    hide Scanned;
    hide Fan;
    hide Ahead;
    hide Wound;
    hide Pop;
    hide AllInFront;
    ghost var t, z := Rels(v[0], v[STACK..STACK + m0 + 1]), Rel(v[0], v[i]);
    if i >= STACK {
      WoundSize(t, c);
      assert t[i - STACK] == z;
    }
    c' := ScanStep(w, t, f, i, c, z);
    m := ScanOne(v, m0, i, t, z);
  }

  method Scan(v: array<Vertex>, n: nat, ghost w: Vec, ghost f: seq<Vec>) returns (r: nat)
    requires 3 <= n && STACK + n <= v.Length && f == Rels(v[0], v[..n])
    requires f[0] == ORIGIN && Fan(f[1..]) && AllInFront(w, f)
    modifies v
    ensures 3 <= r <= n && v[..STACK] == old(v[..STACK]) && v[STACK] == v[0]
    ensures n <= STACK ==> forall k {:trigger v[k]} :: STACK <= k < STACK + r ==> v[k] in old(v[..n])
    ensures ScanLeaves(w, Rels(v[0], v[STACK..STACK + r]), f, n)
  {
    hide Rel;
    hide Rels;
    hide Scanning;
    hide ScanLeaves;
    hide Fan;
    hide AllInFront;
    ghost var v0, pts, c := v[0], v[..n], [];
    assert forall k {:trigger pts[k]} :: 0 <= k < n ==> f[k] == Rel(v0, pts[k]);
    StartStack(v, n, w, f);
    assert v[0] == v[..STACK][0] && v[STACK] == v[STACK..STACK + 3][0];
    assert forall k {:trigger v[k]} :: STACK <= k <= STACK + 2 ==> v[k] == v[STACK..STACK + 3][k - STACK];
    var m, i := 2, 3;
    while i < n
      invariant 3 <= i <= n && 2 <= m < i && v[STACK] == v0 == v[0]
      invariant v[..STACK] == old(v[..STACK])
      invariant i <= STACK ==> forall k {:trigger v[k]} :: STACK <= k <= STACK + m ==> v[k] in pts
      invariant Scanning(w, Rels(v0, v[STACK..STACK + m + 1]), f, i, c)
    {
      if i < STACK { assert v[i] == v[..STACK][i] == pts[i]; }
      m, c := ScanTurn(v, m, i, w, f, c);
      assert v[..STACK] == old(v[..STACK]);
      i := i + 1;
    }
    r := m + 1;
    ScanEnds(w, Rels(v0, v[STACK..STACK + r]), f, n, c);
  }

  // A hull of everything seen, or a stack that has come back to its first vertex.
  ghost predicate ScanLeaves(w: Vec, t: seq<Vec>, f: seq<Vec>, n: nat) {
    && n <= |f| && |t| >= 3
    && if n <= STACK then Scanned(t, f, n) && AllInFront(w, t) else exists l :: 3 <= l < |t| && t[l] == t[0]
  }

  lemma ScanEnds(w: Vec, t: seq<Vec>, f: seq<Vec>, n: nat, c: seq<Vec>)
    requires Scanning(w, t, f, n, c)
    ensures ScanLeaves(w, t, f, n)
  {
    if n > STACK { WoundSize(t, c); }
  }

  // --- the whole -----------------------------------------------------------------------------------------

  // Whichever vertex is the anchor, the shift puts none on each side of it.
  ghost predicate Sided(pts: seq<Vertex>) {
    forall v0 {:trigger OneSided(pts, v0)} :: IsAnchor(pts, v0) ==> OneSided(pts, v0)
  }

  lemma OrderedRels(v0: Vertex, w: Vec, s: seq<Vertex>)
    requires Ordered(v0, s) && AllAhead(v0, w, s)
    ensures Sorted(Rels(v0, s)) && AllInFront(w, Rels(v0, s))
  {
    hide Rel;
    hide Lt;
    hide Ahead;
    var r := Rels(v0, s);
    forall i, j {:trigger r[i], r[j]} | 0 <= i < j < |r|
      ensures Le(r[i], r[j])
    {
      assert InOrder(v0, s[i], s[j]);
    }
    forall i {:trigger r[i]} | 0 <= i < |r|
      ensures Ahead(w, r[i])
    {
      assert s[i] in s;
    }
  }

  // What the scan leaves is a hull of everything that went into the filter.
  lemma ScannedIsHull(pts: seq<Vertex>, v0: Vertex, w: Vec, s: seq<Vertex>, f: seq<Vec>, h: seq<Vertex>)
    requires AllAhead(v0, w, pts) && Sorted(Rels(v0, s)) && AllInFront(w, Rels(v0, s))
    requires forall p {:trigger p in pts} :: p in pts ==> p == v0 || p in s
    requires f == [ORIGIN] + Keep(Rels(v0, s), 0) && AllInFront(w, f)
    requires Scanned(Rels(v0, h), f, |f|) && AllInFront(w, Rels(v0, h)) && |h| >= 3 && |f| >= 3
    requires forall k {:trigger h[k]} :: 0 <= k < |h| ==> h[k] in pts
    ensures IsHull(h, pts)
  {
    hide Rel;
    hide Ahead;
    hide Turn;
    hide Keep;
    hide Orientation;
    hide AllInFront;
    hide Caught;
    ChainConvex(v0, h);
    forall p {:trigger Contains(h, p)} | p in pts
      ensures Contains(h, p)
    {
      PointInside(pts, v0, w, s, f, h, p);
    }
  }

  lemma ChainConvex(v0: Vertex, h: seq<Vertex>)
    requires Chain(Rels(v0, h))
    ensures StrictlyConvex(h)
  {
    hide Rel;
    hide Turn;
    hide Orientation;
    hide Fan;
    var t := Rels(v0, h);
    forall i, j, k {:trigger h[i], h[j], h[k]} | 0 <= i < j < k < |h|
      ensures Orientation(h[i], h[j], h[k]) == -1
    {
      assert Turn(t[i], t[j], t[k]) > 0;
      OrientationSign(v0, h[i], h[j], h[k]);
    }
  }

  lemma PointInside(pts: seq<Vertex>, v0: Vertex, w: Vec, s: seq<Vertex>, f: seq<Vec>, h: seq<Vertex>, p: Vertex)
    requires AllAhead(v0, w, pts) && Sorted(Rels(v0, s)) && AllInFront(w, Rels(v0, s))
    requires p in pts && (p == v0 || p in s)
    requires f == [ORIGIN] + Keep(Rels(v0, s), 0) && AllInFront(w, f)
    requires Scanned(Rels(v0, h), f, |f|) && AllInFront(w, Rels(v0, h)) && |h| >= 3 && |f| >= 3
    ensures Contains(h, p)
  {
    hide Rel;
    hide Turn;
    hide Keep;
    hide Orientation;
    hide Caught;
    hide Ahead;
    hide Chain;
    hide Under;
    var t, r := Rels(v0, h), Rels(v0, s);
    var x := 1;
    if p != v0 {
      var i :| 0 <= i < |s| && s[i] == p;
      var j := KeepCovers(w, r, 0, i);
      x := j + 1;
      assert f[x] == Keep(r, 0)[j] && Under(Rel(v0, p), f[x]);
    } else {
      RelSelf(v0);
      OriginUnder(f[1]);
    }
    CaughtInside(w, t, f[x]);
    UnderInside(w, t, Rel(v0, p), f[x]);
    InsideContains(v0, h, p);
  }

  lemma RelSelf(v0: Vertex)
    ensures Rel(v0, v0) == ORIGIN
  {
  }

  lemma OriginUnder(k: Vec)
    ensures Under(ORIGIN, k)
  {
    CrossOrigin(k);
    SquareZero(k);
    SquareZero(ORIGIN);
  }

  lemma InsideContains(v0: Vertex, h: seq<Vertex>, p: Vertex)
    requires Inside(Rels(v0, h), Rel(v0, p))
    ensures Contains(h, p)
  {
    hide Rel;
    hide Turn;
    hide Orientation;
    var t := Rels(v0, h);
    forall k {:trigger h[k]} | 0 <= k < |h| - 1
      ensures Orientation(h[k], h[k + 1], p) <= 0
    {
      assert Turn(t[k], t[k + 1], Rel(v0, p)) >= 0;
      OrientationSign(v0, h[k], h[k + 1], p);
      OrientationValues(h[k], h[k + 1], p);
    }
    if h != [] {
      OrientationSign(v0, h[|h| - 1], h[0], p);
      OrientationValues(h[|h| - 1], h[0], p);
    }
  }

  lemma OrientationValues(p: Vertex, q: Vertex, r: Vertex)
    ensures Orientation(p, q, r) == 0 || Orientation(p, q, r) == 1 || Orientation(p, q, r) == -1
  {
  }

  // The vertices after the anchor and the sort: the anchor, then everything else in order.
  lemma SortedTail(pts: seq<Vertex>, a: seq<Vertex>, b: seq<Vertex>, c: seq<Vertex>, n: nat, v0: Vertex, w: Vec)
    requires 1 <= n <= |a| && pts == a[..n] && AllAhead(v0, w, pts)
    requires Rearranged(a, b, 0, n) && b[0] == v0 && Rearranged(b, c, 1, n)
    requires AllAhead(v0, w, b[1..n]) ==> Ordered(v0, c[1..n])
    ensures c[0] == v0 && Sorted(Rels(v0, c[1..n])) && AllInFront(w, Rels(v0, c[1..n]))
    ensures multiset(c[..n]) == multiset(pts)
    ensures forall p {:trigger p in pts} :: p in pts ==> p == v0 || p in c[1..n]
    ensures forall p {:trigger p in c[1..n]} :: p in c[1..n] ==> p in pts
  {
    hide Ahead;
    hide Rel;
    assert a[0..n] == pts;
    AheadKept(v0, w, a, b, 0, n);
    AheadPart(v0, w, b, 0, n, 1, n);
    AheadKept(v0, w, b, c, 1, n);
    OrderedRels(v0, w, c[1..n]);
    assert c[0] == c[..1][0] == b[..1][0];
    RearrangedWider(b, c, 1, n, 0, n);
    RearrangedTwice(a, b, c, 0, n);
    assert c[0..n] == c[..n];
    assert c[..n] == [v0] + c[1..n];
    forall p {:trigger p in pts} | p in pts
      ensures p == v0 || p in c[1..n]
    {
      assert p in multiset(c[..n]);
    }
    forall p {:trigger p in c[1..n]} | p in c[1..n]
      ensures p in pts
    {
      assert p in multiset(c[..n]);
    }
  }

  // The anchor to the front, then the rest sorted.
  method AnchorAndSort(v: array<Vertex>, n: nat) returns (ghost w: Vec)
    requires 1 <= n <= v.Length && Sided(v[..n])
    modifies v
    ensures IsAnchor(old(v[..n]), v[0]) && AllAhead(v[0], w, old(v[..n]))
    ensures multiset(v[..n]) == multiset(old(v[..n]))
    ensures Sorted(Rels(v[0], v[1..n])) && AllInFront(w, Rels(v[0], v[1..n]))
    ensures forall p {:trigger p in old(v[..n])} :: p in old(v[..n]) ==> p == v[0] || p in v[1..n]
    ensures forall p {:trigger p in v[1..n]} :: p in v[1..n] ==> p in old(v[..n])
  {
    hide Rels;
    hide Ordered;
    hide Rel;
    hide Sorted;
    hide Rearranged;
    hide AllInFront;
    ghost var pts, a := v[..n], v[..];
    var min := FindAnchor(v, n);
    ghost var v0 := v[min];
    w := FrontOf(pts, v0);
    Swap(v, 0, min);
    ghost var b := v[..];
    SwapRearranges(a, b, 0, n, 0, min);
    NothingSaid(v0, b, 1, n);
    OrderedShort(v0, b[1..n]);
    assert b[1..n] == v[1..n];
    if n > 1 { QSort(v, 1, n - 1, w); }
    ghost var c := v[..];
    assert c[1..n] == v[1..n] && c[..n] == v[..n];
    SortedTail(pts, a, b, c, n, v0, w);
  }

  lemma OrderedShort(v0: Vertex, s: seq<Vertex>)
    ensures |s| == 0 ==> Ordered(v0, s)
  {
  }

  // No two of s on one ray from v0.
  ghost predicate Spread(v0: Vertex, s: seq<Vertex>) {
    forall i, j {:trigger s[i], s[j]} :: 0 <= i < j < |s| ==> Cross(Rel(v0, s[i]), Rel(v0, s[j])) != 0
  }

  // The anchor sees the others on fewer than eight rays, as it always does eight vertices or less.
  ghost predicate FewRays(pts: seq<Vertex>) {
    forall v0, s {:trigger Spread(v0, s)} ::
      IsAnchor(pts, v0) && Spread(v0, s) && (forall p :: p in s ==> p in pts) ==> |s| < STACK
  }

  // The hull of v[..n], found at v[8..]: where three vertices or more come out, they are a strictly
  // convex polygon of input vertices around all of them if and only if the anchor sees the others
  // on fewer than eight rays. Where fewer come out, every vertex lies on one segment from v[0] to
  // v[1], or is v[0].
  method ConvexHull(v: array<Vertex>, n: nat) returns (r: nat)
    requires 1 <= n && STACK + n <= v.Length && Sided(v[..n])
    modifies v
    ensures 1 <= r <= n && IsAnchor(old(v[..n]), v[0])
    ensures r >= 3 ==> v[STACK] == v[0]
    ensures r >= 3 ==> (IsHull(v[STACK..STACK + r], old(v[..n])) <==> FewRays(old(v[..n])))
    ensures r == 2 ==> forall p {:trigger p in old(v[..n])} :: p in old(v[..n]) ==>
      Under(Rel(v[0], p), Rel(v[0], v[1]))
    ensures r == 1 ==> n == 1
  {
    hide IsHull;
    hide FewRays;
    hide Rels;
    hide Rel;
    hide AllAhead;
    hide Sorted;
    hide AllInFront;
    hide Keep;
    hide Under;
    hide Fan;
    hide Scanned;
    ghost var pts := v[..n];
    ghost var w := AnchorAndSort(v, n);
    ghost var v0, s := v[0], v[1..n];
    var m := Filter(v, n, Rels(v0, s));
    ghost var kept, f := v[..m], Rels(v0, v[..m]);
    assert kept[0] == v0 && kept[1..] == v[1..m];
    FilterLeaves(pts, v0, w, s, kept, f);
    if m < 3 { return m; }
    r := Scan(v, m, w, f);
    assert v[0] == v[..STACK][0];
    ghost var h := v[STACK..STACK + r];
    assert m <= STACK ==> forall k {:trigger h[k]} :: 0 <= k < |h| ==> h[k] == v[STACK + k] && h[k] in kept;
    HullOrNot(pts, v0, w, s, kept, f, h);
  }

  // What the scan leaves is a hull if and only if the anchor sees the others on few rays.
  lemma HullOrNot(pts: seq<Vertex>, v0: Vertex, w: Vec, s: seq<Vertex>, kept: seq<Vertex>, f: seq<Vec>,
                  h: seq<Vertex>)
    requires IsAnchor(pts, v0) && AllAhead(v0, w, pts) && Sorted(Rels(v0, s)) && AllInFront(w, Rels(v0, s))
    requires forall p {:trigger p in pts} :: p in pts ==> p == v0 || p in s
    requires forall p {:trigger p in s} :: p in s ==> p in pts
    requires |kept| >= 3 && kept[0] == v0 && forall k {:trigger kept[k]} :: 1 <= k < |kept| ==> kept[k] in s
    requires f == Rels(v0, kept) == [ORIGIN] + Keep(Rels(v0, s), 0) && Fan(f[1..]) && AllInFront(w, f)
    requires ScanLeaves(w, Rels(v0, h), f, |kept|)
    requires |kept| <= STACK ==> forall k {:trigger h[k]} :: 0 <= k < |h| ==> h[k] in kept
    ensures IsHull(h, pts) <==> FewRays(pts)
  {
    hide Rel;
    hide Keep;
    hide Fan;
    hide Ahead;
    hide Contains;
    hide StrictlyConvex;
    FewKept(pts, v0, w, s, kept, f);
    if |kept| <= STACK {
      ScannedIsHull(pts, v0, w, s, f, h);
    } else {
      TwiceIsNoHull(pts, v0, h);
    }
  }

  // A polygon that comes back to a vertex before its end is not strictly convex.
  lemma TwiceIsNoHull(pts: seq<Vertex>, v0: Vertex, h: seq<Vertex>)
    requires var t := Rels(v0, h); exists l :: 3 <= l < |t| && t[l] == t[0]
    ensures !IsHull(h, pts)
  {
    var t := Rels(v0, h);
    var l :| 3 <= l < |t| && t[l] == t[0];
    OrientationSign(v0, h[0], h[1], h[l]);
    TurnBack(t[0], t[1]);
    assert Orientation(h[0], h[1], h[l]) != -1;
  }

  lemma TurnBack(a: Vec, b: Vec)
    ensures Turn(a, b, a) == 0
  {
    CrossSwaps(a, b);
    CrossSwaps(a, a);
  }

  // The filter keeps one vertex a ray, so it keeps eight with the anchor if the rays are few.
  lemma FewKept(pts: seq<Vertex>, v0: Vertex, w: Vec, s: seq<Vertex>, kept: seq<Vertex>, f: seq<Vec>)
    requires IsAnchor(pts, v0) && Sorted(Rels(v0, s)) && AllInFront(w, Rels(v0, s))
    requires forall p {:trigger p in pts} :: p in pts ==> p == v0 || p in s
    requires forall p {:trigger p in s} :: p in s ==> p in pts
    requires |kept| >= 3 && kept[0] == v0 && forall k {:trigger kept[k]} :: 1 <= k < |kept| ==> kept[k] in s
    requires f == Rels(v0, kept) == [ORIGIN] + Keep(Rels(v0, s), 0) && Fan(f[1..]) && AllInFront(w, f)
    ensures FewRays(pts) <==> |kept| <= STACK
  {
    hide Rel;
    hide Cross;
    hide Keep;
    hide Ahead;
    if |kept| > STACK {
      var t := kept[1..STACK + 1];
      forall i, j {:trigger t[i], t[j]} | 0 <= i < j < |t|
        ensures Cross(Rel(v0, t[i]), Rel(v0, t[j])) != 0
      {
        FanOf(f, i + 1, j + 1);
      }
      assert Spread(v0, t);
    } else {
      forall u: Vertex, t {:trigger Spread(u, t)} |
        IsAnchor(pts, u) && Spread(u, t) && (forall p :: p in t ==> p in pts)
        ensures |t| < STACK
      {
        assert u == v0;
        if |t| >= 2 { RaysKept(v0, w, s, t, f); }
      }
    }
  }

  // Vertices on different rays lie under different ones that the filter keeps.
  lemma RaysKept(v0: Vertex, w: Vec, s: seq<Vertex>, t: seq<Vertex>, f: seq<Vec>)
    requires Sorted(Rels(v0, s)) && AllInFront(w, Rels(v0, s)) && Spread(v0, t) && |t| >= 2
    requires forall p {:trigger p in t} :: p in t ==> p == v0 || p in s
    requires f == [ORIGIN] + Keep(Rels(v0, s), 0) && Fan(f[1..]) && AllInFront(w, f)
    ensures |t| <= |f| - 1
  {
    var js := RayOf(v0, w, s, t, f, |t|);
    forall i, j {:trigger js[i], js[j]} | 0 <= i < j < |js|
      ensures js[i] != js[j]
    {
      if js[i] == js[j] {
        assert f[1..][js[i]] == f[js[i] + 1] != ORIGIN;
        OneRay(w, Rel(v0, t[i]), Rel(v0, t[j]), f[js[i] + 1]);
      }
    }
    Pigeons(js, |f| - 1);
  }

  ghost predicate UnderKept(w: Vec, a: Vec, f: seq<Vec>, j: nat) {
    j + 1 < |f| && Ahead(w, a) && Under(a, f[j + 1])
  }

  // For each vertex the place of the kept one that it lies under.
  lemma {:induction false} RayOf(v0: Vertex, w: Vec, s: seq<Vertex>, t: seq<Vertex>, f: seq<Vec>, n: nat)
    returns (js: seq<nat>)
    requires Sorted(Rels(v0, s)) && AllInFront(w, Rels(v0, s)) && Spread(v0, t) && n <= |t| && |t| >= 2
    requires forall p {:trigger p in t} :: p in t ==> p == v0 || p in s
    requires f == [ORIGIN] + Keep(Rels(v0, s), 0) && AllInFront(w, f)
    ensures |js| == n && forall i {:trigger js[i]} :: 0 <= i < n ==> UnderKept(w, Rel(v0, t[i]), f, js[i])
  {
    hide UnderKept;
    hide Keep;
    hide Rel;
    hide Cross;
    hide Sorted;
    hide AllInFront;
    if n == 0 {
      js := [];
    } else {
      var before := RayOf(v0, w, s, t, f, n - 1);
      var j := RayOfOne(v0, w, s, t, f, n - 1);
      js := before + [j];
    }
  }

  lemma RayOfOne(v0: Vertex, w: Vec, s: seq<Vertex>, t: seq<Vertex>, f: seq<Vec>, i: nat) returns (j: nat)
    requires Sorted(Rels(v0, s)) && AllInFront(w, Rels(v0, s)) && Spread(v0, t) && i < |t| && |t| >= 2
    requires forall p {:trigger p in t} :: p in t ==> p == v0 || p in s
    requires f == [ORIGIN] + Keep(Rels(v0, s), 0) && AllInFront(w, f)
    ensures UnderKept(w, Rel(v0, t[i]), f, j)
  {
    hide Rel;
    hide Cross;
    hide Keep;
    if t[i] == v0 {
      RelSelf(v0);
      var other := if i == 0 then 1 else 0;
      CrossOrigin(Rel(v0, t[other]));
      assert false;
    }
    assert t[i] in t;
    var x :| 0 <= x < |s| && s[x] == t[i];
    var r := Rels(v0, s);
    assert r[x] == Rel(v0, t[i]);
    j := KeepCovers(w, r, 0, x);
  }

  lemma OneRay(w: Vec, a: Vec, b: Vec, k: Vec)
    requires Ahead(w, k) && k != ORIGIN && Under(a, k) && Under(b, k)
    ensures Cross(a, b) == 0
  {
    hide Cross;
    hide Dot;
    hide Square;
    Cyclic(w, a, k, b);
    CrossSwaps(b, k);
    Signs(Cross(a, b), Dot(w, k));
  }

  // Different places below n are at most n.
  lemma {:induction false} Pigeons(js: seq<nat>, n: nat)
    requires forall i {:trigger js[i]} :: 0 <= i < |js| ==> js[i] < n
    requires forall i, j {:trigger js[i], js[j]} :: 0 <= i < j < |js| ==> js[i] != js[j]
    ensures |js| <= n
    decreases n
  {
    if js == [] { return; }
    assert js[0] < n;
    if k :| 0 <= k < |js| && js[k] == n - 1 {
      Pigeons(js[..k] + js[k + 1..], n - 1);
    } else {
      Pigeons(js, n - 1);
    }
  }

  // What the filter leaves: a fan behind the anchor, or one vertex that all others lie under.
  lemma FilterLeaves(pts: seq<Vertex>, v0: Vertex, w: Vec, s: seq<Vertex>, kept: seq<Vertex>, f: seq<Vec>)
    requires Sorted(Rels(v0, s)) && AllInFront(w, Rels(v0, s))
    requires forall p {:trigger p in pts} :: p in pts ==> p == v0 || p in s
    requires kept != [] && kept[0] == v0 && Rels(v0, kept[1..]) == Keep(Rels(v0, s), 0) && f == Rels(v0, kept)
    ensures f == [ORIGIN] + Keep(Rels(v0, s), 0) && AllInFront(w, f)
    ensures |kept| >= 3 ==> Fan(f[1..])
    ensures |kept| == 2 ==> forall p {:trigger p in pts} :: p in pts ==> Under(Rel(v0, p), Rel(v0, kept[1]))
    ensures |kept| == 1 ==> s == []
  {
    hide Rel;
    hide Under;
    hide Fan;
    hide Keep;
    hide Ahead;
    var r := Rels(v0, s);
    var k := Keep(r, 0);
    RelSelf(v0);
    assert f == [ORIGIN] + k;
    AheadOrigin(w);
    forall i {:trigger f[i]} | 0 <= i < |f|
      ensures Ahead(w, f[i])
    {
      if i > 0 { var x := KeepMembers(r, 0, i - 1); }
    }
    if |k| >= 2 {
      KeepIsFan(w, r, 0);
      assert f[1..] == k;
    }
    if |k| == 1 {
      forall p {:trigger p in pts} | p in pts
        ensures Under(Rel(v0, p), Rel(v0, kept[1]))
      {
        assert f[1] == k[0];
        if p == v0 {
          OriginUnder(f[1]);
        } else {
          var i :| 0 <= i < |s| && s[i] == p;
          var j := KeepCovers(w, r, 0, i);
        }
      }
    }
  }

  lemma AheadOrigin(w: Vec)
    ensures Ahead(w, ORIGIN)
  {
  }
}
