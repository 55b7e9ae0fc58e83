/** The scan that makes a hull of a fan, on vectors: what it keeps, and why it never empties its stack. */
module HullScan {
  import opened HullGeometry

  // --- keeping the farthest of each ray ------------------------------------------------------------

  ghost predicate Sorted(s: seq<Vec>) {
    forall i, j {:trigger s[i], s[j]} :: 0 <= i < j < |s| ==> Le(s[i], s[j])
  }

  ghost predicate AllInFront(w: Vec, s: seq<Vec>) {
    forall i {:trigger s[i]} :: 0 <= i < |s| ==> Ahead(w, s[i])
  }

  // Of vectors each on a ray with the next, the last.
  function Keep(s: seq<Vec>, i: nat): (k: seq<Vec>)
    requires i <= |s|
    ensures |k| <= |s| - i && (i < |s| ==> |k| > 0)
    decreases |s| - i
  {
    if i == |s| then []
    else if i + 1 < |s| && Cross(s[i], s[i + 1]) == 0 then Keep(s, i + 1)
    else [s[i]] + Keep(s, i + 1)
  }

  // x lies between the origin and k.
  predicate Under(x: Vec, k: Vec) {
    Cross(x, k) == 0 && Square(x) <= Square(k)
  }

  lemma {:induction false} KeepMembers(s: seq<Vec>, i: nat, j: nat) returns (k: nat)
    requires i <= |s| && j < |Keep(s, i)|
    ensures i <= k < |s| && Keep(s, i)[j] == s[k]
    decreases |s| - i
  {
    if i + 1 < |s| && Cross(s[i], s[i + 1]) == 0 {
      k := KeepMembers(s, i + 1, j);
    } else if j == 0 {
      k := i;
    } else {
      k := KeepMembers(s, i + 1, j - 1);
    }
  }

  lemma UnderTransitive(w: Vec, a: Vec, b: Vec, c: Vec)
    requires Ahead(w, a) && Ahead(w, b) && Ahead(w, c) && Under(a, b) && Under(b, c)
    ensures Under(a, c)
  {
    hide Cross;
    hide Dot;
    hide Square;
    SquareZero(a);
    SquareZero(b);
    CrossOrigin(c);
    if b != ORIGIN {
      Cyclic(w, a, b, c);
      Signs(Cross(a, c), Dot(w, b));
    }
  }

  // Every vector lies under one that is kept.
  lemma {:induction false} KeepCovers(w: Vec, s: seq<Vec>, i: nat, x: nat) returns (j: nat)
    requires Sorted(s) && AllInFront(w, s) && i <= x < |s|
    ensures j < |Keep(s, i)| && Under(s[x], Keep(s, i)[j])
    decreases |s| - i
  {
    hide Cross;
    hide Square;
    hide Ahead;
    LeTotal(s[i], s[i]);
    CrossSwaps(s[i], s[i]);
    if i + 1 < |s| && Cross(s[i], s[i + 1]) == 0 {
      LeTotal(s[i], s[i + 1]);
      j := KeepCovers(w, s, i + 1, if x == i then i + 1 else x);
      if x == i {
        var k := KeepMembers(s, i + 1, j);
        UnderTransitive(w, s[i], s[i + 1], s[k]);
      }
    } else if x == i {
      j := 0;
    } else {
      var j' := KeepCovers(w, s, i + 1, x);
      j := j' + 1;
    }
  }

  // Left of everything before it, and never the origin.
  ghost predicate Fan(f: seq<Vec>) {
    && (forall j, k {:trigger f[j], f[k]} :: 0 <= j < k < |f| ==> Cross(f[j], f[k]) > 0)
    && (forall j {:trigger f[j]} :: 0 <= j < |f| ==> f[j] != ORIGIN)
  }

  // Past a vector that is not the origin, nothing sorted is.
  lemma SortedNonzero(a: Vec, b: Vec)
    requires Le(a, b) && a != ORIGIN
    ensures b != ORIGIN
  {
    LeTotal(a, b);
    SquareZero(a);
    SquareZero(b);
    CrossOrigin(a);
  }

  lemma {:induction false} KeepFan(w: Vec, s: seq<Vec>, i: nat)
    requires Sorted(s) && AllInFront(w, s) && i <= |s| && (i < |s| ==> s[i] != ORIGIN)
    ensures Fan(Keep(s, i))
    decreases |s| - i
  {
    hide Cross;
    hide Square;
    hide Ahead;
    if i < |s| {
      if i + 1 < |s| { SortedNonzero(s[i], s[i + 1]); }
      KeepFan(w, s, i + 1);
      if i + 1 < |s| && Cross(s[i], s[i + 1]) != 0 {
        LeTotal(s[i], s[i + 1]);
        var rest := Keep(s, i + 1);
        forall k {:trigger rest[k]} | 0 <= k < |rest|
          ensures Cross(s[i], rest[k]) > 0
        {
          var x := KeepMembers(s, i + 1, k);
          LeftOfRest(w, s, i, x);
        }
      }
    }
  }

  lemma LeftOfRest(w: Vec, s: seq<Vec>, i: nat, x: nat)
    requires Sorted(s) && AllInFront(w, s) && i < x < |s| && s[i + 1] != ORIGIN
    requires Cross(s[i], s[i + 1]) > 0
    ensures Cross(s[i], s[x]) > 0
  {
    hide Cross;
    hide Square;
    hide Dot;
    hide Le;
    hide Ahead;
    if x > i + 1 {
      LeTotal(s[i + 1], s[x]);
      SortedNonzero(s[i + 1], s[x]);
      CrossTransitive(w, s[i], s[i + 1], s[x]);
    }
  }

  // Origins sort first, so they are all dropped unless nothing else is there.
  lemma {:induction false} KeepIsFan(w: Vec, s: seq<Vec>, i: nat)
    requires Sorted(s) && AllInFront(w, s) && i < |s| && |Keep(s, i)| >= 2
    ensures Fan(Keep(s, i))
    decreases |s| - i
  {
    hide Cross;
    hide Square;
    hide Ahead;
    hide Le;
    if s[i] == ORIGIN {
      if i + 1 < |s| {
        CrossOrigin(s[i + 1]);
        KeepIsFan(w, s, i + 1);
      }
    } else {
      KeepFan(w, s, i);
    }
  }

  // --- the stack -------------------------------------------------------------------------------------

  // The stack: the origin, then a fan, every triple of it turning left.
  ghost predicate Chain(t: seq<Vec>) {
    && |t| >= 2 && t[0] == ORIGIN && Fan(t[1..])
    && (forall i, j, k {:trigger t[i], t[j], t[k]} :: 0 <= i < j < k < |t| ==> Turn(t[i], t[j], t[k]) > 0)
  }

  // Drop vectors off the top while the last two and z do not turn left. The source has no test
  // that two are left.
  function Pop(t: seq<Vec>, z: Vec): (r: seq<Vec>)
    ensures |r| <= |t| && r == t[..|r|]
    decreases |t|
  {
    if |t| >= 2 && Turn(t[|t| - 2], t[|t| - 1], z) <= 0 then Pop(t[..|t| - 1], z) else t
  }

  lemma PopOnce(t: seq<Vec>, z: Vec)
    ensures |t| >= 2 && Turn(t[|t| - 2], t[|t| - 1], z) <= 0 ==> Pop(t, z) == Pop(t[..|t| - 1], z)
    ensures |t| < 2 || Turn(t[|t| - 2], t[|t| - 1], z) > 0 ==> Pop(t, z) == t
  {
  }

  // p lies in one of the wedges between neighbours of the stack, and not beyond its edge.
  ghost predicate Caught(t: seq<Vec>, p: Vec) {
    exists k {:trigger t[k]} :: 1 <= k < |t| - 1 && InWedge(t[k], t[k + 1], p)
  }

  predicate InWedge(a: Vec, b: Vec, p: Vec) {
    Cross(a, p) >= 0 && Cross(p, b) >= 0 && Turn(a, b, p) >= 0
  }

  // Every stack before the pops end holds: with z on top it is a fan, and the vectors seen so far
  // are caught.
  ghost predicate Ready(t: seq<Vec>, z: Vec) {
    Chain(t) && Fan(t[1..] + [z])
  }

  lemma FanMember(t: seq<Vec>, z: Vec, j: nat)
    requires |t| >= 2 && Fan(t[1..] + [z]) && 1 <= j < |t|
    ensures Cross(t[j], z) > 0 && t[j] != ORIGIN && z != ORIGIN
  {
    var f := t[1..] + [z];
    assert f[j - 1] == t[j] && f[|t| - 1] == z;
  }

  lemma FanPair(t: seq<Vec>, z: Vec, j: nat, k: nat)
    requires |t| >= 2 && Fan(t[1..] + [z]) && 1 <= j < k < |t|
    ensures Cross(t[j], t[k]) > 0
  {
    var f := t[1..] + [z];
    assert f[j - 1] == t[j] && f[k - 1] == t[k];
  }

  // With two vectors left there is always a left turn: the loop stops by itself.
  lemma TwoStay(t: seq<Vec>, z: Vec)
    requires Ready(t, z) && |t| == 2
    ensures Turn(t[0], t[1], z) > 0
  {
    FanMember(t, z, 1);
    CrossOrigin(t[1]);
    CrossOrigin(z);
  }

  lemma PopOne(t: seq<Vec>, z: Vec)
    requires Ready(t, z) && Turn(t[|t| - 2], t[|t| - 1], z) <= 0
    ensures |t| >= 3 && Ready(t[..|t| - 1], z)
  {
    hide Turn;
    hide Cross;
    if |t| == 2 { TwoStay(t, z); }
    var u := t[..|t| - 1];
    var f, g := t[1..] + [z], u[1..] + [z];
    assert forall j {:trigger g[j]} :: 0 <= j < |g| - 1 ==> g[j] == f[j];
    assert g[|g| - 1] == f[|f| - 1];
    assert forall j {:trigger u[1..][j]} :: 0 <= j < |u| - 1 ==> u[1..][j] == t[1..][j];
  }

  // A popped vector and what the two wedges at it caught lie in the wedge that replaces them.
  lemma WedgesMerge(w: Vec, a: Vec, q: Vec, z: Vec, p: Vec)
    requires Ahead(w, a) && Ahead(w, q) && Ahead(w, z) && Ahead(w, p) && q != ORIGIN
    requires Cross(a, q) > 0 && Cross(q, z) > 0 && Cross(a, z) > 0 && Turn(a, q, z) <= 0
    requires InWedge(a, q, p) || InWedge(q, z, p)
    ensures InWedge(a, z, p)
  {
    hide Cross;
    hide Turn;
    hide Dot;
    TurnsHide(a, q, z, p);
    if InWedge(a, q, p) {
      CrossTransitive(w, p, q, z);
      BehindEdge(Turn(a, z, p), Cross(a, q), Cross(a, z), Turn(a, q, p), Cross(a, p), Turn(a, q, z));
    } else {
      CrossTransitive(w, a, q, p);
      BehindEdge(Turn(a, z, p), Cross(q, z), Cross(a, z), Turn(q, z, p), Cross(p, z), Turn(a, q, z));
    }
  }

  lemma BehindEdge(x: int, b: int, c: int, d: int, e: int, f: int)
    requires x * b == c * d - e * f && b > 0 && c >= 0 && d >= 0 && e >= 0 && f <= 0
    ensures x >= 0
  {
    Signs(c, d);
    Signs(e, -f);
    assert e * -f == -(e * f);
    Signs(x, b);
  }

  // What was caught with the popped vector on the stack is caught without it.
  lemma PopCatches(w: Vec, t: seq<Vec>, z: Vec, p: Vec)
    requires Ready(t, z) && |t| >= 3 && Turn(t[|t| - 2], t[|t| - 1], z) <= 0
    requires AllInFront(w, t) && Ahead(w, z) && Ahead(w, p) && Caught(t + [z], p)
    ensures Caught(t[..|t| - 1] + [z], p)
  {
    hide InWedge;
    hide Turn;
    hide Cross;
    hide Ahead;
    hide Fan;
    hide Chain;
    var all, u, m := t + [z], t[..|t| - 1] + [z], |t| - 2;
    var k :| 1 <= k < |all| - 1 && InWedge(all[k], all[k + 1], p);
    if k < m {
      assert u[k] == all[k] && u[k + 1] == all[k + 1];
    } else {
      FanMember(t, z, m);
      FanMember(t, z, m + 1);
      FanPair(t, z, m, m + 1);
      WedgesMerge(w, t[m], t[m + 1], z, p);
      assert u[m] == t[m] && u[m + 1] == z;
    }
  }

  // A left turn at a, b, c and one at b, c, z carry over to a, b, z and a, c, z.
  lemma CarryTurn(a: Vec, b: Vec, c: Vec, z: Vec)
    requires Cross(b, c) > 0 && Turn(a, b, c) > 0 && Turn(b, c, z) > 0 && Cross(a, b) >= 0 && Cross(a, c) >= 0
    requires Cross(b, z) > 0 && Cross(c, z) > 0
    ensures Turn(a, b, z) > 0 && Turn(a, c, z) > 0
  {
    hide Cross;
    hide Turn;
    TurnsJoin(a, b, c, z);
    Signs(Cross(a, b), Turn(b, c, z));
    Signs(Cross(b, z), Turn(a, b, c));
    Signs(Cross(c, z), Turn(a, b, c));
    Signs(Cross(a, c), Turn(b, c, z));
    Signs(Turn(a, b, z), Cross(b, c));
    Signs(Turn(a, c, z), Cross(b, c));
  }

  // Once z turns left past the top two, it turns left past any two.
  lemma {:induction false} TopTurns(t: seq<Vec>, z: Vec, j: nat)
    requires Ready(t, z) && Turn(t[|t| - 2], t[|t| - 1], z) > 0 && 1 <= j < |t|
    ensures Turn(t[j - 1], t[j], z) > 0
    decreases |t| - j
  {
    hide Cross;
    hide Turn;
    if j < |t| - 1 {
      TopTurns(t, z, j + 1);
      FanMember(t, z, j);
      FanMember(t, z, j + 1);
      FanPair(t, z, j, j + 1);
      CrossFromOrigin(t, z, j - 1, j);
      CrossFromOrigin(t, z, j - 1, j + 1);
      CarryTurn(t[j - 1], t[j], t[j + 1], z);
    }
  }

  lemma CrossFromOrigin(t: seq<Vec>, z: Vec, i: nat, j: nat)
    requires Ready(t, z) && i < j < |t|
    ensures Cross(t[i], t[j]) >= 0
  {
    if i == 0 { CrossOrigin(t[j]); } else { FanPair(t, z, i, j); }
  }

  lemma PushChain(t: seq<Vec>, z: Vec)
    requires Ready(t, z) && Turn(t[|t| - 2], t[|t| - 1], z) > 0
    ensures Chain(t + [z])
  {
    hide Cross;
    hide Turn;
    var u := t + [z];
    assert u[1..] == t[1..] + [z];
    forall i, j, k {:trigger u[i], u[j], u[k]} | 0 <= i < j < k < |u|
      ensures Turn(u[i], u[j], u[k]) > 0
    {
      if k < |t| {
        assert Turn(t[i], t[j], t[k]) > 0;
      } else {
        TopTurns(t, z, j);
        if i < j - 1 {
          FanMember(t, z, j - 1);
          FanMember(t, z, j);
          FanPair(t, z, j - 1, j);
          CrossFromOrigin(t, z, i, j - 1);
          CrossFromOrigin(t, z, i, j);
          assert Turn(t[i], t[j - 1], t[j]) > 0;
          CarryTurn(t[i], t[j - 1], t[j], z);
        }
      }
    }
  }

  // --- the hull ----------------------------------------------------------------------------------

  // p is on the left of every edge of the polygon, or on it.
  ghost predicate Inside(t: seq<Vec>, p: Vec) {
    && (forall k {:trigger t[k]} :: 0 <= k < |t| - 1 ==> Turn(t[k], t[k + 1], p) >= 0)
    && (|t| > 0 ==> Turn(t[|t| - 1], t[0], p) >= 0)
  }

  lemma NextEdge(p: Vec, b: Vec, c: Vec, d: Vec)
    requires Cross(b, c) > 0 && Cross(c, d) > 0 && Cross(p, c) >= 0 && Turn(b, c, p) >= 0 && Turn(b, c, d) > 0
    ensures Turn(c, d, p) >= 0
  {
    hide Cross;
    hide Turn;
    TurnsJoin(p, b, c, d);
    TurnCyclic(p, b, c);
    TurnCyclic(p, c, d);
    Signs(Cross(c, d), Turn(p, b, c));
    Signs(Cross(p, c), Turn(b, c, d));
    Signs(Turn(p, c, d), Cross(b, c));
  }

  lemma PreviousEdge(a: Vec, b: Vec, c: Vec, p: Vec)
    requires Cross(b, c) > 0 && Cross(a, b) >= 0 && Cross(b, p) >= 0 && Turn(b, c, p) >= 0 && Turn(a, b, c) > 0
    ensures Turn(a, b, p) >= 0
  {
    hide Cross;
    hide Turn;
    TurnsJoin(a, b, c, p);
    Signs(Cross(a, b), Turn(b, c, p));
    Signs(Cross(b, p), Turn(a, b, c));
    Signs(Turn(a, b, p), Cross(b, c));
  }

  // In a chain whose top is z, a vector caught in one wedge is inside every edge.
  lemma {:induction false} EdgesAbove(w: Vec, t: seq<Vec>, p: Vec, k: nat, j: nat)
    requires Chain(t) && AllInFront(w, t) && Ahead(w, p) && 1 <= k <= j < |t| - 1 && InWedge(t[k], t[k + 1], p)
    ensures Turn(t[j], t[j + 1], p) >= 0 && Cross(p, t[j + 1]) >= 0
    decreases j
  {
    hide Cross;
    hide Turn;
    hide Dot;
    hide Ahead;
    if j > k {
      EdgesAbove(w, t, p, k, j - 1);
      ChainPair(t, j - 1, j);
      ChainPair(t, j, j + 1);
      assert Turn(t[j - 1], t[j], t[j + 1]) > 0;
      NextEdge(p, t[j - 1], t[j], t[j + 1]);
      CrossTransitive(w, p, t[j], t[j + 1]);
    }
  }

  lemma {:induction false} EdgesBelow(w: Vec, t: seq<Vec>, p: Vec, k: nat, j: nat)
    requires Chain(t) && AllInFront(w, t) && Ahead(w, p) && 1 <= j <= k < |t| - 1 && InWedge(t[k], t[k + 1], p)
    ensures Turn(t[j], t[j + 1], p) >= 0 && Cross(t[j], p) >= 0
    decreases k - j
  {
    hide Cross;
    hide Turn;
    hide Dot;
    hide Ahead;
    if j < k {
      EdgesBelow(w, t, p, k, j + 1);
      ChainPair(t, j, j + 1);
      ChainPair(t, j + 1, j + 2);
      assert Turn(t[j], t[j + 1], t[j + 2]) > 0;
      PreviousEdge(t[j], t[j + 1], t[j + 2], p);
      CrossTransitive(w, t[j], t[j + 1], p);
    }
  }

  lemma ChainPair(t: seq<Vec>, i: nat, j: nat)
    requires Chain(t) && 1 <= i < j < |t|
    ensures Cross(t[i], t[j]) > 0 && t[i] != ORIGIN && t[j] != ORIGIN
  {
    assert t[1..][i - 1] == t[i] && t[1..][j - 1] == t[j];
  }

  lemma CaughtInside(w: Vec, t: seq<Vec>, p: Vec)
    requires Chain(t) && AllInFront(w, t) && Ahead(w, p) && Caught(t, p)
    ensures Inside(t, p)
  {
    hide Cross;
    hide Dot;
    hide Ahead;
    hide InWedge;
    hide Chain;
    hide AllInFront;
    var k :| 1 <= k < |t| - 1 && InWedge(t[k], t[k + 1], p);
    forall j {:trigger t[j]} | 0 <= j < |t| - 1
      ensures Turn(t[j], t[j + 1], p) >= 0
    {
      EdgeHolds(w, t, p, k, j);
    }
    ClosingEdge(w, t, p, k);
  }

  lemma EdgeHolds(w: Vec, t: seq<Vec>, p: Vec, k: nat, j: nat)
    requires Chain(t) && AllInFront(w, t) && Ahead(w, p)
    requires 1 <= k < |t| - 1 && j < |t| - 1 && InWedge(t[k], t[k + 1], p)
    ensures Turn(t[j], t[j + 1], p) >= 0
  {
    hide Cross;
    hide Turn;
    hide InWedge;
    hide Ahead;
    hide Fan;
    if j == 0 {
      EdgesBelow(w, t, p, k, 1);
      OriginTurn(t[1], p);
    } else if j < k {
      EdgesBelow(w, t, p, k, j);
    } else {
      EdgesAbove(w, t, p, k, j);
    }
  }

  lemma ClosingEdge(w: Vec, t: seq<Vec>, p: Vec, k: nat)
    requires Chain(t) && AllInFront(w, t) && Ahead(w, p)
    requires 1 <= k < |t| - 1 && InWedge(t[k], t[k + 1], p)
    ensures Turn(t[|t| - 1], t[0], p) >= 0
  {
    hide Cross;
    hide InWedge;
    hide Ahead;
    hide Fan;
    EdgesAbove(w, t, p, k, |t| - 2);
    CrossOrigin(t[|t| - 1]);
    CrossOrigin(p);
    CrossSwaps(t[|t| - 1], p);
  }

  lemma OriginTurn(a: Vec, p: Vec)
    ensures Turn(ORIGIN, a, p) == Cross(a, p)
  {
    CrossOrigin(a);
    CrossOrigin(p);
  }

  // What lies under a vector inside the polygon is inside it.
  lemma UnderInside(w: Vec, t: seq<Vec>, x: Vec, k: Vec)
    requires Chain(t) && Inside(t, k) && Ahead(w, x) && Ahead(w, k) && Under(x, k)
    ensures Inside(t, x)
  {
    hide Cross;
    hide Square;
    hide Dot;
    hide Ahead;
    forall j {:trigger t[j]} | 0 <= j < |t| - 1
      ensures Turn(t[j], t[j + 1], x) >= 0
    {
      if j > 0 { ChainPair(t, j, j + 1); }
      OriginInside(t[j], t[j + 1]);
      CrossOrigin(t[1]);
      NearerInside(w, t[j], t[j + 1], x, k);
    }
    OriginInside(t[|t| - 1], t[0]);
    CrossOrigin(t[|t| - 1]);
    NearerInside(w, t[|t| - 1], t[0], x, k);
  }

  lemma OriginInside(a: Vec, b: Vec)
    ensures Turn(a, b, ORIGIN) == Cross(a, b)
  {
    CrossOrigin(a);
    CrossOrigin(b);
  }

  // --- the scan, step by step ---------------------------------------------------------------------

  // Before f[i] is looked at: the stack is a chain, everything still to come is left of it, and
  // everything seen so far is caught.
  ghost predicate Scanned(t: seq<Vec>, f: seq<Vec>, i: nat)
    requires i <= |f|
  {
    && Chain(t) && |t| >= 3
    && (forall j, x {:trigger t[j], f[x]} :: 1 <= j < |t| && i <= x < |f| ==> Cross(t[j], f[x]) > 0)
    && (forall x {:trigger f[x]} :: 1 <= x < i ==> Caught(t, f[x]))
  }

  // While the stack is popped for f[i].
  ghost predicate Popping(t: seq<Vec>, f: seq<Vec>, i: nat)
    requires i < |f|
  {
    && Ready(t, f[i])
    && (forall j, x {:trigger t[j], f[x]} :: 1 <= j < |t| && i <= x < |f| ==> Cross(t[j], f[x]) > 0)
    && (forall x {:trigger f[x]} :: 1 <= x <= i ==> Caught(t + [f[i]], f[x]))
  }

  lemma FanOf(f: seq<Vec>, j: nat, k: nat)
    requires |f| >= 1 && Fan(f[1..]) && 1 <= j < k < |f|
    ensures Cross(f[j], f[k]) > 0 && f[j] != ORIGIN && f[k] != ORIGIN
  {
    assert f[1..][j - 1] == f[j] && f[1..][k - 1] == f[k];
  }

  lemma StartScan(f: seq<Vec>)
    requires |f| >= 3 && f[0] == ORIGIN && Fan(f[1..])
    ensures Scanned(f[..3], f, 3)
  {
    hide Cross;
    hide Turn;
    var t := f[..3];
    FanOf(f, 1, 2);
    CrossOrigin(f[1]);
    CrossOrigin(f[2]);
    SelfCaught(f[1], f[2]);
    OriginTurn(f[1], f[2]);
    assert t[1..] == f[1..3];
    assert InWedge(t[1], t[2], f[1]) && InWedge(t[1], t[2], f[2]);
    forall j, x {:trigger t[j], f[x]} | 1 <= j < |t| && 3 <= x < |f|
      ensures Cross(t[j], f[x]) > 0
    {
      FanOf(f, j, x);
    }
  }

  lemma SelfCaught(a: Vec, b: Vec)
    requires Cross(a, b) > 0
    ensures InWedge(a, b, a) && InWedge(a, b, b)
  {
    CrossSwaps(a, b);
    CrossSwaps(a, a);
    CrossSwaps(b, b);
  }

  lemma StartPop(t: seq<Vec>, f: seq<Vec>, i: nat)
    requires i < |f| && Scanned(t, f, i) && f[0] == ORIGIN && Fan(f[1..]) && 3 <= i
    ensures Popping(t, f, i)
  {
    hide Cross;
    hide Turn;
    hide Caught;
    hide InWedge;
    var z := f[i];
    FanOf(f, 1, i);
    FanGrows(t, z);
    forall x {:trigger f[x]} | 1 <= x <= i
      ensures Caught(t + [z], f[x])
    {
      if x < i { CaughtGrows(t, z, f[x]); } else { TopCaught(t, z); }
    }
  }

  lemma FanGrows(t: seq<Vec>, z: Vec)
    requires Chain(t) && z != ORIGIN && forall j {:trigger t[j]} :: 1 <= j < |t| ==> Cross(t[j], z) > 0
    ensures Fan(t[1..] + [z])
  {
    hide Cross;
    hide Turn;
    var g := t[1..] + [z];
    forall j, k {:trigger g[j], g[k]} | 0 <= j < k < |g|
      ensures Cross(g[j], g[k]) > 0
    {
      if k < |g| - 1 { ChainPair(t, j + 1, k + 1); } else { assert g[j] == t[j + 1]; }
    }
    assert forall j {:trigger g[j]} :: 0 <= j < |g| - 1 ==> g[j] == t[1..][j];
  }

  lemma CaughtGrows(t: seq<Vec>, z: Vec, p: Vec)
    requires Caught(t, p)
    ensures Caught(t + [z], p)
  {
    hide InWedge;
    var k :| 1 <= k < |t| - 1 && InWedge(t[k], t[k + 1], p);
    assert (t + [z])[k] == t[k] && (t + [z])[k + 1] == t[k + 1];
  }

  lemma TopCaught(t: seq<Vec>, z: Vec)
    requires |t| >= 2 && Cross(t[|t| - 1], z) > 0
    ensures Caught(t + [z], z)
  {
    hide InWedge;
    SelfCaught(t[|t| - 1], z);
    assert (t + [z])[|t| - 1] == t[|t| - 1] && (t + [z])[|t|] == z;
  }

  lemma PopStep(w: Vec, t: seq<Vec>, f: seq<Vec>, i: nat)
    requires i < |f| && Popping(t, f, i) && AllInFront(w, t) && AllInFront(w, f)
    requires Turn(t[|t| - 2], t[|t| - 1], f[i]) <= 0
    ensures |t| >= 3 && Popping(t[..|t| - 1], f, i)
  {
    hide Cross;
    hide Turn;
    hide Ahead;
    hide Caught;
    hide Ready;
    PopOne(t, f[i]);
    forall x {:trigger f[x]} | 1 <= x <= i
      ensures Caught(t[..|t| - 1] + [f[i]], f[x])
    {
      PopCatches(w, t, f[i], f[x]);
    }
  }

  lemma PushStep(t: seq<Vec>, f: seq<Vec>, i: nat)
    requires i < |f| && Popping(t, f, i) && 3 <= i && Fan(f[1..])
    requires Turn(t[|t| - 2], t[|t| - 1], f[i]) > 0
    ensures Scanned(t + [f[i]], f, i + 1)
  {
    hide Cross;
    hide Turn;
    hide Caught;
    PushChain(t, f[i]);
    hide Chain;
    var u := t + [f[i]];
    forall j, x {:trigger u[j], f[x]} | 1 <= j < |u| && i + 1 <= x < |f|
      ensures Cross(u[j], f[x]) > 0
    {
      if j == |t| { FanOf(f, i, x); } else { assert u[j] == t[j]; }
    }
  }

  // All the pops for one vector.
  lemma {:induction false} PopKeeps(w: Vec, t: seq<Vec>, f: seq<Vec>, i: nat)
    requires i < |f| && Popping(t, f, i) && AllInFront(w, t) && AllInFront(w, f)
    ensures var u := Pop(t, f[i]);
      && |u| >= 2 && Popping(u, f, i) && AllInFront(w, u) && Turn(u[|u| - 2], u[|u| - 1], f[i]) > 0
    decreases |t|
  {
    hide Turn;
    hide Pop;
    hide Popping;
    hide AllInFront;
    PopOnce(t, f[i]);
    PoppingSize(t, f, i);
    if Turn(t[|t| - 2], t[|t| - 1], f[i]) <= 0 {
      PopStep(w, t, f, i);
      FrontPrefix(w, t, |t| - 1);
      PopKeeps(w, t[..|t| - 1], f, i);
    }
  }

  lemma PoppingSize(t: seq<Vec>, f: seq<Vec>, i: nat)
    requires i < |f| && Popping(t, f, i)
    ensures |t| >= 2
  {
  }

  lemma FrontPrefix(w: Vec, t: seq<Vec>, n: nat)
    requires AllInFront(w, t) && n <= |t|
    ensures AllInFront(w, t[..n])
  {
    hide Ahead;
  }

  // --- reading the stack back ---------------------------------------------------------------------

  // A chain c that has begun to be pushed once more on top of itself, around and around.
  ghost predicate Wound(t: seq<Vec>, c: seq<Vec>) {
    && 3 <= |c| <= |t| && Chain(c) && c == t[..|c|]
    && (forall k: nat {:trigger Again(t, |c|, k)} :: |c| <= k < |t| ==> Again(t, |c|, k))
    && (forall k: nat {:trigger LeftAt(t, k)} :: k < |t| - 2 ==> LeftAt(t, k))
  }

  ghost predicate Again(t: seq<Vec>, l: nat, k: nat) {
    l <= k < |t| && t[k] == t[k - l]
  }

  ghost predicate LeftAt(t: seq<Vec>, k: nat) {
    k < |t| - 2 && Turn(t[k], t[k + 1], t[k + 2]) > 0
  }

  lemma StartsWound(c: seq<Vec>)
    requires Chain(c) && |c| >= 3
    ensures Wound(c, c)
  {
    hide Chain;
    hide Turn;
    assert c[..|c|] == c;
    forall k: nat {:trigger LeftAt(c, k)} | k < |c| - 2
      ensures LeftAt(c, k)
    {
      ChainTurn(c, k, k + 1, k + 2);
    }
  }

  // The next vector of the chain turns left again, so nothing is ever popped.
  lemma WindsOn(t: seq<Vec>, c: seq<Vec>, z: Vec)
    requires Wound(t, c) && z == t[|t| - |c|]
    ensures Pop(t, z) == t && Wound(t + [z], c)
  {
    hide Turn;
    hide Chain;
    hide Pop;
    NextTurn(t, c);
    PopOnce(t, z);
    var n, u := |t|, t + [z];
    forall k: nat {:trigger LeftAt(u, k)} | k < |u| - 2
      ensures LeftAt(u, k)
    {
      if k < n - 2 { assert LeftAt(t, k); }
    }
    forall k: nat {:trigger Again(u, |c|, k)} | |c| <= k < |u|
      ensures Again(u, |c|, k)
    {
      if k < n { assert Again(t, |c|, k); }
    }
    assert c == u[..|c|];
  }

  lemma NextTurn(t: seq<Vec>, c: seq<Vec>)
    requires Wound(t, c)
    ensures Turn(t[|t| - 2], t[|t| - 1], t[|t| - |c|]) > 0
  {
    hide Turn;
    hide Chain;
    var n, l := |t|, |c|;
    if n == l {
      ChainTurn(c, 0, l - 2, l - 1);
      TurnCyclic(c[0], c[l - 2], c[l - 1]);
    } else if n == l + 1 {
      ChainTurn(c, 0, 1, l - 1);
      TurnCyclic(c[0], c[1], c[l - 1]);
      assert Again(t, l, n - 1);
    } else {
      assert Again(t, l, n - 2) && Again(t, l, n - 1);
      assert LeftAt(t, n - l - 2);
    }
  }

  lemma ChainTurn(c: seq<Vec>, i: nat, j: nat, k: nat)
    requires Chain(c) && i < j < k < |c|
    ensures Turn(c[i], c[j], c[k]) > 0
  {
  }
}
