/**
 * The hull's in-place quicksort. Its comparator never answers 0 for two slots, so the partition
 * stops on a slot number where a textbook one stops on an equal element.
 */
module HullSort {
  import opened HullGeometry

  // Two slots compare 0 only when they are the same slot.
  function Compare(v0: Vertex, same: bool, p1: Vertex, p2: Vertex): int {
    if same then 0
    else
      var o := Orientation(v0, p1, p2);
      if o == 0 then (if DistSq(v0, p2) >= DistSq(v0, p1) then -1 else 1) else o
  }

  predicate Before(v0: Vertex, a: Vertex, b: Vertex) {
    Lt(Rel(v0, a), Rel(v0, b))
  }

  // Which slots each of the two scans of the partition passes: strictly before the pivot going
  // up, anything but strictly before it, and not the pivot's own slot, going down.
  lemma CompareIs(v0: Vertex, same: bool, c: Vertex, x: Vertex)
    requires same ==> c == x
    ensures Compare(v0, same, c, x) > 0 <==> !same && Before(v0, x, c)
    ensures Compare(v0, same, c, x) < 0 <==> !same && !Before(v0, x, c)
  {
    var a, b := Rel(v0, c), Rel(v0, x);
    OrientationIsTurn(v0, v0, c, x);
    CrossSwaps(a, b);
    CrossOrigin(a);
    CrossOrigin(b);
    assert Rel(v0, v0) == ORIGIN;
    SquareIsDist(v0, c);
    SquareIsDist(v0, x);
  }

  lemma SquareIsDist(v0: Vertex, p: Vertex)
    ensures DistSq(v0, p) == Square(Rel(v0, p))
  {
    assert forall i: int, j: int {:trigger (i - j) * (i - j)} :: (i - j) * (i - j) == (j - i) * (j - i);
  }

  // --- sequences in order, except for one stretch -----------------------------------------------

  predicate InOrder(v0: Vertex, a: Vertex, b: Vertex) {
    !Before(v0, b, a)
  }

  // Every vertex lies ahead of w as seen from v0, so the order is transitive among them.
  ghost predicate AllAhead(v0: Vertex, w: Vec, s: seq<Vertex>) {
    forall p {:trigger p in s} :: p in s ==> Ahead(w, Rel(v0, p))
  }

  // s[lo..hi] is in order, except that nothing is said of two slots of s[from..to].
  ghost predicate OrderedBut(v0: Vertex, s: seq<Vertex>, lo: nat, hi: nat, from: nat, to: nat)
    requires lo <= from <= to <= hi <= |s|
  {
    forall i, j {:trigger s[i], s[j]} :: lo <= i < j < hi && !(from <= i && j < to) ==> InOrder(v0, s[i], s[j])
  }

  ghost predicate Ordered(v0: Vertex, s: seq<Vertex>) {
    forall i, j {:trigger s[i], s[j]} :: 0 <= i < j < |s| ==> InOrder(v0, s[i], s[j])
  }

  // t is s with s[from..to] rearranged.
  ghost predicate Rearranged(s: seq<Vertex>, t: seq<Vertex>, from: nat, to: nat) {
    && from <= to <= |s| == |t|
    && t[..from] == s[..from] && t[to..] == s[to..]
    && multiset(t[from..to]) == multiset(s[from..to])
  }

  lemma RearrangedMembers(s: seq<Vertex>, t: seq<Vertex>, from: nat, to: nat, i: nat) returns (j: nat)
    requires Rearranged(s, t, from, to) && from <= i < to
    ensures from <= j < to && s[j] == t[i]
  {
    assert t[i] == t[from..to][i - from];
    assert t[i] in multiset(t[from..to]);
    assert t[i] in s[from..to];
    var k :| 0 <= k < to - from && s[from..to][k] == t[i];
    j := from + k;
  }

  // Rearranging the stretch that nothing is said of keeps the rest in order.
  lemma OrderKept(v0: Vertex, s: seq<Vertex>, t: seq<Vertex>, lo: nat, hi: nat, from: nat, to: nat)
    requires lo <= from <= to <= hi <= |s| && OrderedBut(v0, s, lo, hi, from, to) && Rearranged(s, t, from, to)
    ensures OrderedBut(v0, t, lo, hi, from, to)
  {
    forall i, j {:trigger t[i], t[j]} | lo <= i < j < hi && !(from <= i && j < to)
      ensures InOrder(v0, t[i], t[j])
    {
      var i', j' := i, j;
      if from <= i < to { i' := RearrangedMembers(s, t, from, to, i); }
      if from <= j < to { j' := RearrangedMembers(s, t, from, to, j); }
      assert i < from ==> t[i] == s[..from][i];
      assert i >= to ==> t[i] == s[to..][i - to];
      assert j < from ==> t[j] == s[..from][j];
      assert j >= to ==> t[j] == s[to..][j - to];
      assert InOrder(v0, s[i'], s[j']);
    }
  }

  lemma RearrangedWider(s: seq<Vertex>, t: seq<Vertex>, from: nat, to: nat, lo: nat, hi: nat)
    requires Rearranged(s, t, from, to) && lo <= from && to <= hi <= |s|
    ensures Rearranged(s, t, lo, hi)
  {
    assert t[..lo] == t[..from][..lo] == s[..lo];
    assert t[hi..] == t[to..][hi - to..] == s[hi..];
    assert t[lo..hi] == t[lo..from] + t[from..to] + t[to..hi];
    assert s[lo..hi] == s[lo..from] + s[from..to] + s[to..hi];
    assert t[lo..from] == t[..from][lo..] == s[..from][lo..] == s[lo..from];
    assert t[to..hi] == t[to..][..hi - to] == s[to..][..hi - to] == s[to..hi];
  }

  lemma RearrangedTwice(s: seq<Vertex>, t: seq<Vertex>, u: seq<Vertex>, from: nat, to: nat)
    requires Rearranged(s, t, from, to) && Rearranged(t, u, from, to)
    ensures Rearranged(s, u, from, to)
  {
  }

  // --- the partition -----------------------------------------------------------------------------

  ghost predicate LowSide(v0: Vertex, s: seq<Vertex>, from: nat, to: int, pivot: Vertex)
    requires to <= |s|
  {
    forall k {:trigger s[k]} :: from <= k < to ==> InOrder(v0, s[k], pivot)
  }

  ghost predicate HighSide(v0: Vertex, s: seq<Vertex>, from: int, to: nat, pivot: Vertex)
    requires 0 <= from && to <= |s|
  {
    forall k {:trigger s[k]} :: from <= k < to ==> InOrder(v0, pivot, s[k])
  }

  lemma OrderFacts(v0: Vertex, a: Vertex, b: Vertex)
    ensures InOrder(v0, a, a)
    ensures Before(v0, a, b) ==> InOrder(v0, a, b)
  {
    LeTotal(Rel(v0, a), Rel(v0, b));
    LeTotal(Rel(v0, a), Rel(v0, a));
  }

  // Two slots swapped inside a stretch rearrange it.
  lemma SwapRearranges(s: seq<Vertex>, t: seq<Vertex>, from: nat, to: nat, i: nat, j: nat)
    requires from <= i < to <= |s| && from <= j < to && t == s[i := s[j]][j := s[i]]
    ensures Rearranged(s, t, from, to)
  {
    assert t[..from] == s[..from] && t[to..] == s[to..];
    var m := s[from..to];
    SwapSame(m, i - from, j - from);
    assert t[from..to] == m[i - from := m[j - from]][j - from := m[i - from]];
  }

  lemma SwapSame(m: seq<Vertex>, i: nat, j: nat)
    requires i < |m| && j < |m|
    ensures multiset(m[i := m[j]][j := m[i]]) == multiset(m)
  {
  }

  method Swap(v: array<Vertex>, i: nat, j: nat)
    requires i < v.Length && j < v.Length
    modifies v
    ensures v[..] == old(v[..])[i := old(v[j])][j := old(v[i])]
  {
    var temp := v[i];
    v[i] := v[j];
    v[j] := temp;
  }

  // The scans' stops: the pivot's slot, or what the last swap left beside the gap.
  ghost predicate Stops(v0: Vertex, s: seq<Vertex>, base: nat, n: nat, a: nat, b: int, c: nat, pivot: Vertex)
    requires base + n <= |s|
  {
    && a <= n && -1 <= b < n && c < n && a <= b + 1
    && s[base + c] == pivot
    && if a == 0 then b == n - 1 && a <= c < n - 1
       else b < n - 1 && (c == a - 1 || Before(v0, s[base + a - 1], pivot))
  }

  // Look for a slot that is not before the pivot.
  method ScanUp(v: array<Vertex>, base: nat, n: nat, a0: nat, b: int, c: nat, ghost pivot: Vertex) returns (a: nat)
    requires 1 <= base && base + n <= v.Length && 2 <= n && Stops(v[0], v[..], base, n, a0, b, c, pivot)
    requires LowSide(v[0], v[..], base, base + a0, pivot) && HighSide(v[0], v[..], base + b + 1, base + n, pivot)
    ensures a0 <= a <= if a0 == 0 then c else b + 1
    ensures LowSide(v[0], v[..], base, base + a, pivot)
    ensures a == c || !Before(v[0], v[base + a], pivot)
  {
    a := a0;
    CompareIs(v[0], c == a, v[base + c], v[base + a]);
    while Compare(v[0], c == a, v[base + c], v[base + a]) > 0
      invariant a0 <= a <= if a0 == 0 then c else b + 1
      invariant LowSide(v[0], v[..], base, base + a, pivot)
      invariant Compare(v[0], c == a, v[base + c], v[base + a]) > 0
           <==> c != a && Before(v[0], v[base + a], pivot)
      decreases n - a
    {
      OrderFacts(v[0], v[base + a], pivot);
      a := a + 1;
      CompareIs(v[0], c == a, v[base + c], v[base + a]);
    }
  }

  // Look for a slot that is before the pivot, or for the pivot itself.
  method ScanDown(v: array<Vertex>, base: nat, n: nat, ghost a0: nat, b0: int, c: nat, ghost pivot: Vertex)
    returns (b: int)
    requires 1 <= base && base + n <= v.Length && 2 <= n && Stops(v[0], v[..], base, n, a0, b0, c, pivot)
    requires HighSide(v[0], v[..], base + b0 + 1, base + n, pivot)
    ensures (if a0 == 0 then c else a0 - 1) <= b <= b0
    ensures HighSide(v[0], v[..], base + b + 1, base + n, pivot)
    ensures b == c || Before(v[0], v[base + b], pivot)
  {
    b := b0;
    CompareIs(v[0], c == b, v[base + c], v[base + b]);
    while Compare(v[0], c == b, v[base + c], v[base + b]) < 0
      invariant (if a0 == 0 then c else a0 - 1) <= b <= b0
      invariant HighSide(v[0], v[..], base + b + 1, base + n, pivot)
      invariant Compare(v[0], c == b, v[base + c], v[base + b]) < 0
           <==> c != b && !Before(v[0], v[base + b], pivot)
      decreases b
    {
      b := b - 1;
      CompareIs(v[0], c == b, v[base + c], v[base + b]);
    }
  }

  // The swap leaves on either side of the gap what the next scans stop on.
  lemma SwapKeeps(v0: Vertex, s: seq<Vertex>, t: seq<Vertex>, base: nat, n: nat, a: nat, b: nat, c: nat, c': nat,
                  pivot: Vertex)
    requires base + n <= |s| && a < b < n && c < n && s[base + c] == pivot
    requires t == s[base + a := s[base + b]][base + b := s[base + a]]
    requires LowSide(v0, s, base, base + a, pivot) && HighSide(v0, s, base + b + 1, base + n, pivot)
    requires a == c || !Before(v0, s[base + a], pivot)
    requires b == c || Before(v0, s[base + b], pivot)
    requires b < n - 1 || c < n - 1
    requires c' == if c == a then b else if c == b then a else c
    ensures b == n - 1 ==> c != n - 1
    ensures Stops(v0, t, base, n, a + 1, b - 1, c', pivot)
    ensures LowSide(v0, t, base, base + a + 1, pivot) && HighSide(v0, t, base + b, base + n, pivot)
  {
    OrderFacts(v0, s[base + b], pivot);
    OrderFacts(v0, pivot, pivot);
    hide InOrder;
    hide Before;
  }

  lemma Starts(v0: Vertex, s: seq<Vertex>, base: nat, n: nat, c: nat, pivot: Vertex)
    requires base + n <= |s| && 2 <= n && c == (n - 1) / 2 && s[base + c] == pivot
    ensures Stops(v0, s, base, n, 0, n - 1, c, pivot)
    ensures LowSide(v0, s, base, base, pivot) && HighSide(v0, s, base + n, base + n, pivot)
    ensures Rearranged(s, s, base, base + n)
  {
  }

  lemma StopsBound(v0: Vertex, s: seq<Vertex>, base: nat, n: nat, a: nat, b: int, c: nat, pivot: Vertex)
    requires base + n <= |s| && Stops(v0, s, base, n, a, b, c, pivot)
    ensures a <= b + 1 && b < n && c < n && s[base + c] == pivot
    ensures a == 0 ==> c < n - 1 && b == n - 1
    ensures a > 0 ==> b < n - 1
  {
  }

  // The scans met: only the pivot's slot can lie on both sides.
  lemma ScansMet(v0: Vertex, s: seq<Vertex>, base: nat, n: nat, a: nat, b: nat, c: nat, pivot: Vertex)
    requires base + n <= |s| && b <= a <= n && b < n && c < n && s[base + c] == pivot
    requires LowSide(v0, s, base, base + a, pivot)
    requires a < n && (a == c || !Before(v0, s[base + a], pivot))
    requires b == c || Before(v0, s[base + b], pivot)
    ensures LowSide(v0, s, base, base + b + 1, pivot)
  {
    OrderFacts(v0, pivot, pivot);
  }

  // Swap the pair the scans stopped on, and keep track of the pivot's slot.
  method SwapPair(v: array<Vertex>, base: nat, n: nat, a: nat, b: nat, c: nat, ghost pivot: Vertex) returns (c': nat)
    requires 1 <= base && base + n <= v.Length && a < b < n && c < n && v[base + c] == pivot
    requires LowSide(v[0], v[..], base, base + a, pivot) && HighSide(v[0], v[..], base + b + 1, base + n, pivot)
    requires a == c || !Before(v[0], v[base + a], pivot)
    requires b == c || Before(v[0], v[base + b], pivot)
    requires b < n - 1 || c < n - 1
    modifies v
    ensures v[0] == old(v[0]) && Rearranged(old(v[..]), v[..], base, base + n)
    ensures Stops(v[0], v[..], base, n, a + 1, b - 1, c', pivot)
    ensures LowSide(v[0], v[..], base, base + a + 1, pivot) && HighSide(v[0], v[..], base + b, base + n, pivot)
  {
    hide Before;
    hide LowSide;
    hide HighSide;
    hide Rearranged;
    hide Stops;
    ghost var t := v[..];
    Swap(v, base + a, base + b);
    SwapRearranges(t, v[..], base, base + n, base + a, base + b);
    c' := c;
    if c == a { c' := b; } else if c == b { c' := a; }
    SwapKeeps(v[0], t, v[..], base, n, a, b, c, c', pivot);
  }

  // Splits n vertices in two parts, neither empty, with the pivot between them in the order.
  // It terminates whatever the order is, transitive or not.
  method Partition(v: array<Vertex>, base: nat, n: nat) returns (left: nat, ghost pivot: Vertex)
    requires 1 <= base && base + n <= v.Length && 2 <= n
    modifies v
    ensures v[0] == old(v[0]) && 1 <= left < n && pivot in old(v[base..base + n])
    ensures Rearranged(old(v[..]), v[..], base, base + n)
    ensures LowSide(v[0], v[..], base, base + left, pivot) && HighSide(v[0], v[..], base + left, base + n, pivot)
  {
    hide Before;
    hide InOrder;
    hide LowSide;
    hide HighSide;
    hide Rearranged;
    hide Stops;
    var a: nat, b: int, c: nat := 0, n - 1, (0 + (n - 1)) / 2;
    pivot := v[base + c];
    ghost var v0, s := v[0], v[..];
    assert pivot == v[base..base + n][c];
    Starts(v0, s, base, n, c, pivot);
    var more := true;
    while more
      invariant v[0] == v0 && Rearranged(s, v[..], base, base + n)
      invariant more ==> Stops(v0, v[..], base, n, a, b, c, pivot)
      invariant more ==> a <= n && LowSide(v0, v[..], base, base + a, pivot)
      invariant more ==> -1 <= b < n && HighSide(v0, v[..], base + b + 1, base + n, pivot)
      invariant !more ==> 0 <= b < n - 1
      invariant !more ==> LowSide(v0, v[..], base, base + b + 1, pivot)
      invariant !more ==> HighSide(v0, v[..], base + b + 1, base + n, pivot)
      decreases more, b - a + 1
    {
      ghost var a0: nat, t := a, v[..];
      StopsBound(v0, t, base, n, a, b, c, pivot);
      a := ScanUp(v, base, n, a, b, c, pivot);
      b := ScanDown(v, base, n, a0, b, c, pivot);
      if a >= b {
        ScansMet(v0, t, base, n, a, b, c, pivot);
        more := false;
      } else {
        c := SwapPair(v, base, n, a, b, c, pivot);
        RearrangedTwice(s, t, v[..], base, base + n);
        a, b := a + 1, b - 1;
      }
    }
    left := b + 1;
  }

  // --- the sort ------------------------------------------------------------------------------------

  lemma InOrderTransitive(v0: Vertex, w: Vec, a: Vertex, b: Vertex, c: Vertex)
    requires Ahead(w, Rel(v0, a)) && Ahead(w, Rel(v0, b)) && Ahead(w, Rel(v0, c))
    requires InOrder(v0, a, b) && InOrder(v0, b, c)
    ensures InOrder(v0, a, c)
  {
    hide Lt;
    hide Ahead;
    LeTransitive(w, Rel(v0, a), Rel(v0, b), Rel(v0, c));
  }

  // In order, except that nothing is said inside s[from..mid] nor inside s[mid..to].
  ghost predicate OrderedButTwo(v0: Vertex, s: seq<Vertex>, lo: nat, hi: nat, from: nat, mid: nat, to: nat)
    requires lo <= from <= mid <= to <= hi <= |s|
  {
    forall i, j {:trigger s[i], s[j]} ::
      lo <= i < j < hi && !(from <= i && j < mid) && !(mid <= i && j < to) ==> InOrder(v0, s[i], s[j])
  }

  // Split around a pivot, all ahead of w, nothing remains unsaid but what lies inside a part.
  lemma SplitOrders(v0: Vertex, w: Vec, s: seq<Vertex>, lo: nat, hi: nat, from: nat, mid: nat, to: nat, pivot: Vertex)
    requires lo <= from <= mid <= to <= hi <= |s| && OrderedBut(v0, s, lo, hi, from, to)
    requires LowSide(v0, s, from, mid, pivot) && HighSide(v0, s, mid, to, pivot)
    requires Ahead(w, Rel(v0, pivot)) && AllAhead(v0, w, s[lo..hi])
    ensures OrderedButTwo(v0, s, lo, hi, from, mid, to)
  {
    hide InOrder;
    hide Ahead;
    hide Rel;
    forall i, j {:trigger s[i], s[j]} | lo <= i < j < hi && !(from <= i && j < mid) && !(mid <= i && j < to)
      ensures InOrder(v0, s[i], s[j])
    {
      if from <= i < mid <= j < to {
        assert s[lo..hi][i - lo] in s[lo..hi] && s[lo..hi][j - lo] in s[lo..hi];
        InOrderTransitive(v0, w, s[i], pivot, s[j]);
      }
    }
  }

  // Sorting one of the parts leaves only the other.
  lemma PartDone(v0: Vertex, s: seq<Vertex>, t: seq<Vertex>, lo: nat, hi: nat, from: nat, mid: nat, to: nat,
                 x: nat, y: nat)
    requires lo <= from < mid < to <= hi <= |s| && OrderedButTwo(v0, s, lo, hi, from, mid, to)
    requires (x == from && y == mid) || (x == mid && y == to)
    requires Rearranged(s, t, x, y) && Ordered(v0, t[x..y])
    ensures x == from ==> OrderedBut(v0, t, lo, hi, mid, to)
    ensures x == mid ==> OrderedBut(v0, t, lo, hi, from, mid)
  {
    hide InOrder;
    forall i, j {:trigger t[i], t[j]} | lo <= i < j < hi && (i < x || j >= y) && !(from <= i && j < mid)
                                        && !(mid <= i && j < to)
      ensures InOrder(v0, t[i], t[j])
    {
      var i', j' := i, j;
      if x <= i < y { i' := RearrangedMembers(s, t, x, y, i); }
      if x <= j < y { j' := RearrangedMembers(s, t, x, y, j); }
      RearrangedOutside(s, t, x, y);
      assert InOrder(v0, s[i'], s[j']);
    }
    forall i, j {:trigger t[i], t[j]} | x <= i < j < y
      ensures InOrder(v0, t[i], t[j])
    {
      assert t[i] == t[x..y][i - x] && t[j] == t[x..y][j - x];
    }
  }

  lemma RearrangedOutside(s: seq<Vertex>, t: seq<Vertex>, from: nat, to: nat)
    requires Rearranged(s, t, from, to)
    ensures forall i {:trigger t[i]} :: 0 <= i < |s| && !(from <= i < to) ==> t[i] == s[i]
  {
    forall i {:trigger t[i]} | 0 <= i < |s| && !(from <= i < to)
      ensures t[i] == s[i]
    {
      assert i < from ==> t[i] == t[..from][i];
      assert i >= to ==> t[i] == t[to..][i - to];
    }
  }

  lemma AheadKept(v0: Vertex, w: Vec, s: seq<Vertex>, t: seq<Vertex>, from: nat, to: nat)
    requires Rearranged(s, t, from, to) && AllAhead(v0, w, s[from..to])
    ensures AllAhead(v0, w, t[from..to])
  {
    forall p {:trigger p in t[from..to]} | p in t[from..to]
      ensures Ahead(w, Rel(v0, p))
    {
      assert p in multiset(t[from..to]);
      assert p in s[from..to];
    }
  }

  lemma AheadPart(v0: Vertex, w: Vec, s: seq<Vertex>, lo: nat, hi: nat, from: nat, to: nat)
    requires lo <= from <= to <= hi <= |s| && AllAhead(v0, w, s[lo..hi])
    ensures AllAhead(v0, w, s[from..to])
  {
    forall p {:trigger p in s[from..to]} | p in s[from..to]
      ensures Ahead(w, Rel(v0, p))
    {
      var k :| 0 <= k < to - from && s[from..to][k] == p;
      assert s[lo..hi][from - lo + k] in s[lo..hi];
    }
  }

  // What one turn of the loop does to the order.
  lemma TurnDone(v0: Vertex, w: Vec, s: seq<Vertex>, t: seq<Vertex>, u: seq<Vertex>, lo: nat, hi: nat,
                 from: nat, mid: nat, to: nat, pivot: Vertex, x: nat, y: nat)
    requires lo <= from < mid < to <= hi <= |s| && |u| == |t| == |s| && AllAhead(v0, w, s[lo..hi])
    requires OrderedBut(v0, s, lo, hi, from, to) && Rearranged(s, t, from, to)
    requires pivot in s[from..to] && LowSide(v0, t, from, mid, pivot) && HighSide(v0, t, mid, to, pivot)
    requires (x == from && y == mid) || (x == mid && y == to)
    requires Rearranged(t, u, x, y) && (AllAhead(v0, w, t[x..y]) ==> Ordered(v0, u[x..y]))
    ensures x == from ==> OrderedBut(v0, u, lo, hi, mid, to)
    ensures x == mid ==> OrderedBut(v0, u, lo, hi, from, mid)
    ensures AllAhead(v0, w, u[lo..hi])
  {
    hide AllAhead;
    hide Rearranged;
    hide OrderedBut;
    hide OrderedButTwo;
    hide LowSide;
    hide HighSide;
    AheadMember(v0, w, s, lo, hi, from, to, pivot);
    OrderKept(v0, s, t, lo, hi, from, to);
    RearrangedWider(s, t, from, to, lo, hi);
    AheadKept(v0, w, s, t, lo, hi);
    SplitOrders(v0, w, t, lo, hi, from, mid, to, pivot);
    AheadPart(v0, w, t, lo, hi, x, y);
    PartDone(v0, t, u, lo, hi, from, mid, to, x, y);
    RearrangedWider(t, u, x, y, lo, hi);
    AheadKept(v0, w, t, u, lo, hi);
  }

  lemma AheadMember(v0: Vertex, w: Vec, s: seq<Vertex>, lo: nat, hi: nat, from: nat, to: nat, p: Vertex)
    requires lo <= from <= to <= hi <= |s| && AllAhead(v0, w, s[lo..hi]) && p in s[from..to]
    ensures Ahead(w, Rel(v0, p))
  {
    AheadPart(v0, w, s, lo, hi, from, to);
  }

  lemma NothingSaid(v0: Vertex, s: seq<Vertex>, lo: nat, hi: nat)
    requires lo <= hi <= |s|
    ensures Rearranged(s, s, lo, hi) && OrderedBut(v0, s, lo, hi, lo, hi)
  {
  }

  lemma AllSaid(v0: Vertex, s: seq<Vertex>, lo: nat, hi: nat, from: nat, to: nat)
    requires lo <= from <= to <= hi <= |s| && to <= from + 1 && OrderedBut(v0, s, lo, hi, from, to)
    ensures Ordered(v0, s[lo..hi])
  {
    var m := s[lo..hi];
    forall i, j {:trigger m[i], m[j]} | 0 <= i < j < |m|
      ensures InOrder(v0, m[i], m[j])
    {
      assert m[i] == s[lo + i] && m[j] == s[lo + j];
    }
  }

  // Whatever is said about lo..hi stays said.
  ghost predicate Said(v0: Vertex, w: Vec, s: seq<Vertex>, lo: nat, hi: nat, from: nat, to: nat) {
    lo <= from <= to <= hi <= |s| && AllAhead(v0, w, s[lo..hi]) && OrderedBut(v0, s, lo, hi, from, to)
  }

  // One turn of the loop: partition, sort the smaller part by a call, leave the larger one.
  method LoopTurn(v: array<Vertex>, base: nat, nmemb: nat, ghost lo: nat, ghost hi: nat, ghost w: Vec)
    returns (base': nat, nmemb': nat)
    requires 1 <= lo <= base && base + nmemb <= hi <= v.Length && nmemb > 1
    modifies v
    ensures base <= base' && base' + nmemb' <= base + nmemb && nmemb' < nmemb
    ensures v[0] == old(v[0]) && Rearranged(old(v[..]), v[..], lo, hi)
    ensures Said(old(v[0]), w, old(v[..]), lo, hi, base, base + nmemb) ==>
      Said(v[0], w, v[..], lo, hi, base', base' + nmemb')
    decreases nmemb, 0
  {
    hide Ordered;
    hide AllAhead;
    hide Rearranged;
    hide OrderedBut;
    hide LowSide;
    hide HighSide;
    ghost var v0, s, to := v[0], v[..], base + nmemb;
    var b;
    ghost var pivot;
    b, pivot := Partition(v, base, nmemb);
    ghost var t, mid := v[..], base + b;
    assert s[base..to] == old(v[base..base + nmemb]);
    if b < nmemb - b {
      QSort(v, base, b, w);
      base', nmemb' := base + b, nmemb - b;
      assert v[..][base..mid] == v[base..mid];
      TurnKept(s, t, v[..], lo, hi, base, to, base, mid);
      if Said(v0, w, s, lo, hi, base, to) { TurnDone(v0, w, s, t, v[..], lo, hi, base, mid, to, pivot, base, mid); }
    } else {
      QSort(v, base + b, nmemb - b, w);
      base', nmemb' := base, b;
      assert v[..][mid..to] == v[mid..to];
      TurnKept(s, t, v[..], lo, hi, base, to, mid, to);
      if Said(v0, w, s, lo, hi, base, to) { TurnDone(v0, w, s, t, v[..], lo, hi, base, mid, to, pivot, mid, to); }
    }
  }

  lemma TurnKept(s: seq<Vertex>, t: seq<Vertex>, u: seq<Vertex>, lo: nat, hi: nat,
                 from: nat, to: nat, x: nat, y: nat)
    requires Rearranged(s, t, from, to) && Rearranged(t, u, x, y)
    requires lo <= from <= to <= hi <= |s| && lo <= x <= y <= hi && |u| == |t| == |s|
    ensures Rearranged(s, u, lo, hi)
  {
    hide Rearranged;
    RearrangedWider(s, t, from, to, lo, hi);
    RearrangedWider(t, u, x, y, lo, hi);
    RearrangedTwice(s, t, u, lo, hi);
  }

  // The smaller part is sorted by a call and the larger one by another turn of the loop. The
  // result is always a rearrangement; it is in order when everything lies ahead of some w.
  method QSort(v: array<Vertex>, base_: nat, nmemb_: nat, ghost w: Vec)
    requires 1 <= base_ && base_ + nmemb_ <= v.Length
    modifies v
    ensures v[0] == old(v[0]) && Rearranged(old(v[..]), v[..], base_, base_ + nmemb_)
    ensures AllAhead(old(v[0]), w, old(v[base_..base_ + nmemb_])) ==> Ordered(v[0], v[base_..base_ + nmemb_])
    decreases nmemb_, 1
  {
    hide Ordered;
    hide AllAhead;
    hide Rearranged;
    hide OrderedBut;
    var base: nat, nmemb: nat := base_, nmemb_;
    ghost var lo, hi, v0, s := base_, base_ + nmemb_, v[0], v[..];
    assert s[lo..hi] == v[lo..hi];
    ghost var ahead := AllAhead(v0, w, s[lo..hi]);
    NothingSaid(v0, s, lo, hi);
    while nmemb > 1
      invariant lo <= base && base + nmemb <= hi && nmemb <= nmemb_ && v[0] == v0
      invariant Rearranged(s, v[..], lo, hi)
      invariant ahead ==> Said(v0, w, v[..], lo, hi, base, base + nmemb)
      decreases nmemb
    {
      ghost var t := v[..];
      base, nmemb := LoopTurn(v, base, nmemb, lo, hi, w);
      RearrangedTwice(s, t, v[..], lo, hi);
    }
    if ahead { AllSaid(v0, v[..], lo, hi, base, base + nmemb); }
    assert v[..][lo..hi] == v[lo..hi];
  }
}
