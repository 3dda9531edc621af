/** The block exchange of getopt's permute_args, done by following cycles. */
module Rotation {
  import opened Gcd

  /** Where the element at offset p of a range of n + m elements goes when its
      first n elements trade places with its last m. */
  function Step(n: nat, m: nat, p: int): (q: int)
    requires 0 <= p < n + m
    ensures 0 <= q < n + m
  {
    if p >= n then p - n else p + m
  }

  /** The offset reached from offset n + i after k steps. */
  function Orbit(n: nat, m: nat, i: nat, k: nat): (q: int)
    requires i < m
    ensures 0 <= q < n + m
  {
    if k == 0 then n + i else Step(n, m, Orbit(n, m, i, k - 1))
  }

  /** The range with its two blocks exchanged. */
  function Exchanged<T>(s: seq<T>, start: nat, mid: nat, end: nat): (r: seq<T>)
    requires start <= mid <= end <= |s|
    ensures |r| == |s|
  {
    s[..start] + s[mid..end] + s[start..mid] + s[end..]
  }

  /** Closed form of an orbit, with the number of wrap-arounds made explicit. */
  lemma {:induction false} OrbitClosed(n: nat, m: nat, i: nat, k: nat) returns (w: int)
    requires i < m
    ensures Orbit(n, m, i, k) == n + i + k * m - w * (n + m)
  {
    if k == 0 {
      w := 0;
    } else {
      w := OrbitClosed(n, m, i, k - 1);
      assert k * m == (k - 1) * m + m;
      if Orbit(n, m, i, k - 1) >= n {
        assert (w + 1) * (n + m) == w * (n + m) + (n + m);
        w := w + 1;
      }
    }
  }

  /** What the cycle count and the cycle length are: L == n + m, d their gcd. */
  ghost predicate Cycles(n: nat, m: nat, d: int, len: int) {
    && n > 0 && m > 0
    && IsGcd(d, n, m)
    && len == (n + m) / d
  }

  lemma CycleShape(n: nat, m: nat, d: int, len: int)
    requires Cycles(n, m, d, len)
    ensures d * len == n + m && n == d * (n / d) && m == d * (m / d)
    ensures 0 < len && d <= n && d <= m
  {
    CombinationMod(1, n, 1, m, d);
    assert 1 * n + 1 * m == n + m;
    DivisorBound(d, n);
    DivisorBound(d, m);
    DivisorBound(d, n + m);
  }

  lemma SmallMultiple(u: int, d: int)
    requires -d < u * d < d
    ensures u == 0
  {
  }

  lemma SameResidue(p: int, q: int, d: int, t: int)
    requires d > 0 && q == p + t * d
    ensures q % d == p % d
  {
    var a, b := p / d, q / d;
    assert p == a * d + p % d && q == b * d + q % d;
    assert (b - a - t) * d == p % d - q % d;
    SmallMultiple(b - a - t, d);
  }

  lemma StepResidue(n: nat, m: nat, d: int, p: int)
    requires d > 0 && DividesBoth(d, n, m) && 0 <= p < n + m
    ensures Step(n, m, p) % d == p % d
  {
    assert n == (n / d) * d && m == (m / d) * d;
    if p >= n {
      var t := 0 - n / d;
      assert t * d == 0 - n;
      SameResidue(p, Step(n, m, p), d, t);
    } else {
      SameResidue(p, Step(n, m, p), d, m / d);
    }
  }

  lemma FirstResidue(n: nat, m: nat, d: int, i: nat)
    requires 0 < d && DividesBoth(d, n, m) && i < d
    ensures (n + i) % d == i
  {
    assert n == (n / d) * d;
    SameResidue(i, n + i, d, n / d);
  }

  /** An orbit stays within one residue class modulo the gcd. */
  lemma {:induction false} OrbitResidue(n: nat, m: nat, d: int, i: nat, k: nat)
    requires 0 < d <= m && DividesBoth(d, n, m) && i < d
    ensures Orbit(n, m, i, k) % d == i
  {
    if k == 0 {
      FirstResidue(n, m, d, i);
    } else {
      OrbitResidue(n, m, d, i, k - 1);
      StepResidue(n, m, d, Orbit(n, m, i, k - 1));
    }
  }

  lemma CombineMultiples(t: int, x: int, y: int, n: int, m: int, r: int, d: int)
    requires t * m == r * (n + m) && d == x * n + y * m
    ensures t * d == (t * x + (y - x) * r) * (n + m)
  {
  }

  lemma CancelFactor(d: int, t: int, c: int, len: int)
    requires d > 0 && t * d == c * (d * len)
    ensures t == c * len
  {
  }

  lemma Distribute(a: int, b: int, c: int)
    ensures (a - b) * c == a * c - b * c
  {
  }

  /** Two visits to one position are a number of steps apart that goes round in full turns. */
  lemma MeetingDistance(n: nat, m: nat, i: nat, j: nat, k: nat) returns (r: int)
    requires i < m && Orbit(n, m, i, j) == Orbit(n, m, i, k)
    ensures (k - j) * m == r * (n + m)
  {
    var w := OrbitClosed(n, m, i, j);
    var v := OrbitClosed(n, m, i, k);
    Distribute(k, j, m);
    Distribute(v, w, n + m);
    r := v - w;
  }

  /** No position is met twice within fewer than len steps. */
  lemma NoEarlyReturn(n: nat, m: nat, d: int, len: int, i: nat, j: nat, k: nat)
    requires Cycles(n, m, d, len) && i < m
    requires j < k && k - j < len
    ensures Orbit(n, m, i, j) != Orbit(n, m, i, k)
  {
    if Orbit(n, m, i, j) == Orbit(n, m, i, k) {
      var r := MeetingDistance(n, m, i, j, k);
      var x, y := GcdIsCombination(d, n, m);
      var t := k - j;
      CombineMultiples(t, x, y, n, m, r, d);
      CycleShape(n, m, d, len);
      CancelFactor(d, t, t * x + (y - x) * r, len);
      SmallMultiple(t * x + (y - x) * r, len);
      assert false;
    }
  }

  lemma TurnLength(d: int, len: int, m: int, m': int, L: int)
    requires d * len == L && m == d * m'
    ensures len * m == m' * L
  {
  }

  lemma FullTurn(n: nat, m: nat, d: int, len: nat, i: nat)
    requires i < m && d * len == n + m && m == d * (m / d)
    ensures Orbit(n, m, i, len) == n + i
  {
    var m' := m / d;
    TurnLength(d, len, m, m', n + m);
    assert 0 - m' * (n + m) == (0 - m') * (n + m);
    ReachedOffset(n, m, i, len, 0 - m', n + i);
  }

  /** Each orbit is back at its start after exactly len steps and no sooner. */
  lemma OrbitReturns(n: nat, m: nat, d: int, len: int, i: nat)
    requires Cycles(n, m, d, len) && i < d
    ensures i < m && 0 < len
    ensures Orbit(n, m, i, len) == n + i
    ensures forall j, k :: 0 <= j < k && k - j < len ==> Orbit(n, m, i, j) != Orbit(n, m, i, k)
  {
    CycleShape(n, m, d, len);
    FullTurn(n, m, d, len, i);
    forall j, k | 0 <= j < k && k - j < len
      ensures Orbit(n, m, i, j) != Orbit(n, m, i, k)
    {
      NoEarlyReturn(n, m, d, len, i, j, k);
    }
  }

  lemma SplitDistance(s: int, x: int, y: int, n: int, m: int, d: int, len: int, m': int, k: int, q: int)
    requires d == x * n + y * m && n + m == d * len && m == d * m'
    requires s * (y - x) == q * len + k
    ensures s * d == (s * x + q * m') * (n + m) + k * m
  {
  }

  lemma ReachedOffset(n: nat, m: nat, i: nat, k: nat, c: int, p: int)
    requires i < m && 0 <= p < n + m && p - (n + i) == c * (n + m) + k * m
    ensures Orbit(n, m, i, k) == p
  {
    var w := OrbitClosed(n, m, i, k);
    assert (c + w) * (n + m) == c * (n + m) + w * (n + m);
    SmallMultiple(c + w, n + m);
  }

  /** Every offset of a residue class is on the orbit that starts in that class. */
  lemma OrbitCovers(n: nat, m: nat, d: int, len: int, p: int) returns (k: nat)
    requires Cycles(n, m, d, len) && 0 <= p < n + m
    ensures p % d < m && k < len && Orbit(n, m, p % d, k) == p
  {
    CycleShape(n, m, d, len);
    var x, y := GcdIsCombination(d, n, m);
    var s := p / d - n / d;
    Distribute(p / d, n / d, d);
    k := s * (y - x) % len;
    var q := s * (y - x) / len;
    SplitDistance(s, x, y, n, m, d, len, m / d, k, q);
    ReachedOffset(n, m, p % d, k, s * x + q * (m / d), p);
  }

  /** The orbits that start at n + i, for i below the gcd, cut the whole range into
      cycles: every offset lies on exactly one of them, at exactly one of its len places. */
  lemma OrbitsPartition(n: nat, m: nat, d: int, len: int, p: int)
    requires Cycles(n, m, d, len) && 0 <= p < n + m
    ensures d <= m
    ensures exists i: nat, k: nat :: i < d && k < len && Orbit(n, m, i, k) == p
    ensures forall i: nat, k: nat, i': nat, k': nat ::
      i < d && k < len && i' < d && k' < len && Orbit(n, m, i, k) == p == Orbit(n, m, i', k') ==>
        i == i' && k == k'
  {
    CycleShape(n, m, d, len);
    var k0 := OrbitCovers(n, m, d, len, p);
    assert p % d < d && Orbit(n, m, p % d, k0) == p;
    forall i: nat, k: nat, i': nat, k': nat |
      i < d && k < len && i' < d && k' < len && Orbit(n, m, i, k) == p == Orbit(n, m, i', k')
      ensures i == i' && k == k'
    {
      OrbitResidue(n, m, d, i, k);
      OrbitResidue(n, m, d, i', k');
      OrbitReturns(n, m, d, len, i);
    }
  }

  /** One cycle of permute_args. The path lists the positions met, from mid + i back to
      mid + i: every element on it moves one place on, and nothing off it is touched. */
  method FollowCycle<T>(a: array<T>, start: nat, mid: nat, end: nat, i: nat, cyclelen: nat, ghost path: seq<int>)
    requires start <= mid <= mid + i < end <= a.Length
    requires |path| == cyclelen + 1 && path[0] == mid + i == path[cyclelen]
    requires forall k :: 0 <= k <= cyclelen ==> start <= path[k] < end
    requires forall k {:trigger path[k + 1]} :: 0 <= k < cyclelen ==>
      path[k + 1] == if path[k] >= mid then path[k] - (mid - start) else path[k] + (end - mid)
    requires forall j, k :: 0 <= j < k <= cyclelen && k - j < cyclelen ==> path[j] != path[k]
    modifies a
    ensures forall k {:trigger path[k + 1]} :: 0 <= k < cyclelen ==> a[path[k + 1]] == old(a[path[k]])
    ensures forall p :: 0 <= p < a.Length && p !in path ==> a[p] == old(a[p])
  {
    var nnonopts, nopts := mid - start, end - mid;
    var cstart := mid + i;
    var pos := cstart;
    for j := 0 to cyclelen
      invariant pos == path[j]
      invariant forall k {:trigger path[k + 1]} :: 0 <= k < j ==> a[path[k + 1]] == old(a[path[k]])
      invariant j < cyclelen ==> a[cstart] == old(a[path[j]])
      invariant forall k :: j < k < cyclelen ==> a[path[k]] == old(a[path[k]])
      invariant forall p :: 0 <= p < a.Length && p !in path ==> a[p] == old(a[p])
    {
      if pos >= mid {
        pos := pos - nnonopts;
      } else {
        pos := pos + nopts;
      }
      assert pos == path[j + 1];
      var swap := a[pos];
      a[pos] := a[cstart];
      a[cstart] := swap;
    }
  }

  /** The positions one cycle of permute_args meets. */
  ghost function Path(start: nat, n: nat, m: nat, i: nat, len: nat): (r: seq<int>)
    requires i < m
    ensures |r| == len + 1
  {
    seq(len + 1, k requires 0 <= k <= len => start + Orbit(n, m, i, k))
  }

  /** The cycles of the residue classes below i are done: their elements have moved one
      step, all other elements of s are still in place. */
  ghost predicate Moved<T>(s: seq<T>, r: seq<T>, start: nat, n: nat, m: nat, d: int, i: nat)
    requires d > 0 && start + n + m <= |s| == |r|
  {
    && (forall p {:trigger Step(n, m, p)} :: 0 <= p < n + m && p % d < i ==> r[start + Step(n, m, p)] == s[start + p])
    && (forall p :: 0 <= p < n + m && p % d >= i ==> r[start + p] == s[start + p])
    && (forall p :: 0 <= p < |s| && !(start <= p < start + n + m) ==> r[p] == s[p])
  }

  /** Moving every element one step exchanges the two blocks. */
  lemma StepExchanges<T>(s: seq<T>, r: seq<T>, start: nat, n: nat, m: nat)
    requires start + n + m <= |s| == |r|
    requires forall p {:trigger Step(n, m, p)} :: 0 <= p < n + m ==> r[start + Step(n, m, p)] == s[start + p]
    requires forall p :: 0 <= p < |s| && !(start <= p < start + n + m) ==> r[p] == s[p]
    ensures r == Exchanged(s, start, start + n, start + n + m)
  {
    var mid, end := start + n, start + n + m;
    forall q | start <= q < start + m
      ensures r[q] == s[q + n]
    {
      assert Step(n, m, q - start + n) == q - start;
    }
    forall q | start + m <= q < end
      ensures r[q] == s[q - m]
    {
      assert Step(n, m, q - start - m) == q - start;
    }
    hide Step, Exchanged;
    assert r[start..start + m] == s[mid..end];
    assert r[start + m..end] == s[start..mid];
    assert r[..start] == s[..start] && r[end..] == s[end..];
    PartsExchanged(s, r, start, mid, end);
  }

  lemma PartsExchanged<T>(s: seq<T>, r: seq<T>, start: nat, mid: nat, end: nat)
    requires start <= mid <= end <= |s| == |r|
    requires r[..start] == s[..start] && r[start..start + end - mid] == s[mid..end]
    requires r[start + end - mid..end] == s[start..mid] && r[end..] == s[end..]
    ensures r == Exchanged(s, start, mid, end)
  {
    var m := start + end - mid;
    assert r == r[..start] + r[start..m] + r[m..end] + r[end..];
  }

  lemma OffPath(start: nat, n: nat, m: nat, d: int, len: nat, i: nat, p: int)
    requires 0 < d <= m && DividesBoth(d, n, m) && i < d && 0 <= p < n + m && p % d != i
    ensures start + p !in Path(start, n, m, i, len)
  {
    forall k | 0 <= k <= len
      ensures Path(start, n, m, i, len)[k] != start + p
    {
      OrbitResidue(n, m, d, i, k);
    }
  }

  lemma OnPath(start: nat, n: nat, m: nat, d: int, len: nat, p: int) returns (k: nat)
    requires Cycles(n, m, d, len) && d <= m && 0 <= p < n + m
    ensures k < len
    ensures var path := Path(start, n, m, p % d, len);
      path[k] == start + p && path[k + 1] == start + Step(n, m, p)
  {
    k := OrbitCovers(n, m, d, len, p);
  }

  /** One more cycle done. */
  lemma MovedNext<T>(s: seq<T>, before: seq<T>, r: seq<T>, start: nat, n: nat, m: nat, d: int, len: nat, i: nat,
      path: seq<int>)
    requires Cycles(n, m, d, len) && i < d <= m && start + n + m <= |s| == |before| == |r|
    requires Moved(s, before, start, n, m, d, i)
    requires path == Path(start, n, m, i, len)
    requires forall k :: 0 <= k <= len ==> start <= path[k] < start + n + m
    requires forall k {:trigger path[k + 1]} :: 0 <= k < len ==> r[path[k + 1]] == before[path[k]]
    requires forall p :: 0 <= p < |s| && p !in path ==> r[p] == before[p]
    ensures Moved(s, r, start, n, m, d, i + 1)
  {
    forall p | 0 <= p < n + m && p % d != i
      ensures r[start + p] == before[start + p]
    {
      OffPath(start, n, m, d, len, i, p);
    }
    forall p | 0 <= p < n + m && p % d < i + 1
      ensures r[start + Step(n, m, p)] == s[start + p]
    {
      StepResidue(n, m, d, p);
      if p % d == i {
        var k := OnPath(start, n, m, d, len, p);
      }
    }
  }

  /** The orbit of i is a path permute_args can follow. */
  lemma PathShape(start: nat, n: nat, m: nat, d: int, len: nat, i: nat)
    requires Cycles(n, m, d, len) && i < d <= m
    ensures var path := Path(start, n, m, i, len);
      && path[0] == start + n + i == path[len]
      && (forall k :: 0 <= k <= len ==> start <= path[k] < start + n + m)
      && (forall k {:trigger path[k + 1]} :: 0 <= k < len ==>
           path[k + 1] == if path[k] >= start + n then path[k] - n else path[k] + m)
      && (forall j, k :: 0 <= j < k <= len && k - j < len ==> path[j] != path[k])
  {
    OrbitReturns(n, m, d, len, i);
  }

  /** One round of the outer loop of permute_args. */
  method RotateClass<T>(nargv: array<T>, start: nat, mid: nat, end: nat, ghost s: seq<T>, ghost d: int,
      len: nat, i: nat)
    requires start < mid < end <= nargv.Length == |s|
    requires Cycles(mid - start, end - mid, d, len) && i < d <= end - mid
    requires Moved(s, nargv[..], start, mid - start, end - mid, d, i)
    modifies nargv
    ensures Moved(s, nargv[..], start, mid - start, end - mid, d, i + 1)
  {
    ghost var n, m := mid - start, end - mid;
    ghost var before := nargv[..];
    ghost var path := Path(start, n, m, i, len);
    PathShape(start, n, m, d, len, i);
    FollowCycle(nargv, start, mid, end, i, len, path);
    MovedNext(s, before, nargv[..], start, n, m, d, len, i, path);
  }

  lemma NothingMoved<T>(s: seq<T>, start: nat, n: nat, m: nat, d: int)
    requires d > 0 && start + n + m <= |s|
    ensures Moved(s, s, start, n, m, d, 0)
  {
  }

  lemma AllMoved<T>(s: seq<T>, r: seq<T>, start: nat, n: nat, m: nat, d: int)
    requires d > 0 && start + n + m <= |s| == |r| && Moved(s, r, start, n, m, d, d)
    ensures r == Exchanged(s, start, start + n, start + n + m)
  {
    StepExchanges(s, r, start, n, m);
  }

  /** permute_args: exchanges the blocks [start, mid) and [mid, end). */
  method PermuteArgs<T>(start: nat, mid: nat, end: nat, nargv: array<T>)
    requires start < mid < end <= nargv.Length
    modifies nargv
    ensures nargv[..] == Exchanged(old(nargv[..]), start, mid, end)
  {
    hide Moved, Exchanged, IsGcd;
    var nnonopts := mid - start;
    var nopts := end - mid;
    var ncycle := Gcd.Compute(nnonopts, nopts);
    var cyclelen := (end - start) / ncycle;
    CycleShape(nnonopts, nopts, ncycle, cyclelen);
    NothingMoved(nargv[..], start, nnonopts, nopts, ncycle);
    for i := 0 to ncycle
      invariant Moved(old(nargv[..]), nargv[..], start, nnonopts, nopts, ncycle, i)
    {
      RotateClass(nargv, start, mid, end, old(nargv[..]), ncycle, cyclelen, i);
    }
    AllMoved(old(nargv[..]), nargv[..], start, nnonopts, nopts, ncycle);
  }
}
