// Robin Hood layouts have the least sum of squared probe sequence lengths, hence,
// the total being the same for all, the least variance.
module Variance {
  import opened Words
  import opened Ring
  import opened Table
  import opened Layout

  ghost function Square(bucket: Bucket): int {
    if bucket.key == 0 then 0 else bucket.psl * bucket.psl
  }

  /** Sum of the squared psl of the records in the first n buckets. */
  ghost function TotalSquares(t: seq<Bucket>, n: nat): int
    requires n <= |t|
  {
    if n == 0 then 0 else TotalSquares(t, n - 1) + Square(t[n - 1])
  }

  lemma {:induction false} SquaresOfPrefix(a: seq<Bucket>, b: seq<Bucket>, n: nat)
    requires n <= |a|
    ensures TotalSquares(a + b, n) == TotalSquares(a, n)
  {
    if n > 0 {
      SquaresOfPrefix(a, b, n - 1);
    }
  }

  lemma {:induction false} SquaresOfConcat(a: seq<Bucket>, b: seq<Bucket>, n: nat)
    requires n <= |b|
    ensures TotalSquares(a + b, |a| + n) == TotalSquares(a, |a|) + TotalSquares(b, n)
  {
    if n == 0 {
      SquaresOfPrefix(a, b, |a|);
    } else {
      SquaresOfConcat(a, b, n - 1);
    }
  }

  lemma SquaresSwap(a: seq<Bucket>, b: seq<Bucket>)
    ensures TotalSquares(a + b, |a| + |b|) == TotalSquares(b + a, |a| + |b|)
  {
    SquaresOfConcat(a, b, |b|);
    SquaresOfConcat(b, a, |a|);
  }

  // ---- Tables cut open at an empty bucket ----

  /** The buckets of t in order, starting from b. */
  ghost function CutAt(t: seq<Bucket>, b: nat): seq<Bucket>
    requires b < |t|
  {
    t[b..] + t[..b]
  }

  lemma CutBucket(t: seq<Bucket>, b: nat, p: nat)
    requires b < |t| && p < |t|
    ensures CutAt(t, b)[p] == t[Advance(b, p, |t|)]
  {
  }

  lemma CutKeepsSquares(t: seq<Bucket>, b: nat)
    requires b < |t|
    ensures TotalSquares(CutAt(t, b), |t|) == TotalSquares(t, |t|)
  {
    SquaresSwap(t[..b], t[b..]);
    assert t[..b] + t[b..] == t;
  }

  lemma CutKeepsKeys(t: seq<Bucket>, b: nat)
    requires Unique(t) && b < |t|
    ensures Unique(CutAt(t, b)) && Keys(CutAt(t, b)) == Keys(t)
  {
    var r := CutAt(t, b);
    forall k | k in Keys(t)
      ensures k in Keys(r)
    {
      AdvanceDist(b, At(t, k), |t|);
      CutBucket(t, b, Dist(b, At(t, k), |t|));
    }
    forall k | k in Keys(r)
      ensures k in Keys(t)
    {
      CutBucket(t, b, At(r, k));
    }
  }

  /** Every psl is the position less the home, h, both counted from the cut. */
  ghost predicate Measured(r: seq<Bucket>, h: nat -> int) {
    forall p :: 0 <= p < |r| && r[p].key != 0 ==> r[p].psl == p - h(r[p].key)
  }

  ghost predicate HomesAscend(r: seq<Bucket>, h: nat -> int) {
    forall p, q :: 0 <= p < q < |r| && r[p].key != 0 && r[q].key != 0 ==> h(r[p].key) <= h(r[q].key)
  }

  lemma CutIsMeasured(t: seq<Bucket>, g: Geometry, b: nat)
    requires NoHoles(t, g) && b < |t| && t[Prev(b, |t|)].key == 0
    ensures Measured(CutAt(t, b), HomeFromStart(b, g))
  {
    forall p: nat | p < |t| && CutAt(t, b)[p].key != 0
      ensures CutAt(t, b)[p].psl == p - HomeFromStart(b, g)(CutAt(t, b)[p].key)
    {
      CutBucket(t, b, p);
      HomeInCluster(t, g, b, Advance(b, p, |t|));
    }
  }

  lemma CutAscends(t: seq<Bucket>, g: Geometry, b: nat)
    requires RobinHood(t, g) && b < |t| && t[Prev(b, |t|)].key == 0
    ensures HomesAscend(CutAt(t, b), HomeFromStart(b, g))
  {
    var r, h := CutAt(t, b), HomeFromStart(b, g);
    RobinHoodHasNoHoles(t, g);
    CutIsMeasured(t, g, b);
    forall p: nat, q: nat | p < q < |r| && r[p].key != 0 && r[q].key != 0
      ensures h(r[p].key) <= h(r[q].key)
    {
      var y, x := Advance(b, p, |t|), Advance(b, q, |t|);
      CutBucket(t, b, p);
      CutBucket(t, b, q);
      HomesAreSorted(t, g, y, x);
      Between(b, y, x, |t|);
    }
  }

  // ---- Partial sums of homes ----

  /** Among sets of one size, the one with the smallest elements has the least sum. */
  lemma {:induction false} SmallestSum(a: set<nat>, b: set<nat>, f: nat -> int)
    requires |a| == |b| && forall x, y :: x in a && y in b - a ==> f(x) <= f(y)
    ensures Sum(a, f) <= Sum(b, f)
    decreases |a - b|
  {
    Differences(a, b);
    if a - b == {} {
      assert a == b;
    } else {
      var x, y :| x in a - b && y in b - a;
      var b' := b - {y} + {x};
      assert a - b' == (a - b) - {x} && b' - a == (b - a) - {y};
      SmallestSum(a, b', f);
      SumAdd(b - {y}, x, f);
      SumAdd(b - {y}, y, f);
      assert b - {y} + {y} == b;
    }
  }

  lemma Differences(a: set<nat>, b: set<nat>)
    requires |a| == |b|
    ensures |a - b| == |b - a| && (a - b == {} ==> a == b)
  {
    assert a == (a - b) + a * b && b == (b - a) + a * b;
    assert |a| == |a - b| + |a * b| && |b| == |b - a| + |a * b|;
  }

  /** At every point, the homes met so far add up to no more in the sorted table. */
  lemma HomesSoFar(r: seq<Bucket>, s: seq<Bucket>, h: nat -> int, n: nat)
    requires SameSlots(r, s) && Unique(r) && Unique(s) && Keys(r) == Keys(s) && HomesAscend(r, h) && n <= |r|
    ensures HomeSum(r, h, n) <= HomeSum(s, h, n)
  {
    HomeSumIs(r, h, n);
    HomeSumIs(s, h, n);
    ItemCountUpTo(r, n);
    ItemCountUpTo(s, n);
    assert OccupiedUpTo(r, n) == OccupiedUpTo(s, n);
    var a, b := KeysUpTo(r, n), KeysUpTo(s, n);
    forall x, y | x in a && y in b - a
      ensures h(x) <= h(y)
    {
      assert y in Keys(r);
      var p: nat :| p < n && r[p].key == x && x != 0;
      assert At(r, y) >= n;
    }
    SmallestSum(a, b, h);
  }

  ghost function Squared(h: nat -> int): nat -> int {
    (k: nat) => h(k) * h(k)
  }

  /** Excess a of one sum of squares over another, less the part b due to the
      squares of the homes, with what the homes still to come can take back. */
  ghost function Balance(a: int, b: int, d: int, n: int): int {
    a - b + 2 * n * d
  }

  lemma BalanceStep(a: int, b: int, d: int, n: int, x: int, y: int, sx: int, sy: int)
    ensures sx == (n - x) * (n - x) && sy == (n - y) * (n - y) ==>
      Balance(a + sx - sy, b + x * x - y * y, d + x - y, n + 1) == Balance(a, b, d, n) + 2 * (d + x - y)
    ensures Balance(a, b, d, n + 1) == Balance(a, b, d, n) + 2 * d
  {
    assert (n - x) * (n - x) == n * n - 2 * n * x + x * x;
    assert (n - y) * (n - y) == n * n - 2 * n * y + y * y;
    assert 2 * (n + 1) * (d + x - y) == 2 * n * d + 2 * n * x - 2 * n * y + 2 * (d + x - y);
  }

  /** The balance of s against r after n buckets. */
  ghost function Excess(r: seq<Bucket>, s: seq<Bucket>, h: nat -> int, n: nat): int
    requires n <= |r| == |s|
  {
    Balance(TotalSquares(s, n) - TotalSquares(r, n), HomeSum(s, Squared(h), n) - HomeSum(r, Squared(h), n),
            HomeSum(s, h, n) - HomeSum(r, h, n), n)
  }

  lemma ExcessStep(r: seq<Bucket>, s: seq<Bucket>, h: nat -> int, n: nat)
    requires SameSlots(r, s) && Measured(r, h) && Measured(s, h) && n < |r|
    ensures Excess(r, s, h, n + 1) == Excess(r, s, h, n) + 2 * (HomeSum(s, h, n + 1) - HomeSum(r, h, n + 1))
  {
    BalanceStep(TotalSquares(s, n) - TotalSquares(r, n), HomeSum(s, Squared(h), n) - HomeSum(r, Squared(h), n),
        HomeSum(s, h, n) - HomeSum(r, h, n), n, h(s[n].key), h(r[n].key), Square(s[n]), Square(r[n]));
  }

  lemma {:induction false} ExcessIsNonNegative(r: seq<Bucket>, s: seq<Bucket>, h: nat -> int, n: nat)
    requires SameSlots(r, s) && Unique(r) && Unique(s) && Measured(r, h) && Measured(s, h)
    requires Keys(r) == Keys(s) && HomesAscend(r, h) && n <= |r|
    ensures Excess(r, s, h, n) >= 0
  {
    if n > 0 {
      ExcessIsNonNegative(r, s, h, n - 1);
      ExcessStep(r, s, h, n - 1);
      HomesSoFar(r, s, h, n);
    }
  }

  lemma SquaresCompare(r: seq<Bucket>, s: seq<Bucket>, h: nat -> int)
    requires SameSlots(r, s) && Unique(r) && Unique(s) && Measured(r, h) && Measured(s, h)
    requires Keys(r) == Keys(s) && HomesAscend(r, h)
    ensures TotalSquares(r, |r|) <= TotalSquares(s, |s|)
  {
    ExcessIsNonNegative(r, s, h, |r|);
    SameHomeSum(r, s, h);
    SameHomeSum(r, s, Squared(h));
  }

  /** Robin Hood gives the least sum of squared psl among all hole-free layouts of
      the same keys; their counts and total psl being equal, the least variance. */
  lemma VarianceIsLeast(t: seq<Bucket>, u: seq<Bucket>, g: Geometry)
    requires RobinHood(t, g) && HasEmpty(t) && NoHoles(u, g) && Keys(t) == Keys(u)
    ensures TotalSquares(t, |t|) <= TotalSquares(u, |u|)
    ensures TotalPsl(t, |t|) == TotalPsl(u, |u|) && |Occupied(t)| == |Occupied(u)|
  {
    RobinHoodHasNoHoles(t, g);
    SameCount(t, u);
    TotalIsInvariant(t, u, g);
    var b := CommonCut(t, u, g);
    CutKeepsSquares(t, b);
    CutKeepsSquares(u, b);
    CutKeepsKeys(t, b);
    CutKeepsKeys(u, b);
    CutIsMeasured(t, g, b);
    CutIsMeasured(u, g, b);
    CutAscends(t, g, b);
    CutSameSlots(t, u, b);
    SquaresCompare(CutAt(t, b), CutAt(u, b), HomeFromStart(b, g));
  }

  lemma CutSameSlots(t: seq<Bucket>, u: seq<Bucket>, b: nat)
    requires SameSlots(t, u) && b < |t|
    ensures SameSlots(CutAt(t, b), CutAt(u, b))
  {
    forall p: nat | p < |t|
      ensures CutAt(t, b)[p].key != 0 <==> CutAt(u, b)[p].key != 0
    {
      CutBucket(t, b, p);
      CutBucket(u, b, p);
    }
  }
}
