// Which layouts are possible for a given set of keys: history independence,
// optimality of the probe sequence lengths, and their bound.
module Layout {
  import opened Words
  import opened Ring
  import opened Table
  import opened Insertion

  /** Every bucket from one to the other, both included, is occupied. */
  ghost predicate ArcFull(t: seq<Bucket>, from: nat, to: nat)
    requires from < |t| && to < |t|
  {
    forall q: nat :: q < |t| && Dist(from, q, |t|) <= Dist(from, to, |t|) ==> t[q].key != 0
  }

  /** The probe path of the record in bucket i, if there is one, is occupied. */
  ghost predicate PathFull(t: seq<Bucket>, g: Geometry, i: nat)
    requires i < |t| == g.size
  {
    t[i].key != 0 ==> ArcFull(t, g.Home(t[i].key), i)
  }

  /** Any linear-probing layout: every record is labelled with its distance from
      home and no probe path crosses an empty bucket. */
  ghost predicate NoHoles(t: seq<Bucket>, g: Geometry) {
    && |t| == g.size > 0 && Unique(t)
    && (forall i :: 0 <= i < |t| ==> Placed(t, g, i) && PathFull(t, g, i))
  }

  lemma RobinHoodHasNoHoles(t: seq<Bucket>, g: Geometry)
    requires RobinHood(t, g)
    ensures NoHoles(t, g)
  {
    forall i: nat | i < |t|
      ensures Placed(t, g, i) && PathFull(t, g, i)
    {
      RobinHoodPathFull(t, g, i);
    }
  }

  lemma RobinHoodPathFull(t: seq<Bucket>, g: Geometry, i: nat)
    requires RobinHood(t, g) && i < |t|
    ensures Placed(t, g, i) && PathFull(t, g, i)
  {
    assert Placed(t, g, i);
    if t[i].key != 0 {
      var h := g.Home(t[i].key);
      forall q: nat | q < |t| && Dist(h, q, |t|) <= Dist(h, i, |t|)
        ensures t[q].key != 0
      {
        OnPath(t, g, i, q);
      }
    }
  }

  /** The keys held by the d buckets from b on. */
  ghost function ArcKeys(t: seq<Bucket>, b: nat, d: nat): (s: set<nat>)
    requires b < |t| && d <= |t|
    ensures |s| <= d
  {
    if d == 0 then {} else ArcKeys(t, b, d - 1) + {t[Advance(b, d - 1, |t|)].key}
  }

  lemma {:induction false} ArcKeysHas(t: seq<Bucket>, b: nat, d: nat, q: nat)
    requires b < |t| && d <= |t| && q < |t| && Dist(b, q, |t|) < d
    ensures t[q].key in ArcKeys(t, b, d)
  {
    AdvanceDist(b, q, |t|);
    if Dist(b, q, |t|) < d - 1 {
      ArcKeysHas(t, b, d - 1, q);
    }
  }

  lemma {:induction false} ArcKeyAt(t: seq<Bucket>, b: nat, d: nat, k: nat) returns (q: nat)
    requires b < |t| && d <= |t| && k in ArcKeys(t, b, d)
    ensures q < |t| && Dist(b, q, |t|) < d && t[q].key == k
  {
    q := Advance(b, d - 1, |t|);
    if t[q].key != k {
      q := ArcKeyAt(t, b, d - 1, k);
    }
  }

  lemma {:induction false} ArcKeysCount(t: seq<Bucket>, b: nat, d: nat)
    requires Unique(t) && b < |t| && d <= |t|
    requires forall q: nat :: q < |t| && Dist(b, q, |t|) < d ==> t[q].key != 0
    ensures |ArcKeys(t, b, d)| == d
  {
    if d > 0 {
      ArcKeysCount(t, b, d - 1);
      ArcKeyIsNew(t, b, d);
      SizeWithOneMore(ArcKeys(t, b, d - 1), t[Advance(b, d - 1, |t|)].key);
    }
  }

  lemma ArcKeyIsNew(t: seq<Bucket>, b: nat, d: nat)
    requires Unique(t) && b < |t| && 0 < d <= |t|
    requires forall q: nat :: q < |t| && Dist(b, q, |t|) < d ==> t[q].key != 0
    ensures t[Advance(b, d - 1, |t|)].key !in ArcKeys(t, b, d - 1)
  {
    if t[Advance(b, d - 1, |t|)].key in ArcKeys(t, b, d - 1) {
      var q := ArcKeyAt(t, b, d - 1, t[Advance(b, d - 1, |t|)].key);
    }
  }

  /** Circular pigeonhole: the keys of a full arc b..x of t cannot all fit, in
      another table, into the same arc without its last bucket. */
  lemma Pigeonhole(t: seq<Bucket>, u: seq<Bucket>, b: nat, x: nat) returns (y: nat, z: nat)
    requires |t| == |u| && b < |t| && x < |t| && Unique(t) && Keys(t) == Keys(u)
    requires forall q: nat :: q < |t| && Dist(b, q, |t|) <= Dist(b, x, |t|) ==> t[q].key != 0
    ensures y < |t| && z < |t| && t[y].key == u[z].key != 0
    ensures Dist(b, y, |t|) <= Dist(b, x, |t|) <= Dist(b, z, |t|)
  {
    var d := Dist(b, x, |t|);
    ArcKeysCount(t, b, d + 1);
    if ArcKeys(t, b, d + 1) <= ArcKeys(u, b, d) {
      SubsetSize(ArcKeys(t, b, d + 1), ArcKeys(u, b, d));
    }
    var k :| k in ArcKeys(t, b, d + 1) && k !in ArcKeys(u, b, d);
    y := ArcKeyAt(t, b, d + 1, k);
    assert k in Keys(t);
    z := At(u, k);
    if Dist(b, z, |t|) < d {
      ArcKeysHas(u, b, d, z);
    }
  }

  /** The first bucket of the cluster that contains x. */
  lemma {:induction false} ClusterStart(t: seq<Bucket>, x: nat, e: nat) returns (b: nat)
    requires x < |t| && e < |t| && t[x].key != 0 && t[e].key == 0
    ensures b < |t| && t[Prev(b, |t|)].key == 0
    ensures Dist(b, x, |t|) < Dist(e, x, |t|)
    ensures forall q: nat :: q < |t| && Dist(b, q, |t|) <= Dist(b, x, |t|) ==> t[q].key != 0
    decreases Dist(e, x, |t|)
  {
    var p := Prev(x, |t|);
    DistNext(e, p, |t|);
    if t[p].key == 0 {
      b := x;
    } else {
      b := ClusterStart(t, p, e);
      DistNext(b, p, |t|);
      assert forall q: nat :: q < |t| && Dist(b, q, |t|) == Dist(b, x, |t|) ==> q == x;
    }
  }

  /** A record does not have its home before the start of its cluster. */
  lemma HomeInCluster(t: seq<Bucket>, g: Geometry, b: nat, y: nat)
    requires NoHoles(t, g) && b < |t| && y < |t| && t[y].key != 0 && t[Prev(b, |t|)].key == 0
    ensures t[y].psl <= Dist(b, y, |t|)
    ensures Dist(b, g.Home(t[y].key), |t|) == Dist(b, y, |t|) - t[y].psl
  {
    assert Placed(t, g, y);
    var h := g.Home(t[y].key);
    assert PathFull(t, g, y);
    StartsBefore(b, h, y, |t|);
    Between(b, h, y, |t|);
  }

  lemma StartsBefore(b: nat, h: nat, y: nat, n: nat)
    requires b < n && h < n && y < n && Dist(h, y, n) < Dist(h, Prev(b, n), n)
    ensures Dist(b, h, n) <= Dist(b, y, n)
  {
  }

  /** The core fact. Whatever table u holds the same keys as t, some record of u
      lies at or after x, while in t it lies in the cluster of x, at or before x. */
  lemma Overflow(t: seq<Bucket>, u: seq<Bucket>, g: Geometry, x: nat) returns (b: nat, y: nat, z: nat)
    requires NoHoles(t, g) && HasEmpty(t) && NoHoles(u, g) && Keys(t) == Keys(u)
    requires x < |t| && t[x].key != 0
    ensures b < |t| && t[Prev(b, |t|)].key == 0
    ensures forall q: nat :: q < |t| && Dist(b, q, |t|) <= Dist(b, x, |t|) ==> t[q].key != 0
    ensures y < |t| && z < |t| && t[y].key == u[z].key != 0
    ensures Dist(b, y, |t|) <= Dist(b, x, |t|) <= Dist(b, z, |t|)
    ensures u[z].psl == Dist(b, z, |t|) - Dist(b, y, |t|) + t[y].psl
    ensures u[x].key != 0
  {
    var e: nat :| e < |t| && t[e].key == 0;
    b := ClusterStart(t, x, e);
    y, z := Pigeonhole(t, u, b, x);
    HomeInCluster(t, g, b, y);
    var h := g.Home(t[y].key);
    assert Placed(u, g, z);
    Between(b, h, z, |t|);
    Between(b, h, x, |t|);
    assert PathFull(u, g, z);
  }

  /** Tables of one size with the same keys have equally many free buckets. */
  lemma SameCount(t: seq<Bucket>, u: seq<Bucket>)
    requires Unique(t) && Unique(u) && |t| == |u| && Keys(t) == Keys(u)
    ensures |Occupied(t)| == |Occupied(u)| && (HasEmpty(t) <==> HasEmpty(u))
  {
    ItemCount(t);
    ItemCount(u);
    assert Contents(t).Keys == Contents(u).Keys;
    MapSize(Contents(t));
    MapSize(Contents(u));
    OccupiedCount(t);
    OccupiedCount(u);
  }

  /** The occupied buckets are determined by the keys alone, for every layout
      without holes. */
  lemma SameOccupancy(t: seq<Bucket>, u: seq<Bucket>, g: Geometry)
    requires NoHoles(t, g) && HasEmpty(t) && NoHoles(u, g) && Keys(t) == Keys(u)
    ensures Occupied(t) == Occupied(u)
  {
    SameCount(t, u);
    forall x: nat | x < |t|
      ensures t[x].key != 0 <==> u[x].key != 0
    {
      if t[x].key != 0 {
        var b, y, z := Overflow(t, u, g, x);
      }
      if u[x].key != 0 {
        var b, y, z := Overflow(u, t, g, x);
      }
    }
  }

  /** In a Robin Hood table, records of one cluster are in order of home. */
  lemma HomesAreSorted(t: seq<Bucket>, g: Geometry, y: nat, x: nat)
    requires RobinHood(t, g) && y < |t| && x < |t| && t[y].key != 0 && t[x].key != 0
    ensures t[x].psl <= t[y].psl + Dist(y, x, |t|)
  {
    if Dist(y, x, |t|) <= t[x].psl {
      var j := ChainBack(t, g, x, Dist(y, x, |t|));
      SameDistance(j, y, x, |t|);
    }
  }

  /** No layout without holes does better than Robin Hood at any bucket: some
      record of it is at least as displaced as the one Robin Hood puts there. */
  lemma NoLayoutBeatsBucket(t: seq<Bucket>, u: seq<Bucket>, g: Geometry, x: nat) returns (z: nat)
    requires RobinHood(t, g) && HasEmpty(t) && NoHoles(u, g) && Keys(t) == Keys(u)
    requires x < |t| && t[x].key != 0
    ensures z < |u| && u[z].key != 0 && u[z].psl >= t[x].psl + Dist(x, z, |t|)
  {
    RobinHoodHasNoHoles(t, g);
    var b, y;
    b, y, z := Overflow(t, u, g, x);
    HomesAreSorted(t, g, y, x);
    Between(b, y, x, |t|);
    Between(b, x, z, |t|);
  }

  /** The maximum psl of a Robin Hood table is the least possible. */
  lemma MaximumIsLeast(t: seq<Bucket>, u: seq<Bucket>, g: Geometry, bound: nat)
    requires RobinHood(t, g) && HasEmpty(t) && NoHoles(u, g) && Keys(t) == Keys(u)
    requires forall z :: 0 <= z < |u| && u[z].key != 0 ==> u[z].psl <= bound
    ensures forall x :: 0 <= x < |t| && t[x].key != 0 ==> t[x].psl <= bound
  {
    forall x: nat | x < |t| && t[x].key != 0
      ensures t[x].psl <= bound
    {
      var z := NoLayoutBeatsBucket(t, u, g, x);
    }
  }

  lemma PslAtMost(t: seq<Bucket>, u: seq<Bucket>, g: Geometry, x: nat)
    requires RobinHood(t, g) && HasEmpty(t) && RobinHood(u, g) && Keys(t) == Keys(u)
    requires x < |t| && t[x].key != 0 && u[x].key != 0
    ensures t[x].psl <= u[x].psl
  {
    RobinHoodHasNoHoles(u, g);
    var z := NoLayoutBeatsBucket(t, u, g, x);
    HomesAreSorted(u, g, x, z);
  }

  /** History independence: two Robin Hood tables of the same geometry and keys
      agree bucket by bucket on occupancy and psl, hence on the home of the
      record found there. */
  lemma HistoryIndependence(t: seq<Bucket>, u: seq<Bucket>, g: Geometry)
    requires RobinHood(t, g) && HasEmpty(t) && RobinHood(u, g) && Keys(t) == Keys(u)
    ensures forall x :: 0 <= x < |t| ==> (t[x].key != 0 <==> u[x].key != 0)
    ensures forall x :: 0 <= x < |t| ==> t[x].psl == u[x].psl
    ensures forall x :: 0 <= x < |t| ==> t[x].key != 0 ==> g.Home(t[x].key) == g.Home(u[x].key)
  {
    RobinHoodHasNoHoles(t, g);
    RobinHoodHasNoHoles(u, g);
    SameCount(t, u);
    SameOccupancy(t, u, g);
    forall x: nat | x < |t|
      ensures t[x].key != 0 <==> u[x].key != 0
      ensures t[x].psl == u[x].psl
      ensures t[x].key != 0 ==> g.Home(t[x].key) == g.Home(u[x].key)
    {
      assert t[x].key != 0 <==> x in Occupied(t);
      assert u[x].key != 0 <==> x in Occupied(u);
      assert Clean(t, x) && Clean(u, x) && Placed(t, g, x) && Placed(u, g, x);
      if t[x].key != 0 {
        PslAtMost(t, u, g, x);
        PslAtMost(u, t, g, x);
        SameDistance(g.Home(t[x].key), g.Home(u[x].key), x, |t|);
      }
    }
  }

  ghost function Sum(s: set<nat>, f: nat -> int): int {
    if s == {} then 0 else
      var x :| x in s;
      f(x) + Sum(s - {x}, f)
  }

  lemma {:induction false} SumAdd(s: set<nat>, x: nat, f: nat -> int)
    requires x !in s
    ensures Sum(s + {x}, f) == Sum(s, f) + f(x)
  {
    var y :| y in s + {x} && Sum(s + {x}, f) == f(y) + Sum(s + {x} - {y}, f);
    if y == x {
      assert s + {x} - {x} == s;
    } else {
      assert s + {x} - {y} == s - {y} + {x};
      SumAdd(s - {y}, x, f);
      assert s - {y} + {y} == s;
      SumAdd(s - {y}, y, f);
    }
  }

  /** Sum of the psl of the records in the first n buckets. */
  ghost function TotalPsl(t: seq<Bucket>, n: nat): nat
    requires n <= |t|
  {
    if n == 0 then 0
    else TotalPsl(t, n - 1) + if t[n - 1].key == 0 then 0 else t[n - 1].psl
  }

  ghost function FromStart(b: nat, n: nat): nat -> int
    requires b < n
  {
    (i: nat) => if i < n then Dist(b, i, n) else 0
  }

  ghost function HomeFromStart(b: nat, g: Geometry): nat -> int
    requires b < g.size
  {
    (k: nat) => Dist(b, g.Home(k), g.size)
  }

  /** h summed over the keys of the first n buckets. */
  ghost function HomeSum(t: seq<Bucket>, h: nat -> int, n: nat): int
    requires n <= |t|
  {
    if n == 0 then 0
    else HomeSum(t, h, n - 1) + if t[n - 1].key == 0 then 0 else h(t[n - 1].key)
  }

  lemma {:induction false} HomeSumIs(t: seq<Bucket>, h: nat -> int, n: nat)
    requires Unique(t) && n <= |t|
    ensures HomeSum(t, h, n) == Sum(KeysUpTo(t, n), h)
  {
    if n == 0 {
      NothingUpToZero(t);
    } else {
      HomeSumIs(t, h, n - 1);
      UpToStep(t, n);
      if t[n - 1].key != 0 {
        SumAdd(KeysUpTo(t, n - 1), t[n - 1].key, h);
      }
    }
  }

  /** f summed over the occupied buckets among the first n. */
  ghost function PositionSum(t: seq<Bucket>, f: nat -> int, n: nat): int
    requires n <= |t|
  {
    if n == 0 then 0
    else PositionSum(t, f, n - 1) + if t[n - 1].key == 0 then 0 else f(n - 1)
  }

  ghost predicate SameSlots(t: seq<Bucket>, u: seq<Bucket>) {
    |t| == |u| && forall i :: 0 <= i < |t| ==> (t[i].key != 0 <==> u[i].key != 0)
  }

  lemma {:induction false} SamePositions(t: seq<Bucket>, u: seq<Bucket>, f: nat -> int, n: nat)
    requires SameSlots(t, u) && n <= |t|
    ensures PositionSum(t, f, n) == PositionSum(u, f, n)
  {
    if n > 0 {
      SamePositions(t, u, f, n - 1);
    }
  }

  lemma PslIsDifference(t: seq<Bucket>, g: Geometry, b: nat, i: nat)
    requires NoHoles(t, g) && b < |t| && t[Prev(b, |t|)].key == 0 && i < |t| && t[i].key != 0
    ensures t[i].psl == FromStart(b, |t|)(i) - HomeFromStart(b, g)(t[i].key)
  {
    HomeInCluster(t, g, b, i);
  }

  /** Total psl is the sum of the positions less the sum of the homes. */
  lemma {:induction false} TotalIsDifference(t: seq<Bucket>, g: Geometry, b: nat, n: nat)
    requires NoHoles(t, g) && b < |t| && t[Prev(b, |t|)].key == 0 && n <= |t|
    ensures TotalPsl(t, n) == PositionSum(t, FromStart(b, |t|), n) - HomeSum(t, HomeFromStart(b, g), n)
  {
    if n > 0 {
      TotalIsDifference(t, g, b, n - 1);
      if t[n - 1].key != 0 {
        PslIsDifference(t, g, b, n - 1);
      }
    }
  }

  lemma SameHomeSum(t: seq<Bucket>, u: seq<Bucket>, h: nat -> int)
    requires Unique(t) && Unique(u) && Keys(t) == Keys(u)
    ensures HomeSum(t, h, |t|) == HomeSum(u, h, |u|)
  {
    HomeSumIs(t, h, |t|);
    HomeSumIs(u, h, |u|);
    assert KeysUpTo(t, |t|) == Keys(t) && KeysUpTo(u, |u|) == Keys(u);
  }

  /** An empty bucket of both tables, and the bucket after it. */
  lemma CommonCut(t: seq<Bucket>, u: seq<Bucket>, g: Geometry) returns (b: nat)
    requires NoHoles(t, g) && HasEmpty(t) && NoHoles(u, g) && Keys(t) == Keys(u)
    ensures SameSlots(t, u) && b < |t| && t[Prev(b, |t|)].key == 0 && u[Prev(b, |t|)].key == 0
  {
    SameOccupancy(t, u, g);
    forall i | 0 <= i < |t|
      ensures t[i].key != 0 <==> u[i].key != 0
    {
      assert i in Occupied(t) <==> i in Occupied(u);
    }
    var e: nat :| e < |t| && t[e].key == 0;
    b := Next(e, |t|);
    assert Prev(b, |t|) == e;
  }

  /** The total psl depends on the keys alone: Robin Hood only redistributes it. */
  lemma TotalIsInvariant(t: seq<Bucket>, u: seq<Bucket>, g: Geometry)
    requires NoHoles(t, g) && HasEmpty(t) && NoHoles(u, g) && Keys(t) == Keys(u)
    ensures TotalPsl(t, |t|) == TotalPsl(u, |u|)
  {
    var b := CommonCut(t, u, g);
    TotalIsDifference(t, g, b, |t|);
    TotalIsDifference(u, g, b, |u|);
    SamePositions(t, u, FromStart(b, |t|), |t|);
    SameHomeSum(t, u, HomeFromStart(b, g));
  }

  /** A stored psl is smaller than the number of items. */
  lemma StoredPslBound(t: seq<Bucket>, g: Geometry, i: nat)
    requires RobinHood(t, g) && i < |t| && t[i].key != 0
    ensures t[i].psl < |Contents(t)|
  {
    assert Placed(t, g, i);
    var h := g.Home(t[i].key);
    forall q | q in Arc(h, t[i].psl + 1, |t|)
      ensures q in Occupied(t)
    {
      OnPath(t, g, i, q);
    }
    SubsetSize(Arc(h, t[i].psl + 1, |t|), Occupied(t));
    ItemCount(t);
  }

  /** The psl of the record in hand never exceeds the number of items. */
  lemma CarriedPslBound(t: seq<Bucket>, g: Geometry, i: nat, entry: Bucket, e: nat)
    requires RobinHood(t, g) && i < |t| && e < |t| && Carried(t, g, i, entry, e)
    ensures entry.psl <= |Contents(t)|
  {
    if entry.psl > 0 {
      var h := g.Home(entry.key);
      var p := Prev(i, |t|);
      DistNext(h, p, |t|);
      forall q | q in Arc(h, entry.psl, |t|)
        ensures q in Occupied(t)
      {
        Between(h, q, p, |t|);
        var j := ChainBack(t, g, p, Dist(q, p, |t|));
        SameDistance(j, q, p, |t|);
      }
      SubsetSize(Arc(h, entry.psl, |t|), Occupied(t));
      ItemCount(t);
    }
  }
}
