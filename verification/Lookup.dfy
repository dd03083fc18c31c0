// The probe loop shared by get, del and the batched operations.
module Lookup {
  import opened Words
  import opened Ring
  import opened Table

  datatype Search = Found(at: nat) | Absent

  /** The probe loop from bucket i, n steps from home. Some empty bucket e
      bounds the walk; its choice does not matter. */
  ghost function Probe(t: seq<Bucket>, key: nat, i: nat, n: nat, e: nat): Search
    requires i < |t| && e < |t| && t[e].key == 0
    decreases Dist(i, e, |t|)
  {
    if t[i].key == key then Found(i)
    else if t[i].key == 0 || n > t[i].psl then Absent
    else Probe(t, key, Next(i, |t|), n + 1, e)
  }

  lemma {:induction false} ProbeFinds(t: seq<Bucket>, g: Geometry, j: nat, i: nat, n: nat, e: nat)
    requires RobinHood(t, g) && j < |t| && t[j].key != 0
    requires i < |t| && e < |t| && t[e].key == 0
    requires n == Dist(g.Home(t[j].key), i, |t|) <= t[j].psl
    ensures Probe(t, t[j].key, i, n, e) == Found(j)
    decreases t[j].psl - n
  {
    assert Placed(t, g, j);
    var h := g.Home(t[j].key);
    if n == t[j].psl {
      AdvanceDist(h, i, |t|);
      AdvanceDist(h, j, |t|);
    } else {
      OnPath(t, g, j, i);
      DistNext(h, i, |t|);
      ProbeFinds(t, g, j, Next(i, |t|), n + 1, e);
    }
  }

  lemma {:induction false} ProbeMisses(t: seq<Bucket>, key: nat, i: nat, n: nat, e: nat)
    requires key !in Keys(t) && key != 0
    requires i < |t| && e < |t| && t[e].key == 0
    ensures Probe(t, key, i, n, e) == Absent
    decreases Dist(i, e, |t|)
  {
    if t[i].key != 0 && n <= t[i].psl {
      ProbeMisses(t, key, Next(i, |t|), n + 1, e);
    }
  }

  /** Lookup is complete although it stops at the first richer bucket. */
  lemma LookupIsComplete(t: seq<Bucket>, g: Geometry, key: nat, e: nat)
    requires RobinHood(t, g) && e < |t| && t[e].key == 0 && key != 0
    ensures Probe(t, key, g.Home(key), 0, e)
         == if key in Contents(t) then Found(At(t, key)) else Absent
  {
    if key in Keys(t) {
      ProbeFinds(t, g, At(t, key), g.Home(key), 0, e);
    } else {
      ProbeMisses(t, key, g.Home(key), 0, e);
    }
  }

  /** Number of occupied buckets the probe loop steps over. */
  ghost function Steps(t: seq<Bucket>, key: nat, i: nat, n: nat, e: nat): nat
    requires i < |t| && e < |t| && t[e].key == 0
    decreases Dist(i, e, |t|)
  {
    if t[i].key == key || t[i].key == 0 || n > t[i].psl then 0
    else 1 + Steps(t, key, Next(i, |t|), n + 1, e)
  }

  /** A lookup steps over at most nitems buckets, whatever the table. */
  lemma {:induction false} LookupIsBounded(t: seq<Bucket>, key: nat, h: nat, i: nat, n: nat, e: nat)
    requires h < |t| && i < |t| && e < |t| && t[e].key == 0
    requires n == Dist(h, i, |t|) <= Dist(h, e, |t|)
    requires forall q: nat :: q < |t| && Dist(h, q, |t|) < n ==> t[q].key != 0
    ensures n + Steps(t, key, i, n, e) <= |Occupied(t)| < |t|
    decreases Dist(i, e, |t|)
  {
    if t[i].key == key || t[i].key == 0 || n > t[i].psl {
      OccupiedCount(t);
      assert Arc(h, n, |t|) <= Occupied(t);
      SubsetSize(Arc(h, n, |t|), Occupied(t));
    } else {
      DistNext(h, i, |t|);
      forall q: nat | q < |t| && Dist(h, q, |t|) == n
        ensures q == i
      {
      }
      LookupIsBounded(t, key, h, Next(i, |t|), n + 1, e);
    }
  }

  /** The n buckets from h on would not stop a probe for a key of home h. */
  ghost predicate Passable(t: seq<Bucket>, h: nat, n: nat)
    requires h < |t|
  {
    forall q: nat :: q < |t| && Dist(h, q, |t|) < n ==> t[q].key != 0 && Dist(h, q, |t|) <= t[q].psl
  }

  /** A probe from h walks into an empty bucket before any richer one. */
  ghost predicate ReachesEmpty(t: seq<Bucket>, h: nat)
    requires h < |t|
  {
    exists z: nat :: z < |t| && t[z].key == 0 && Passable(t, h, Dist(h, z, |t|))
  }

  lemma PassableNext(t: seq<Bucket>, h: nat, i: nat)
    requires h < |t| && i < |t| && Passable(t, h, Dist(h, i, |t|))
    requires t[i].key != 0 && Dist(h, i, |t|) <= t[i].psl
    ensures Passable(t, h, Dist(h, i, |t|) + 1)
  {
    forall q: nat | q < |t| && Dist(h, q, |t|) == Dist(h, i, |t|)
      ensures q == i
    {
    }
  }

  lemma StoppedByRicher(t: seq<Bucket>, h: nat, i: nat)
    requires h < |t| && i < |t| && Passable(t, h, Dist(h, i, |t|))
    requires t[i].key != 0 && Dist(h, i, |t|) > t[i].psl
    ensures !ReachesEmpty(t, h)
  {
    forall z: nat | z < |t| && t[z].key == 0
      ensures !Passable(t, h, Dist(h, z, |t|))
    {
      assert z != i;
    }
  }

  lemma {:induction false} ProbeForZero(t: seq<Bucket>, h: nat, i: nat, n: nat, e: nat)
    requires h < |t| && i < |t| && e < |t| && t[e].key == 0
    requires n == Dist(h, i, |t|) <= Dist(h, e, |t|) && Passable(t, h, n)
    ensures Probe(t, 0, i, n, e).Found? <==> ReachesEmpty(t, h)
    decreases Dist(i, e, |t|)
  {
    if t[i].key == 0 {
      assert ReachesEmpty(t, h);
    } else if n > t[i].psl {
      StoppedByRicher(t, h, i);
    } else {
      DistNext(h, i, |t|);
      PassableNext(t, h, i);
      ProbeForZero(t, h, Next(i, |t|), n + 1, e);
    }
  }

  /** Exactly when the documented answer of get (found if and only if present)
      holds: for every real key, and for the reserved key 0 only when a richer
      bucket comes before the first empty one. */
  lemma LookupAnswersIff(t: seq<Bucket>, g: Geometry, key: nat, e: nat)
    requires RobinHood(t, g) && e < |t| && t[e].key == 0
    ensures (Probe(t, key, g.Home(key), 0, e).Found? <==> key in Contents(t))
       <==> (key != 0 || !ReachesEmpty(t, g.Home(key)))
  {
    if key != 0 {
      LookupIsComplete(t, g, key, e);
    } else {
      ProbeForZero(t, g.Home(0), g.Home(0), 0, e);
    }
  }

  /** Where the probe for a key ends. */
  ghost function Landing(t: seq<Bucket>, g: Geometry, key: nat, e: nat): Search
    requires |t| == g.size && e < |t| && t[e].key == 0
  {
    Probe(t, key, g.Home(key), 0, e)
  }

  lemma {:induction false} FoundHasKey(t: seq<Bucket>, key: nat, i: nat, n: nat, e: nat)
    requires i < |t| && e < |t| && t[e].key == 0 && Probe(t, key, i, n, e).Found?
    ensures Probe(t, key, i, n, e).at < |t| && t[Probe(t, key, i, n, e).at].key == key
    decreases Dist(i, e, |t|)
  {
    if t[i].key != key {
      FoundHasKey(t, key, Next(i, |t|), n + 1, e);
    }
  }

  lemma LandsOnRecord(t: seq<Bucket>, g: Geometry, i: nat, e: nat)
    requires RobinHood(t, g) && i < |t| && e < |t| && t[e].key == 0 && t[i].key != 0
    ensures Landing(t, g, t[i].key, e) == Found(i)
  {
    ProbeFinds(t, g, i, g.Home(t[i].key), 0, e);
  }
}
