// Robin Hood insertion: the walk that displaces richer records.
module Insertion {
  import opened Words
  import opened Ring
  import opened Table

  /** What combining a stored value with a new one gives; None for an update
      code the source rejects. */
  type Merge = (Val, Val) -> Option<Val>

  datatype Outcome =
    | Inserted(table: seq<Bucket>)
    | Updated(table: seq<Bucket>, previous: Val)
    | Rejected(table: seq<Bucket>, previous: Val)

  /** The insertion loop at bucket i with a record in hand. key and val are the
      caller's; entry may have become another record by a swap. */
  ghost function Walk(t: seq<Bucket>, i: nat, entry: Bucket, key: nat, val: Val, merge: Merge, e: nat): Outcome
    requires i < |t| && e < |t| && t[e].key == 0
    decreases Dist(i, e, |t|)
  {
    if t[i].key == 0 then
      Inserted(t[i := entry])
    else if t[i].key == key then
      match merge(t[i].val, val)
      case None => Rejected(t, t[i].val)
      case Some(v) => Updated(t[i := t[i].(val := v)], t[i].val)
    else if entry.psl > t[i].psl then
      Walk(t[i := entry], Next(i, |t|), t[i].(psl := t[i].psl + 1), key, val, merge, e)
    else
      Walk(t, Next(i, |t|), entry.(psl := entry.psl + 1), key, val, merge, e)
  }

  ghost function Insert(t: seq<Bucket>, g: Geometry, key: nat, val: Val, merge: Merge, e: nat): Outcome
    requires |t| == g.size && e < |t| && t[e].key == 0
  {
    Walk(t, g.Home(key), Bucket(key, val, 0), key, val, merge, e)
  }

  /** The record in hand at bucket i has walked psl occupied buckets from home,
      and the last one passed was at least as displaced. */
  ghost predicate Carried(t: seq<Bucket>, g: Geometry, i: nat, entry: Bucket, e: nat)
    requires |t| == g.size && i < |t| && e < |t|
  {
    && entry.key != 0 && entry.key !in Keys(t)
    && entry.psl == Dist(g.Home(entry.key), i, |t|) <= Dist(g.Home(entry.key), e, |t|)
    && (entry.psl > 0 ==> t[Prev(i, |t|)].key != 0 && entry.psl <= t[Prev(i, |t|)].psl + 1)
  }

  /** No probe path crosses an empty bucket. */
  lemma HomeBeforeEmpty(t: seq<Bucket>, g: Geometry, i: nat, e: nat)
    requires RobinHood(t, g) && i < |t| && t[i].key != 0 && e < |t| && t[e].key == 0
    ensures t[i].psl < Dist(g.Home(t[i].key), e, |t|)
  {
    if Dist(g.Home(t[i].key), e, |t|) <= t[i].psl {
      OnPath(t, g, i, e);
    }
  }

  /** Dropping the record in hand into an empty or richer bucket keeps every
      bucket well placed and ordered. */
  lemma PlaceKeepsOrder(t: seq<Bucket>, g: Geometry, i: nat, entry: Bucket, e: nat)
    requires RobinHood(t, g) && i < |t| && e < |t| && Carried(t, g, i, entry, e)
    requires t[i].key == 0 || entry.psl > t[i].psl
    ensures RobinHood(t[i := entry], g)
  {
    var u := t[i := entry];
    forall p: nat | p < |u|
      ensures Clean(u, p) && Placed(u, g, p) && Ordered(u, p)
    {
      assert Clean(t, p) && Placed(t, g, p) && Ordered(t, p);
      assert Clean(t, i);
    }
    assert Unique(u);
  }

  lemma PlaceKeys(t: seq<Bucket>, i: nat, entry: Bucket)
    requires Unique(t) && i < |t| && entry.key != 0 && entry.key !in Keys(t)
    ensures Unique(t[i := entry])
    ensures Keys(t[i := entry]) == Keys(t) - {t[i].key} + {entry.key}
  {
    var u := t[i := entry];
    forall k | k in Keys(t) - {t[i].key} + {entry.key}
      ensures k in Keys(u)
    {
      if k == entry.key {
        assert u[i].key == k;
      } else {
        assert u[At(t, k)].key == k;
      }
    }
  }

  lemma PlaceContents(t: seq<Bucket>, i: nat, entry: Bucket)
    requires Unique(t) && i < |t| && entry.key != 0 && entry.key !in Keys(t)
    ensures Unique(t[i := entry])
    ensures Contents(t[i := entry]) == (Contents(t) - {t[i].key})[entry.key := entry.val]
  {
    var u := t[i := entry];
    PlaceKeys(t, i, entry);
    forall k | k in Keys(u)
      ensures Contents(u)[k] == (Contents(t) - {t[i].key})[entry.key := entry.val][k]
    {
      ContentsAt(u, At(u, k));
      if k != entry.key {
        ContentsAt(t, At(u, k));
      }
    }
  }

  /** The record that moves on is carried in its turn. */
  lemma SwapCarries(t: seq<Bucket>, g: Geometry, i: nat, entry: Bucket, e: nat)
    requires RobinHood(t, g) && i < |t| && e < |t| && t[e].key == 0 && Carried(t, g, i, entry, e)
    requires t[i].key != 0 && entry.psl > t[i].psl
    ensures Carried(t[i := entry], g, Next(i, |t|), t[i].(psl := t[i].psl + 1), e)
  {
    assert Placed(t, g, i);
    HomeBeforeEmpty(t, g, i, e);
    DistNext(g.Home(t[i].key), i, |t|);
    PlaceKeys(t, i, entry);
    assert Prev(Next(i, |t|), |t|) == i;
  }

  lemma PassCarries(t: seq<Bucket>, g: Geometry, i: nat, entry: Bucket, e: nat)
    requires RobinHood(t, g) && i < |t| && e < |t| && t[e].key == 0 && Carried(t, g, i, entry, e)
    requires t[i].key != 0 && entry.psl <= t[i].psl
    ensures Carried(t, g, Next(i, |t|), entry.(psl := entry.psl + 1), e)
  {
    var h := g.Home(entry.key);
    assert i != e;
    AdvanceDist(h, i, |t|);
    AdvanceDist(h, e, |t|);
    DistNext(h, i, |t|);
    assert Prev(Next(i, |t|), |t|) == i;
  }

  /** key does not occur from bucket i up to the empty bucket e. */
  ghost predicate NotAhead(t: seq<Bucket>, key: nat, i: nat, e: nat)
    requires i < |t| && e < |t|
  {
    forall q: nat :: q < |t| && Dist(q, e, |t|) <= Dist(i, e, |t|) ==> t[q].key != key
  }

  /** Once the caller's key is known not to lie ahead, the walk ends by adding
      exactly the record in hand, however many swaps it makes. */
  lemma {:induction false} WalkAdds(t: seq<Bucket>, g: Geometry, i: nat, entry: Bucket,
                                    key: nat, val: Val, merge: Merge, e: nat, r: Outcome)
    requires RobinHood(t, g) && i < |t| && e < |t| && t[e].key == 0
    requires Carried(t, g, i, entry, e) && NotAhead(t, key, i, e)
    requires r == Walk(t, i, entry, key, val, merge, e)
    ensures r.Inserted? && RobinHood(r.table, g) && Contents(r.table) == Contents(t)[entry.key := entry.val]
    decreases Dist(i, e, |t|)
  {
    assert t[i].key != key;
    if t[i].key == 0 {
      PlaceKeepsOrder(t, g, i, entry, e);
      EmptyBucketAdds(t, i, entry);
    } else if entry.psl > t[i].psl {
      PlaceKeepsOrder(t, g, i, entry, e);
      SwapCarries(t, g, i, entry, e);
      SwapAhead(t, key, i, entry, e);
      SwapKeepsTotal(t, i, entry);
      WalkAdds(t[i := entry], g, Next(i, |t|), t[i].(psl := t[i].psl + 1), key, val, merge, e, r);
    } else {
      PassCarries(t, g, i, entry, e);
      DistNext(e, i, |t|);
      WalkAdds(t, g, Next(i, |t|), entry.(psl := entry.psl + 1), key, val, merge, e, r);
    }
  }

  /** The record in hand fills an empty bucket. */
  lemma EmptyBucketAdds(t: seq<Bucket>, i: nat, entry: Bucket)
    requires Unique(t) && i < |t| && t[i].key == 0 && entry.key != 0 && entry.key !in Keys(t)
    ensures Unique(t[i := entry]) && Contents(t[i := entry]) == Contents(t)[entry.key := entry.val]
  {
    PlaceContents(t, i, entry);
    assert Contents(t) - {t[i].key} == Contents(t);
  }

  /** A swap keeps the records of table and hand together. */
  lemma SwapKeepsTotal(t: seq<Bucket>, i: nat, entry: Bucket)
    requires Unique(t) && i < |t| && t[i].key != 0 && entry.key != 0 && entry.key !in Keys(t)
    ensures var u := t[i := entry];
      && Unique(u) && t[i].key !in Keys(u)
      && Contents(u)[t[i].key := t[i].val] == Contents(t)[entry.key := entry.val]
      && |Contents(u)| == |Contents(t)|
  {
    PlaceKeys(t, i, entry);
    PlaceContents(t, i, entry);
    ContentsAt(t, i);
    SwapRestores(Contents(t), t[i].key, t[i].val, entry.key, entry.val);
    RemoveShrinksCount(Contents(t), t[i].key);
    InsertGrowsCount(Contents(t) - {t[i].key}, entry.key, entry.val);
  }

  lemma SwapAhead(t: seq<Bucket>, key: nat, i: nat, entry: Bucket, e: nat)
    requires i < |t| && e < |t| && i != e && NotAhead(t, key, i, e)
    ensures NotAhead(t[i := entry], key, Next(i, |t|), e)
  {
    DistNext(e, i, |t|);
  }

  lemma SwapRestores(m: map<nat, Val>, k: nat, v: Val, k': nat, v': Val)
    requires k in m && m[k] == v && k != k'
    ensures (m - {k})[k' := v'][k := v] == m[k' := v']
  {
  }

  lemma SetValue(t: seq<Bucket>, g: Geometry, j: nat, v: Val)
    requires RobinHood(t, g) && j < |t| && t[j].key != 0
    ensures RobinHood(t[j := t[j].(val := v)], g)
    ensures Contents(t[j := t[j].(val := v)]) == Contents(t)[t[j].key := v]
  {
    var u := t[j := t[j].(val := v)];
    forall p: nat | p < |u|
      ensures Clean(u, p) && Placed(u, g, p) && Ordered(u, p)
    {
      assert Clean(t, p) && Placed(t, g, p) && Ordered(t, p);
    }
    SetValueContents(t, j, v);
  }

  lemma SetValueContents(t: seq<Bucket>, j: nat, v: Val)
    requires Unique(t) && j < |t| && t[j].key != 0
    ensures var u := t[j := t[j].(val := v)];
      Unique(u) && Keys(u) == Keys(t) && Contents(u) == Contents(t)[t[j].key := v]
  {
    var u := t[j := t[j].(val := v)];
    SameKeys(u, t);
    forall k | k in Keys(t)
      ensures Contents(u)[k] == Contents(t)[t[j].key := v][k]
    {
      ContentsAt(u, At(t, k));
      ContentsAt(t, At(t, k));
    }
  }

  /** A key that is in the table is met before any swap, so testing against the
      caller's key stays sound after the record in hand has changed. */
  lemma {:induction false} WalkMeetsKey(t: seq<Bucket>, g: Geometry, j: nat, i: nat, n: nat,
                                        val: Val, merge: Merge, e: nat)
    requires RobinHood(t, g) && j < |t| && t[j].key != 0
    requires i < |t| && e < |t| && t[e].key == 0
    requires n == Dist(g.Home(t[j].key), i, |t|) <= t[j].psl
    ensures Walk(t, i, Bucket(t[j].key, val, n), t[j].key, val, merge, e)
         == match merge(t[j].val, val)
            case None => Rejected(t, t[j].val)
            case Some(v) => Updated(t[j := t[j].(val := v)], t[j].val)
    decreases t[j].psl - n
  {
    assert Placed(t, g, j);
    var h := g.Home(t[j].key);
    OnPath(t, g, j, i);
    if n == t[j].psl {
      AdvanceDist(h, i, |t|);
      AdvanceDist(h, j, |t|);
    } else {
      DistNext(h, i, |t|);
      assert t[i].key != t[j].key;
      WalkMeetsKey(t, g, j, Next(i, |t|), n + 1, val, merge, e);
    }
  }

  /** Insertion is map update: a present key is merged in place, an absent one
      is added, and nothing else changes. */
  lemma InsertRefinesUpdate(t: seq<Bucket>, g: Geometry, key: nat, val: Val, merge: Merge, e: nat)
    requires RobinHood(t, g) && e < |t| && t[e].key == 0 && key != 0
    ensures var m := Contents(t);
      match Insert(t, g, key, val, merge, e)
      case Inserted(u) => key !in m && RobinHood(u, g) && Contents(u) == m[key := val]
      case Updated(u, previous) =>
        && key in m && previous == m[key] && merge(previous, val).Some?
        && RobinHood(u, g) && Contents(u) == m[key := merge(previous, val).value]
      case Rejected(u, previous) => u == t && key in m && previous == m[key] && merge(previous, val).None?
  {
    var h := g.Home(key);
    if key in Keys(t) {
      var j := At(t, key);
      ContentsAt(t, j);
      WalkMeetsKey(t, g, j, h, 0, val, merge, e);
      if merge(t[j].val, val).Some? {
        SetValue(t, g, j, merge(t[j].val, val).value);
      }
    } else {
      assert NotAhead(t, key, h, e);
      WalkAdds(t, g, h, Bucket(key, val, 0), key, val, merge, e, Insert(t, g, key, val, merge, e));
    }
  }

  // ---- The same loop with an explicit limit on the number of probes ----

  datatype Limited = Done(outcome: Outcome) | Stuck(table: seq<Bucket>)

  /** The insertion loop that gives up after size probes; total on every table. */
  ghost function WalkLimited(t: seq<Bucket>, i: nat, entry: Bucket, key: nat, val: Val, merge: Merge,
      probes: nat): Limited
    requires i < |t|
    decreases |t| - probes
  {
    if probes >= |t| then
      Stuck(t)
    else if t[i].key == 0 then
      Done(Inserted(t[i := entry]))
    else if t[i].key == key then
      match merge(t[i].val, val)
      case None => Done(Rejected(t, t[i].val))
      case Some(v) => Done(Updated(t[i := t[i].(val := v)], t[i].val))
    else if entry.psl > t[i].psl then
      WalkLimited(t[i := entry], Next(i, |t|), t[i].(psl := t[i].psl + 1), key, val, merge, probes + 1)
    else
      WalkLimited(t, Next(i, |t|), entry.(psl := entry.psl + 1), key, val, merge, probes + 1)
  }

  /** The limit is never reached while some bucket is empty. */
  lemma {:induction false} LimitNotReached(t: seq<Bucket>, i: nat, entry: Bucket, key: nat, val: Val,
                                           merge: Merge, probes: nat, e: nat)
    requires i < |t| && e < |t| && t[e].key == 0 && probes + Dist(i, e, |t|) < |t|
    ensures WalkLimited(t, i, entry, key, val, merge, probes) == Done(Walk(t, i, entry, key, val, merge, e))
    decreases Dist(i, e, |t|)
  {
    if t[i].key != 0 && t[i].key != key {
      DistNext(e, i, |t|);
      if entry.psl > t[i].psl {
        LimitNotReached(t[i := entry], Next(i, |t|), t[i].(psl := t[i].psl + 1), key, val, merge, probes + 1, e);
      } else {
        LimitNotReached(t, Next(i, |t|), entry.(psl := entry.psl + 1), key, val, merge, probes + 1, e);
      }
    }
  }

  /** key does not occur in the buckets the limited walk still visits. */
  ghost predicate Unmet(t: seq<Bucket>, key: nat, i: nat, probes: nat)
    requires i < |t|
  {
    forall q: nat :: q < |t| && Dist(i, q, |t|) < |t| - probes ==> t[q].key != key
  }

  lemma UnmetNext(t: seq<Bucket>, key: nat, i: nat, entry: Bucket, probes: nat)
    requires i < |t| && probes < |t| && Unmet(t, key, i, probes)
    ensures Unmet(t[i := entry], key, Next(i, |t|), probes + 1) && Unmet(t, key, Next(i, |t|), probes + 1)
  {
    forall q: nat | q < |t| && Dist(Next(i, |t|), q, |t|) < |t| - (probes + 1)
      ensures q != i && t[q].key != key
    {
      DistNext(i, i, |t|);
    }
  }

  ghost predicate SubMap(m: map<nat, Val>, m': map<nat, Val>) {
    forall k :: k in m ==> k in m' && m'[k] == m[k]
  }

  /** On any table, full ones included: the record in hand is added if there is an
      empty bucket; otherwise one record is dropped, it or one that it displaced. */
  ghost predicate KeptBy(t: seq<Bucket>, entry: Bucket, r: Limited) {
    match r
    case Done(Inserted(u)) =>
      && HasEmpty(t) && |u| == |t| && Unique(u)
      && Contents(u) == Contents(t)[entry.key := entry.val]
    case Done(_) => false
    case Stuck(u) =>
      && |u| == |t| && Unique(u) && |Contents(u)| == |Contents(t)|
      && SubMap(Contents(u), Contents(t)[entry.key := entry.val])
  }

  lemma KeptThroughSwap(t: seq<Bucket>, i: nat, entry: Bucket, psl: nat, r: Limited)
    requires Unique(t) && i < |t| && t[i].key != 0 && entry.key != 0 && entry.key !in Keys(t)
    requires KeptBy(t[i := entry], t[i].(psl := psl), r)
    ensures KeptBy(t, entry, r)
  {
    SwapKeepsTotal(t, i, entry);
    if HasEmpty(t[i := entry]) {
      var e: nat :| e < |t| && t[i := entry][e].key == 0;
      assert t[e].key == 0;
    }
  }

  lemma KeptBySame(t: seq<Bucket>, entry: Bucket, psl: nat, r: Limited)
    requires KeptBy(t, entry.(psl := psl), r)
    ensures KeptBy(t, entry, r)
  {
  }

  lemma KeptAtEnd(t: seq<Bucket>, i: nat, entry: Bucket)
    requires Unique(t) && i < |t| && entry.key != 0 && entry.key !in Keys(t)
    ensures t[i].key == 0 ==> KeptBy(t, entry, Done(Inserted(t[i := entry])))
    ensures KeptBy(t, entry, Stuck(t))
  {
    if t[i].key == 0 {
      EmptyBucketAdds(t, i, entry);
    }
  }

  /** A limited walk for a key it does not meet never updates or rejects. */
  lemma {:induction false} LimitedWalkKeeps(t: seq<Bucket>, i: nat, entry: Bucket, key: nat, val: Val, merge: Merge,
                                            probes: nat, r: Limited)
    requires Unique(t) && i < |t| && entry.key != 0 && entry.key !in Keys(t) && Unmet(t, key, i, probes)
    requires r == WalkLimited(t, i, entry, key, val, merge, probes)
    ensures KeptBy(t, entry, r)
    decreases |t| - probes
  {
    if probes >= |t| || t[i].key == 0 {
      KeptAtEnd(t, i, entry);
    } else {
      assert Dist(i, i, |t|) == 0 && t[i].key != key;
      UnmetNext(t, key, i, entry, probes);
      if entry.psl > t[i].psl {
        SwapUnique(t, i, entry);
        LimitedWalkKeeps(t[i := entry], Next(i, |t|), t[i].(psl := t[i].psl + 1), key, val, merge, probes + 1, r);
        KeptThroughSwap(t, i, entry, t[i].psl + 1, r);
      } else {
        LimitedWalkKeeps(t, Next(i, |t|), entry.(psl := entry.psl + 1), key, val, merge, probes + 1, r);
        KeptBySame(t, entry, entry.psl + 1, r);
      }
    }
  }

  lemma SwapUnique(t: seq<Bucket>, i: nat, entry: Bucket)
    requires Unique(t) && i < |t| && t[i].key != 0 && entry.key != 0 && entry.key !in Keys(t)
    ensures Unique(t[i := entry]) && t[i].key !in Keys(t[i := entry])
  {
    PlaceKeys(t, i, entry);
  }

  /** What inserting an absent key does to any table: one more record if there is
      a free bucket, else as many as before. */
  ghost predicate AddsIfRoom(t: seq<Bucket>, key: nat, val: Val, u: seq<Bucket>, added: int) {
    && |u| == |t| && Unique(u) && SubMap(Contents(u), Contents(t)[key := val])
    && |Contents(u)| - |Contents(t)| == added == if HasEmpty(t) then 1 else 0
  }

  /** How a limited walk shows: the new table, how much the count rose, and the
      results of the call. */
  ghost predicate Shows(r: Limited, u: seq<Bucket>, added: int, status: int, updated: bool, oldval: Val) {
    match r
    case Done(Inserted(v)) => u == v && added == 1 && status == 0 && !updated && oldval == 0
    case Done(Updated(v, previous)) => u == v && added == 0 && status == 0 && updated && oldval == previous
    case Done(Rejected(v, previous)) => false
    case Stuck(v) => u == v && added == 0 && status == -1 && !updated && oldval == 0
  }

  lemma InsertAddsIfRoom(t: seq<Bucket>, i: nat, key: nat, val: Val, merge: Merge, u: seq<Bucket>, added: int,
                         status: int, updated: bool, oldval: Val)
    requires Unique(t) && i < |t| && key != 0 && key !in Keys(t)
    requires Shows(WalkLimited(t, i, Bucket(key, val, 0), key, val, merge, 0), u, added, status, updated, oldval)
    ensures !updated && AddsIfRoom(t, key, val, u, added)
  {
    var entry := Bucket(key, val, 0);
    LimitedWalkKeeps(t, i, entry, key, val, merge, 0, WalkLimited(t, i, entry, key, val, merge, 0));
    InsertGrowsCount(Contents(t), key, val);
    if HasEmpty(t) {
      var e: nat :| e < |t| && t[e].key == 0;
      LimitNotReached(t, i, entry, key, val, merge, 0, e);
    }
  }
}
