// The 16-bit psl field: up to how many items it is wide enough, and what goes
// wrong beyond.
module PslWidth {
  import opened Words
  import opened Ring
  import opened Table
  import opened Insertion
  import opened Layout
  import opened LoadPolicy
  import opened Machine
  import opened Runs

  const PSL_VALUES := 0x1_0000

  /** entry.psl++ on a 16-bit field. */
  ghost function Plus16(entry: Bucket): Bucket {
    entry.(psl := (entry.psl + 1) % PSL_VALUES)
  }

  /** The insertion loop as it runs on 16-bit fields. */
  ghost function Walk16(t: seq<Bucket>, i: nat, entry: Bucket, key: nat, val: Val, merge: Merge, e: nat): Outcome
    requires i < |t| && e < |t| && t[e].key == 0
    decreases Dist(i, e, |t|)
  {
    if t[i].key == 0 then
      Inserted(t[i := entry])
    else if t[i].key == key then
      match merge(t[i].val, val)
      case None => Rejected(t, t[i].val)
      case Some(v) => Updated(t[i := t[i].(val := v)], t[i].val)
    else if entry.psl > t[i].psl then
      Walk16(t[i := entry], Next(i, |t|), Plus16(t[i]), key, val, merge, e)
    else
      Walk16(t, Next(i, |t|), Plus16(entry), key, val, merge, e)
  }

  ghost function Insert16(t: seq<Bucket>, g: Geometry, key: nat, val: Val, merge: Merge, e: nat): Outcome
    requires |t| == g.size && e < |t| && t[e].key == 0
  {
    Walk16(t, g.Home(key), Bucket(key, val, 0), key, val, merge, e)
  }

  // ---- Wide enough ----

  /** A present key is met before psl reaches that of its record. */
  lemma {:induction false} PresentIsExact(t: seq<Bucket>, g: Geometry, j: nat, i: nat, n: nat,
                                          val: Val, merge: Merge, e: nat, r: Outcome)
    requires RobinHood(t, g) && j < |t| && t[j].key != 0 && t[j].psl < PSL_VALUES
    requires i < |t| && e < |t| && t[e].key == 0
    requires n == Dist(g.Home(t[j].key), i, |t|) <= t[j].psl
    requires r == Walk(t, i, Bucket(t[j].key, val, n), t[j].key, val, merge, e)
    ensures Walk16(t, i, Bucket(t[j].key, val, n), t[j].key, val, merge, e) == r
    decreases t[j].psl - n
  {
    assert Placed(t, g, j);
    var h := g.Home(t[j].key);
    OnPath(t, g, j, i);
    if n == t[j].psl {
      AdvanceDist(h, i, |t|);
      AdvanceDist(h, j, |t|);
    } else {
      DistNext(h, i, |t|);
      assert t[i].key != t[j].key;
      assert Plus16(Bucket(t[j].key, val, n)) == Bucket(t[j].key, val, n + 1);
      PresentIsExact(t, g, j, Next(i, |t|), n + 1, val, merge, e, r);
    }
  }

  /** One swap, on a table with room in the field. */
  lemma SwapIsExact(t: seq<Bucket>, g: Geometry, i: nat, entry: Bucket, e: nat)
    requires RobinHood(t, g) && i < |t| && e < |t| && t[e].key == 0 && Carried(t, g, i, entry, e)
    requires t[i].key != 0 && entry.psl > t[i].psl && |Contents(t)| < PSL_VALUES
    ensures var u, next := t[i := entry], t[i].(psl := t[i].psl + 1);
      && RobinHood(u, g) && |Contents(u)| == |Contents(t)|
      && Carried(u, g, Next(i, |t|), next, e) && Plus16(t[i]) == next
  {
    var u, next := t[i := entry], t[i].(psl := t[i].psl + 1);
    PlaceKeepsOrder(t, g, i, entry, e);
    SwapCarries(t, g, i, entry, e);
    assert |Contents(u)| == |Contents(t)| by {
      SwapKeepsTotal(t, i, entry);
    }
    CarriedPslBound(u, g, Next(i, |t|), next, e);
  }

  lemma PassIsExact(t: seq<Bucket>, g: Geometry, i: nat, entry: Bucket, e: nat)
    requires RobinHood(t, g) && i < |t| && e < |t| && t[e].key == 0 && Carried(t, g, i, entry, e)
    requires t[i].key != 0 && entry.psl <= t[i].psl && |Contents(t)| < PSL_VALUES
    ensures Carried(t, g, Next(i, |t|), Plus16(entry), e)
    ensures Plus16(entry) == entry.(psl := entry.psl + 1)
  {
    PassCarries(t, g, i, entry, e);
    CarriedPslBound(t, g, Next(i, |t|), entry.(psl := entry.psl + 1), e);
  }

  lemma {:induction false} AbsentIsExact(t: seq<Bucket>, g: Geometry, i: nat, entry: Bucket,
                                         key: nat, val: Val, merge: Merge, e: nat, r: Outcome)
    requires RobinHood(t, g) && i < |t| && e < |t| && t[e].key == 0
    requires Carried(t, g, i, entry, e) && NotAhead(t, key, i, e) && |Contents(t)| < PSL_VALUES
    requires r == Walk(t, i, entry, key, val, merge, e)
    ensures Walk16(t, i, entry, key, val, merge, e) == r
    decreases Dist(i, e, |t|)
  {
    if t[i].key != 0 {
      assert t[i].key != key;
      SwapAhead(t, key, i, entry, e);
      DistNext(e, i, |t|);
      if entry.psl > t[i].psl {
        SwapIsExact(t, g, i, entry, e);
        AbsentIsExact(t[i := entry], g, Next(i, |t|), Plus16(t[i]), key, val, merge, e, r);
      } else {
        PassIsExact(t, g, i, entry, e);
        AbsentIsExact(t, g, Next(i, |t|), Plus16(entry), key, val, merge, e, r);
      }
    }
  }

  /** Inserting with 16-bit fields does exactly what inserting with unbounded ones
      does: for absent keys while there are fewer than 65536 items, for present
      ones up to 65536. */
  lemma InsertIsExact(c: Config, s: State, key: nat, val: Val, merge: Merge, e: nat)
    requires Sound(c, s) && e < |s.buckets| && s.buckets[e].key == 0 && key != 0
    requires s.nitems < 65536 || (s.nitems == 65536 && key in Model(s))
    ensures Insert16(s.buckets, Geo(c, s), key, val, merge, e) == Insert(s.buckets, Geo(c, s), key, val, merge, e)
  {
    var t, g := s.buckets, Geo(c, s);
    if key in Model(s) {
      StoredPslBound(t, g, At(t, key));
      PresentIsExact(t, g, At(t, key), g.Home(key), 0, val, merge, e, Insert(t, g, key, val, merge, e));
    } else {
      assert Contents(t).Keys == Keys(t);
      assert NotAhead(t, key, g.Home(key), e);
      AbsentIsExact(t, g, g.Home(key), Bucket(key, val, 0), key, val, merge, e, Insert(t, g, key, val, merge, e));
    }
  }

  // ---- Too narrow ----

  /** The table after putting keys 1..k, of which the first m have home 0 and each
      later one has a home, and a bucket, of its own. Bucket m stays empty. */
  ghost function Row(m: nat, k: nat, size: nat): seq<Bucket> {
    seq(size, i => RowBucket(m, k, i))
  }

  ghost function RowBucket(m: nat, k: nat, i: int): Bucket {
    if 0 <= i < m && i < k then Bucket(i + 1, 0, i)
    else if m < i <= k then Bucket(i, 0, 0)
    else EMPTY
  }

  ghost function RowConfig(m: nat, n: nat): Config {
    Config((k, s) => if m < k <= n && k < UINT_MAX then k else 0, (code, stored, val) => None)
  }

  ghost function RowState(m: nat, k: nat, size: nat): State {
    State(Row(m, k, size), k, size, 0)
  }

  /** A record of home 0 not among the first m passes all of them. */
  lemma {:induction false} RowWalk(m: nat, k: nat, size: nat, i: nat, key: nat, merge: Merge, e: nat)
    requires m < size && e < size && RowBucket(m, k, e).key == 0
    requires i <= m && i <= k && (k < m ==> k < size) && key > k
    ensures Walk(Row(m, k, size), i, Bucket(key, 0, i), key, 0, merge, e)
         == Inserted(Row(m, k, size)[Min(m, k) := Bucket(key, 0, Min(m, k))])
    decreases m - i
  {
    if i < m && i < k {
      RowWalk(m, k, size, i + 1, key, merge, e);
    }
  }

  lemma RowNext(m: nat, k: nat, size: nat)
    requires (if k < m then k else k + 1) < size
    ensures var i := if k < m then k else k + 1;
      Row(m, k, size)[i := Bucket(k + 1, 0, if k < m then k else 0)] == Row(m, k + 1, size)
  {
  }

  lemma RowHome(m: nat, n: nat, k: nat, size: nat)
    requires 0 < size < UINT_MAX && k < size
    ensures Geo(RowConfig(m, n), RowState(m, k, size)).Home(k) == if m < k <= n then k else 0
  {
    var g := Geo(RowConfig(m, n), RowState(m, k, size));
    assert g.size == size;
    SmallRemainder(g.hash(k, g.seed), size);
  }

  lemma SmallRemainder(x: nat, n: nat)
    requires x < n
    ensures x % n == x
  {
  }

  lemma RowInsert(m: nat, n: nat, k: nat, size: nat, merge: Merge, e: nat)
    requires k < n < size < UINT_MAX && m < size && e < size && RowBucket(m, k, e).key == 0
    ensures Insert(Row(m, k, size), Geo(RowConfig(m, n), RowState(m, k, size)), k + 1, 0, merge, e)
         == Inserted(Row(m, k + 1, size))
  {
    RowNext(m, k, size);
    RowHome(m, n, k + 1, size);
    if k < m {
      RowWalk(m, k, size, 0, k + 1, merge, e);
    }
  }

  lemma RowStep(m: nat, n: nat, k: nat, size: nat)
    requires k < n < size < UINT_MAX && m < size && k <= High(size)
    ensures Step(RowConfig(m, n), RowState(m, k, size), Op.Put(k + 1, 0, 0, 0), Reply(0, false, 0),
        RowState(m, k + 1, size))
  {
    var c, s := RowConfig(m, n), RowState(m, k, size);
    assert s.buckets[if m <= k then m else k].key == 0;
    RowInsert(m, n, k, size, MergeOf(c, 0), AnEmpty(s.buckets));
    assert InsertStep(c, s, k + 1, 0, 0, Reply(0, false, 0), RowState(m, k + 1, size));
    assert MaybeResized(c, s, GrowTo(s.nitems, size), 0, s);
  }

  lemma RowIsReachable(m: nat, n: nat, size: nat)
    requires HASH_INIT_SIZE <= size < UINT_MAX && m < size && n <= High(size) + 1
    ensures Reachable(RowConfig(m, n), RowState(m, n, size))
  {
    var c := RowConfig(m, n);
    var states := seq(n + 1, k requires 0 <= k <= n => RowState(m, k, size));
    var ops := seq(n, k requires 0 <= k < n => Op.Put(k + 1, 0, 0, 0));
    var replies := seq(n, k => Reply(0, false, 0));
    assert Created(c, states[0], size);
    forall k | 0 <= k < n
      ensures Step(c, states[k], ops[k], replies[k], states[k + 1])
    {
      RowStep(m, n, k, size);
    }
    assert Run(c, states, ops, replies);
  }

  /** A table at most half full, or of the largest size. */
  ghost function RowSize(n: nat): nat {
    if 2 * n < UINT_MAX then Max(2 * n, HASH_INIT_SIZE) else UINT_MAX - 1
  }

  /** The most items of any reachable table. */
  const MOST_ITEMS := High(UINT_MAX - 1) + 1

  lemma RowFits(n: nat)
    requires PSL_VALUES <= n <= MOST_ITEMS
    ensures HASH_INIT_SIZE <= RowSize(n) < UINT_MAX && n <= High(RowSize(n)) + 1 && n + 1 < RowSize(n)
  {
  }

  lemma CountIsBounded(c: Config, s: State)
    requires Reachable(c, s)
    ensures s.nitems <= MOST_ITEMS
  {
    ReachableIsInv(c, s);
    HighIsMonotone(|s.buckets|, UINT_MAX - 1);
  }

  /** Every psl stored in a reachable table of n items fits 16 bits. */
  ghost predicate PslFits(n: nat) {
    forall c, s, i :: Reachable(c, s) && s.nitems == n && 0 <= i < |s.buckets| ==> s.buckets[i].psl < 65536
  }

  /** The field is wide enough exactly up to 65536 items. Beyond, a table at most
      half full overflows it, when all keys collide. */
  lemma SixteenBitsSufficeIff(n: nat)
    ensures PslFits(n) <==> n <= 65536 || n > 3650722200
  {
    forall c, s, i | Reachable(c, s) && s.nitems == n && 0 <= i < |s.buckets|
      ensures n <= MOST_ITEMS && (n <= PSL_VALUES ==> s.buckets[i].psl < PSL_VALUES)
    {
      CountIsBounded(c, s);
      ReachableIsInv(c, s);
      if s.buckets[i].key != 0 {
        StoredPslBound(s.buckets, Geo(c, s), i);
      } else {
        assert Clean(s.buckets, i);
      }
    }
    if PSL_VALUES < n <= MOST_ITEMS {
      RowFits(n);
      RowIsReachable(n, n, RowSize(n));
      assert RowState(n, n, RowSize(n)).buckets[n - 1].psl == n - 1;
    }
  }

  /** In every reachable table of n items, inserting an absent key with 16-bit
      fields does what it does with unbounded ones. */
  ghost predicate InsertsAreExact(n: nat) {
    forall c, s, key, e ::
      Reachable(c, s) && s.nitems == n && key !in Model(s) && key != 0 && Free(s, e) ==> SameInsert(c, s, key, e)
  }

  ghost predicate Free(s: State, e: nat) {
    e < |s.buckets| && s.buckets[e].key == 0
  }

  ghost predicate SameInsert(c: Config, s: State, key: nat, e: nat)
    requires Free(s, e)
  {
    forall val: Val, merge: Merge ::
      Insert16(s.buckets, Geo(c, s), key, val, merge, e) == Insert(s.buckets, Geo(c, s), key, val, merge, e)
  }

  lemma {:induction false} RowWalk16(m: nat, k: nat, size: nat, i: nat, key: nat, merge: Merge, e: nat)
    requires m < size && e < size && RowBucket(m, k, e).key == 0
    requires i <= m <= k && m == PSL_VALUES && key > k
    ensures Walk16(Row(m, k, size), i, Bucket(key, 0, i % PSL_VALUES), key, 0, merge, e)
         == Inserted(Row(m, k, size)[m := Bucket(key, 0, 0)])
    decreases m - i
  {
    if i < m {
      RowWalk16(m, k, size, i + 1, key, merge, e);
    }
  }

  /** Putting one more colliding key wraps its psl to 0. */
  lemma RowWraps(n: nat, size: nat)
    requires PSL_VALUES <= n && n + 1 < size < UINT_MAX
    ensures var m := PSL_VALUES;
      && n + 1 !in Model(RowState(m, n, size)) && Free(RowState(m, n, size), m)
      && !SameInsert(RowConfig(m, n), RowState(m, n, size), n + 1, m)
  {
    var m := PSL_VALUES;
    var t, c := Row(m, n, size), RowConfig(m, n);
    var merge: Merge := (stored, val) => None;
    RowHome(m, n, n + 1, size);
    RowWalk(m, n, size, 0, n + 1, merge, m);
    RowWalk16(m, n, size, 0, n + 1, merge, m);
    var g := Geo(c, RowState(m, n, size));
    assert Insert(t, g, n + 1, 0, merge, m).table[m].psl == m;
    assert Insert16(t, g, n + 1, 0, merge, m).table[m].psl == 0;
  }

  lemma InsertsAreExactIff(n: nat)
    ensures InsertsAreExact(n) <==> n < 65536 || n > 3650722200
  {
    forall c, s, key, e | Reachable(c, s) && s.nitems == n && key !in Model(s) && key != 0 && Free(s, e)
      ensures n <= MOST_ITEMS && (n < PSL_VALUES ==> SameInsert(c, s, key, e))
    {
      CountIsBounded(c, s);
      ReachableIsInv(c, s);
      if n < PSL_VALUES {
        forall val: Val, merge: Merge
          ensures Insert16(s.buckets, Geo(c, s), key, val, merge, e) == Insert(s.buckets, Geo(c, s), key, val, merge, e)
        {
          InsertIsExact(c, s, key, val, merge, e);
        }
      }
    }
    if PSL_VALUES <= n <= MOST_ITEMS {
      RowFits(n);
      RowIsReachable(PSL_VALUES, n, RowSize(n));
      RowWraps(n, RowSize(n));
    }
  }
}
