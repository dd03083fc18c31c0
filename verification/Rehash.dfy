// Re-inserting the buckets of an old table one by one.
module Rehash {
  import opened Words
  import opened Ring
  import opened Table
  import opened Insertion
  import opened LoadPolicy
  import opened Machine

  lemma PrefixHasKey(t: seq<Bucket>, i: nat, j: nat)
    requires j < i <= |t| && t[j].key != 0
    ensures t[j].key in Keys(t[..i])
  {
    assert t[..i][j] == t[j];
  }

  lemma PrefixUnique(t: seq<Bucket>, i: nat)
    requires Unique(t) && i <= |t|
    ensures Unique(t[..i])
    ensures i < |t| && t[i].key != 0 ==> t[i].key !in Keys(t[..i])
  {
  }

  lemma PrefixKeys(t: seq<Bucket>, i: nat)
    requires i < |t|
    ensures Keys(t[..i + 1]) == Keys(t[..i]) + if t[i].key == 0 then {} else {t[i].key}
  {
    var p, q := t[..i], t[..i + 1];
    forall k | k in Keys(p)
      ensures k in Keys(q)
    {
      PrefixHasKey(t, i + 1, At(p, k));
    }
    if t[i].key != 0 {
      PrefixHasKey(t, i + 1, i);
    }
    forall j: nat | j < i && t[j].key != 0
      ensures t[j].key in Keys(p)
    {
      PrefixHasKey(t, i, j);
    }
  }

  lemma PrefixValue(t: seq<Bucket>, i: nat, j: nat)
    requires Unique(t) && j < i <= |t| && t[j].key != 0
    ensures t[j].key in Contents(t[..i]) && Contents(t[..i])[t[j].key] == t[j].val
  {
    PrefixUnique(t, i);
    ContentsAt(t[..i], j);
  }

  lemma PrefixAgrees(t: seq<Bucket>, i: nat, k: nat)
    requires Unique(t) && i < |t| && k in Contents(t[..i])
    ensures k in Contents(t[..i + 1]) && Contents(t[..i + 1])[k] == Contents(t[..i])[k]
  {
    var j := At(t[..i], k);
    assert t[j].key == k;
    PrefixValue(t, i, j);
    PrefixValue(t, i + 1, j);
  }

  /** One more bucket adds exactly its record. */
  lemma PrefixStep(t: seq<Bucket>, i: nat)
    requires Unique(t) && i < |t|
    ensures t[i].key == 0 ==> Contents(t[..i + 1]) == Contents(t[..i])
    ensures t[i].key != 0 ==>
      t[i].key !in Contents(t[..i]) && Contents(t[..i + 1]) == Contents(t[..i])[t[i].key := t[i].val]
  {
    PrefixKeys(t, i);
    PrefixUnique(t, i);
    if t[i].key != 0 {
      PrefixValue(t, i + 1, i);
    }
    var m, m' := Contents(t[..i]), Contents(t[..i + 1]);
    assert m.Keys == Keys(t[..i]) && m'.Keys == Keys(t[..i + 1]);
    forall k | k in m
      ensures m'[k] == m[k]
    {
      PrefixAgrees(t, i, k);
    }
    MapExtension(m, m', t[i].key, t[i].val);
  }

  lemma MapExtension(m: map<nat, Val>, m': map<nat, Val>, key: nat, val: Val)
    requires forall k :: k in m ==> k in m' && m'[k] == m[k]
    ensures m'.Keys == m.Keys ==> m' == m
    ensures m'.Keys == m.Keys + {key} && key !in m && m'[key] == val ==> m' == m[key := val]
  {
  }

  lemma PrefixCount(t: seq<Bucket>, i: nat)
    requires i <= |t|
    ensures |Contents(t[..i])| <= |Contents(t)|
  {
    forall k | k in Keys(t[..i])
      ensures k in Keys(t)
    {
      assert t[At(t[..i], k)].key == k;
    }
    SubsetSize(Contents(t[..i]).Keys, Contents(t).Keys);
    MapSize(Contents(t[..i]));
    MapSize(Contents(t));
  }

  /** There is a free bucket for every record still to come, whatever the new
      size, as long as it is at least the number of records. */
  lemma RoomForNext(c: Config, s: State, t: seq<Bucket>, i: nat)
    requires Sound(c, s) && Unique(t) && i < |t| && t[i].key != 0
    requires Model(s) == Contents(t[..i]) && |Contents(t)| <= |s.buckets|
    ensures HasEmpty(s.buckets)
  {
    PrefixCount(t, i + 1);
    PrefixStep(t, i);
    InsertGrowsCount(Contents(t[..i]), t[i].key, t[i].val);
    RoomHasEmpty(c, s);
  }

  /** Re-inserting bucket i adds its record, and never finds it already there. */
  lemma Reinserted(c: Config, s: State, t: seq<Bucket>, i: nat, code: int, r: Reply, s': State)
    requires Sound(c, s) && Unique(t) && i < |t| && t[i].key != 0 && Model(s) == Contents(t[..i])
    requires InsertStep(c, s, t[i].key, t[i].val, code, r, s')
    ensures Sound(c, s') && Model(s') == Contents(t[..i + 1]) && r == Reply(0, false, 0)
  {
    PrefixStep(t, i);
    InsertStepSound(c, s, t[i].key, t[i].val, code, r, s', Op.Put(t[i].key, t[i].val, code, 0));
  }

  lemma {:induction false} KeysUpToCount(t: seq<Bucket>, n: nat)
    requires n <= |t|
    ensures |KeysUpTo(t, n)| <= n
  {
    if n > 0 {
      KeysUpToCount(t, n - 1);
      var last := if t[n - 1].key == 0 then {} else {t[n - 1].key};
      assert KeysUpTo(t, n) == KeysUpTo(t, n - 1) + last;
    }
  }

  /** A table holds at most one key per bucket, so a resize to fewer buckets than
      there are items keeps the map in no case. */
  lemma TooSmallLosesRecords(t: seq<Bucket>)
    ensures |Contents(t)| <= |t|
  {
    KeysUpToCount(t, |t|);
    assert Contents(t).Keys == KeysUpTo(t, |t|);
    MapSize(Contents(t));
  }

  /** A limited walk on a table with an empty bucket is an insert step. */
  lemma LimitedInsertStep(c: Config, s: State, key: nat, val: Val, code: int, r: Reply, s': State)
    requires |s.buckets| > 0 && HasEmpty(s.buckets) && key != 0
    requires Shows(WalkLimited(s.buckets, Geo(c, s).Home(key), Bucket(key, val, 0), key, val, MergeOf(c, code), 0),
                   s'.buckets, s'.nitems - s.nitems, r.status, r.found, r.val)
    requires s' == s.(buckets := s'.buckets, nitems := s'.nitems)
    ensures r.status == 0 && InsertStep(c, s, key, val, code, r, s')
  {
    LimitNotReached(s.buckets, Geo(c, s).Home(key), Bucket(key, val, 0), key, val, MergeOf(c, code), 0,
        AnEmpty(s.buckets));
  }

  /** What a table u of any size holds after re-inserting the first i buckets of t:
      all their records, or as many of them as it has buckets. */
  ghost predicate CarriedOver(t: seq<Bucket>, i: nat, u: seq<Bucket>, nitems: nat)
    requires i <= |t|
  {
    && Unique(u) && SubMap(Contents(u), Contents(t[..i]))
    && nitems == |Contents(u)| == Min(|Contents(t[..i])|, |u|)
  }

  /** What re-inserting all the buckets of t leaves: the same map if it fits, else
      as many of its records as there are buckets. */
  ghost predicate Refilled(c: Config, t: seq<Bucket>, s: State, fits: bool) {
    && SubMap(Model(s), Contents(t)) && s.nitems == |Model(s)| == Min(|Contents(t)|, |s.buckets|)
    && (fits ==> Sound(c, s) && Model(s) == Contents(t))
  }

  lemma StartsCarried(t: seq<Bucket>, u: seq<Bucket>)
    requires forall i :: 0 <= i < |u| ==> u[i] == EMPTY
    ensures Contents(t[..0]) == map[] && CarriedOver(t, 0, u, 0)
  {
    assert Keys(u) == {};
    assert Contents(u) == map[];
    assert Contents(t[..0]) == map[];
  }

  lemma NotCarriedYet(t: seq<Bucket>, i: nat, u: seq<Bucket>, nitems: nat)
    requires Unique(t) && i < |t| && t[i].key != 0 && CarriedOver(t, i, u, nitems)
    ensures t[i].key !in Keys(u)
  {
    PrefixStep(t, i);
    assert Contents(u).Keys == Keys(u);
  }

  lemma FullTable(u: seq<Bucket>)
    requires Unique(u)
    ensures HasEmpty(u) <==> |Contents(u)| < |u|
  {
    ItemCount(u);
    OccupiedCount(u);
  }

  lemma CarriedNext(t: seq<Bucket>, i: nat, u: seq<Bucket>, nitems: nat, u': seq<Bucket>, nitems': nat)
    requires Unique(t) && i < |t| && CarriedOver(t, i, u, nitems)
    requires if t[i].key == 0 then u' == u && nitems' == nitems
             else AddsIfRoom(u, t[i].key, t[i].val, u', nitems' - nitems)
    ensures CarriedOver(t, i + 1, u', nitems')
  {
    PrefixStep(t, i);
    if t[i].key != 0 {
      CarriedOne(Contents(t[..i]), u, nitems, t[i].key, t[i].val, u', nitems');
    }
  }

  lemma CarriedOne(m: map<nat, Val>, u: seq<Bucket>, nitems: nat, key: nat, val: Val, u': seq<Bucket>, nitems': nat)
    requires Unique(u) && SubMap(Contents(u), m) && nitems == |Contents(u)| == Min(|m|, |u|)
    requires key !in m && AddsIfRoom(u, key, val, u', nitems' - nitems)
    ensures Unique(u') && SubMap(Contents(u'), m[key := val])
    ensures nitems' == |Contents(u')| == Min(|m[key := val]|, |u'|)
  {
    FullTable(u);
    TooSmallLosesRecords(u');
    InsertGrowsCount(m, key, val);
    SubMapGrows(Contents(u'), Contents(u), m, key, val);
  }

  lemma SubMapGrows(m'': map<nat, Val>, m': map<nat, Val>, m: map<nat, Val>, key: nat, val: Val)
    requires SubMap(m'', m'[key := val]) && SubMap(m', m)
    ensures SubMap(m'', m[key := val])
  {
  }

  /** The size check of the generated resize lets a size through that is too small
      for the records exactly when there are two items or more (up to where 85% of
      the count is a legal size). */
  lemma LossySizeExistsIff(nitems: nat)
    ensures (exists newsize: nat :: IsLossySize(nitems, newsize)) <==>
      nitems >= 2 && 17 * nitems / 20 < 0xffff_ffff
  {
    if nitems >= 2 && 17 * nitems / 20 < 0xffff_ffff {
      assert IsLossySize(nitems, 17 * nitems / 20);
    }
  }

  ghost predicate IsLossySize(nitems: nat, newsize: nat) {
    0 < newsize < 0xffff_ffff && 17 * nitems / 20 <= newsize < nitems
  }

  /** A table of two records, for which the check admits one bucket. */
  lemma LossyTable()
    ensures var t := [Bucket(1, 10, 0), Bucket(2, 20, 0), EMPTY];
      var g := Geometry((k, s) => if k == 1 then 0 else 1, 0, 3);
      && RobinHood(t, g) && IsLossySize(|Contents(t)|, 1)
      && forall u: seq<Bucket> :: |u| == 1 ==> Contents(u) != Contents(t)
  {
    var t := [Bucket(1, 10, 0), Bucket(2, 20, 0), EMPTY];
    var g := Geometry((k, s) => if k == 1 then 0 else 1, 0, 3);
    assert g.Home(1) == 0 && g.Home(2) == 1;
    assert Occupied(t) == {0, 1};
    ItemCount(t);
    forall u: seq<Bucket> | |u| == 1
      ensures Contents(u) != Contents(t)
    {
      TooSmallLosesRecords(u);
    }
  }
}
