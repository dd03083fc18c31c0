// The bucket array, the invariant that makes it a Robin Hood table, and the
// finite map it stands for.
module Table {
  import opened Words
  import opened Ring

  /** Values are numbers; what it means to combine two is a parameter. */
  type Val = int

  /** Key 0 marks an empty bucket. psl is the probe sequence length. */
  datatype Bucket = Bucket(key: nat, val: Val, psl: nat)

  const EMPTY := Bucket(0, 0, 0)

  /** Everything that decides where a key starts probing. */
  datatype Geometry = Geometry(hash: (nat, nat) -> uint32, seed: nat, size: nat) {
    function Home(key: nat): (i: nat)
      requires 0 < size
      ensures i < size
    {
      hash(key, seed) % size
    }
  }

  ghost predicate Unique(t: seq<Bucket>) {
    forall i, j :: 0 <= i < j < |t| && t[i].key != 0 ==> t[i].key != t[j].key
  }

  /** The psl recorded in bucket i is its distance from home. */
  ghost predicate Placed(t: seq<Bucket>, g: Geometry, i: nat)
    requires i < |t| == g.size
  {
    t[i].key != 0 ==> t[i].psl == Dist(g.Home(t[i].key), i, |t|)
  }

  /** A displaced record follows one that is at most one step less displaced. */
  ghost predicate Ordered(t: seq<Bucket>, i: nat)
    requires i < |t|
  {
    t[i].psl > 0 ==>
      t[Prev(i, |t|)].key != 0 && t[i].psl <= t[Prev(i, |t|)].psl + 1
  }

  ghost predicate Clean(t: seq<Bucket>, i: nat)
    requires i < |t|
  {
    t[i].key == 0 ==> t[i] == EMPTY
  }

  ghost predicate RobinHood(t: seq<Bucket>, g: Geometry) {
    && |t| == g.size > 0
    && Unique(t)
    && (forall i :: 0 <= i < |t| ==> Clean(t, i) && Placed(t, g, i) && Ordered(t, i))
  }

  ghost function Occupied(t: seq<Bucket>): set<nat> {
    set i: nat | i < |t| && t[i].key != 0
  }

  ghost function Keys(t: seq<Bucket>): set<nat> {
    set i: nat | i < |t| && t[i].key != 0 :: t[i].key
  }

  ghost predicate HasEmpty(t: seq<Bucket>) {
    exists e: nat :: e < |t| && t[e].key == 0
  }

  /** The bucket that holds key k. */
  ghost function At(t: seq<Bucket>, k: nat): (i: nat)
    requires k in Keys(t)
    ensures i < |t| && t[i].key == k != 0
  {
    var i: nat :| i < |t| && t[i].key != 0 && t[i].key == k;
    i
  }

  /** The finite map the table stands for. */
  ghost function Contents(t: seq<Bucket>): map<nat, Val> {
    map k | k in Keys(t) :: t[At(t, k)].val
  }

  lemma ContentsAt(t: seq<Bucket>, i: nat)
    requires Unique(t) && i < |t| && t[i].key != 0
    ensures t[i].key in Contents(t) && Contents(t)[t[i].key] == t[i].val
  {
    assert At(t, t[i].key) == i;
  }

  lemma SameKeys(u: seq<Bucket>, t: seq<Bucket>)
    requires |u| == |t| && forall i :: 0 <= i < |t| ==> u[i].key == t[i].key
    ensures Keys(u) == Keys(t) && (Unique(t) ==> Unique(u))
  {
    forall k | k in Keys(t)
      ensures k in Keys(u)
    {
      assert u[At(t, k)].key == k;
    }
    forall k | k in Keys(u)
      ensures k in Keys(t)
    {
      assert t[At(u, k)].key == k;
    }
  }

  /** Walking back m steps from an occupied bucket loses at most m of psl, and
      meets no empty bucket while the psl lasts. */
  lemma {:induction false} ChainBack(t: seq<Bucket>, g: Geometry, i: nat, m: nat) returns (j: nat)
    requires RobinHood(t, g) && i < |t| && t[i].key != 0 && m <= t[i].psl
    ensures j < |t| && Dist(j, i, |t|) == m
    ensures t[j].key != 0 && t[i].psl <= t[j].psl + m
  {
    if m == 0 {
      j := i;
    } else {
      var k := ChainBack(t, g, i, m - 1);
      assert Ordered(t, k);
      assert Placed(t, g, i);
      j := Prev(k, |t|);
      DistNext(i, j, |t|);
    }
  }

  /** Every bucket between a record's home and the record is occupied, by a
      record at least as far from its own home. */
  lemma OnPath(t: seq<Bucket>, g: Geometry, i: nat, q: nat)
    requires RobinHood(t, g) && i < |t| && t[i].key != 0 && q < |t|
    requires Dist(g.Home(t[i].key), q, |t|) <= t[i].psl
    ensures t[q].key != 0 && t[q].psl >= Dist(g.Home(t[i].key), q, |t|)
  {
    assert Placed(t, g, i);
    var h := g.Home(t[i].key);
    Between(h, q, i, |t|);
    var j := ChainBack(t, g, i, Dist(q, i, |t|));
    SameDistance(j, q, i, |t|);
  }

  lemma SameDistance(a: nat, b: nat, i: nat, n: nat)
    requires a < n && b < n && i < n && Dist(a, i, n) == Dist(b, i, n)
    ensures a == b
  {
  }

  lemma OccupiedCount(t: seq<Bucket>)
    ensures |Occupied(t)| <= |t|
    ensures HasEmpty(t) <==> |Occupied(t)| < |t|
  {
    var all := Range(|t|);
    assert Occupied(t) <= all;
    SubsetSize(Occupied(t), all);
    if !HasEmpty(t) {
      assert Occupied(t) == all;
    } else {
      var e: nat :| e < |t| && t[e].key == 0;
      assert e in all - Occupied(t);
      SubsetSize(Occupied(t) + {e}, all);
    }
  }

  ghost function Range(n: nat): (s: set<nat>)
    ensures |s| == n
    ensures forall i: nat :: i in s <==> i < n
  {
    if n == 0 then {} else Range(n - 1) + {n - 1}
  }

  lemma {:induction false} SubsetSize<T>(a: set<T>, b: set<T>)
    requires a <= b
    ensures |a| <= |b|
  {
    if a != {} {
      var x :| x in a;
      SubsetSize(a - {x}, b - {x});
    }
  }

  lemma InsertGrowsCount(m: map<nat, Val>, key: nat, val: Val)
    ensures |m[key := val]| == |m| + if key in m then 0 else 1
  {
    assert m[key := val].Keys == m.Keys + {key};
    assert |m[key := val]| == |m[key := val].Keys|;
  }

  lemma RemoveShrinksCount(m: map<nat, Val>, key: nat)
    ensures |m - {key}| == |m| - if key in m then 1 else 0
  {
    assert (m - {key}).Keys == m.Keys - {key};
    assert |m - {key}| == |(m - {key}).Keys|;
  }

  lemma MapSize(m: map<nat, Val>)
    ensures |m| == |m.Keys|
  {
  }

  /** Occupied buckets and keys are equally many. */
  lemma ItemCount(t: seq<Bucket>)
    requires Unique(t)
    ensures |Occupied(t)| == |Contents(t)|
  {
    ItemCountUpTo(t, |t|);
    assert OccupiedUpTo(t, |t|) == Occupied(t);
    assert Contents(t).Keys == Keys(t);
    assert KeysUpTo(t, |t|) == Keys(t);
  }

  ghost function OccupiedUpTo(t: seq<Bucket>, n: nat): set<nat>
    requires n <= |t|
  {
    set i: nat | i < n && t[i].key != 0
  }

  ghost function KeysUpTo(t: seq<Bucket>, n: nat): set<nat>
    requires n <= |t|
  {
    set i: nat | i < n && t[i].key != 0 :: t[i].key
  }

  lemma OccupiedStep(t: seq<Bucket>, n: nat)
    requires 0 < n <= |t|
    ensures OccupiedUpTo(t, n) == OccupiedUpTo(t, n - 1) + if t[n - 1].key == 0 then {} else {n - 1}
    ensures n - 1 !in OccupiedUpTo(t, n - 1)
  {
  }

  lemma UpToStep(t: seq<Bucket>, n: nat)
    requires Unique(t) && 0 < n <= |t|
    ensures t[n - 1].key == 0 ==> OccupiedUpTo(t, n) == OccupiedUpTo(t, n - 1) && KeysUpTo(t, n) == KeysUpTo(t, n - 1)
    ensures t[n - 1].key != 0 ==>
      && n - 1 !in OccupiedUpTo(t, n - 1) && t[n - 1].key !in KeysUpTo(t, n - 1)
      && OccupiedUpTo(t, n) == OccupiedUpTo(t, n - 1) + {n - 1}
      && KeysUpTo(t, n) == KeysUpTo(t, n - 1) + {t[n - 1].key}
  {
  }

  lemma SizeWithOneMore(s: set<nat>, x: nat)
    requires x !in s
    ensures |s + {x}| == |s| + 1
  {
  }

  lemma ItemCountStep(t: seq<Bucket>, n: nat)
    requires Unique(t) && 0 < n <= |t|
    ensures |OccupiedUpTo(t, n)| - |OccupiedUpTo(t, n - 1)| == |KeysUpTo(t, n)| - |KeysUpTo(t, n - 1)|
  {
    UpToStep(t, n);
    if t[n - 1].key != 0 {
      SizeWithOneMore(OccupiedUpTo(t, n - 1), n - 1);
      SizeWithOneMore(KeysUpTo(t, n - 1), t[n - 1].key);
    }
  }

  lemma NothingUpToZero(t: seq<Bucket>)
    ensures OccupiedUpTo(t, 0) == {} && KeysUpTo(t, 0) == {}
  {
  }

  lemma {:induction false} ItemCountUpTo(t: seq<Bucket>, n: nat)
    requires Unique(t) && n <= |t|
    ensures |OccupiedUpTo(t, n)| == |KeysUpTo(t, n)|
  {
    if n == 0 {
      NothingUpToZero(t);
    } else {
      ItemCountUpTo(t, n - 1);
      ItemCountStep(t, n);
    }
  }
}
