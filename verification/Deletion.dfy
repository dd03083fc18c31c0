// Deletion by backward shift.
module Deletion {
  import opened Words
  import opened Ring
  import opened Table

  /** Bucket i is empty; pull back every displaced record that follows it. Some
      other empty bucket e bounds the walk. */
  ghost function Shift(t: seq<Bucket>, i: nat, e: nat): seq<Bucket>
    requires i < |t| && e < |t| && i != e && t[e].key == 0
    decreases Dist(i, e, |t|)
  {
    var j := Next(i, |t|);
    if t[j].key == 0 || t[j].psl == 0 then t else Shift(Pulled(t, i), j, e)
  }

  /** One move: the record after i goes to i, and leaves its bucket zeroed. */
  ghost function Pulled(t: seq<Bucket>, i: nat): seq<Bucket>
    requires i < |t| && t[Next(i, |t|)].psl > 0
  {
    var j := Next(i, |t|);
    t[i := t[j].(psl := t[j].psl - 1)][j := EMPTY]
  }

  ghost function Delete(t: seq<Bucket>, i: nat, e: nat): seq<Bucket>
    requires i < |t| && e < |t| && t[i].key != 0 && t[e].key == 0
  {
    Shift(t[i := EMPTY], i, e)
  }

  /** A Robin Hood table except for a hole at i: the record after the hole may
      be one step too displaced for the record before it. */
  ghost predicate Gap(t: seq<Bucket>, g: Geometry, i: nat) {
    && i < |t| == g.size && t[i] == EMPTY && Unique(t)
    && (forall p :: 0 <= p < |t| ==> Clean(t, p) && Placed(t, g, p))
    && (forall p :: 0 <= p < |t| && p != Next(i, |t|) ==> Ordered(t, p))
    && (t[Next(i, |t|)].psl > 1 ==>
         t[Prev(i, |t|)].key != 0 && t[Next(i, |t|)].psl <= t[Prev(i, |t|)].psl + 2)
  }

  lemma ClearOpensGap(t: seq<Bucket>, g: Geometry, i: nat)
    requires RobinHood(t, g) && i < |t| && t[i].key != 0
    ensures Gap(t[i := EMPTY], g, i)
    ensures Contents(t[i := EMPTY]) == Contents(t) - {t[i].key}
  {
    var u := t[i := EMPTY];
    forall p: nat | p < |u|
      ensures Clean(u, p) && Placed(u, g, p)
      ensures p != Next(i, |t|) ==> Ordered(u, p)
    {
      assert Clean(t, p) && Placed(t, g, p) && Ordered(t, p);
    }
    assert Ordered(t, Next(i, |t|)) && Ordered(t, i) && Placed(t, g, Next(i, |t|));
    ClearContents(t, i);
  }

  lemma ClearKeys(t: seq<Bucket>, i: nat)
    requires Unique(t) && i < |t| && t[i].key != 0
    ensures Unique(t[i := EMPTY]) && Keys(t[i := EMPTY]) == Keys(t) - {t[i].key}
  {
    var u := t[i := EMPTY];
    forall k | k in Keys(t) && k != t[i].key
      ensures k in Keys(u)
    {
      assert u[At(t, k)].key == k;
    }
  }

  lemma ClearContents(t: seq<Bucket>, i: nat)
    requires Unique(t) && i < |t| && t[i].key != 0
    ensures Unique(t[i := EMPTY]) && Contents(t[i := EMPTY]) == Contents(t) - {t[i].key}
  {
    var u := t[i := EMPTY];
    ClearKeys(t, i);
    forall k | k in Keys(u)
      ensures Contents(u)[k] == Contents(t)[k]
    {
      ContentsAt(u, At(u, k));
      ContentsAt(t, At(u, k));
    }
  }

  lemma PullMovesGap(t: seq<Bucket>, g: Geometry, i: nat)
    requires Gap(t, g, i) && t[Next(i, |t|)].psl > 0
    ensures Gap(Pulled(t, i), g, Next(i, |t|))
  {
    var j := Next(i, |t|);
    var u := Pulled(t, i);
    assert Clean(t, j) && Placed(t, g, j);
    assert j != i;
    DistNext(g.Home(t[j].key), i, |t|);
    forall p: nat | p < |u|
      ensures Clean(u, p) && Placed(u, g, p)
    {
      assert Clean(t, p) && Placed(t, g, p);
    }
    PullOrder(t, i);
    assert Unique(u);
  }

  lemma PullOrder(t: seq<Bucket>, i: nat)
    requires i < |t| && Next(i, |t|) != i && t[i] == EMPTY
    requires t[Next(i, |t|)].psl > 0 && t[Next(i, |t|)].key != 0
    requires forall p :: 0 <= p < |t| && p != Next(i, |t|) ==> Ordered(t, p)
    requires t[Next(i, |t|)].psl > 1 ==>
               t[Prev(i, |t|)].key != 0 && t[Next(i, |t|)].psl <= t[Prev(i, |t|)].psl + 2
    ensures var u, j := Pulled(t, i), Next(i, |t|);
      && (forall p :: 0 <= p < |u| && p != Next(j, |u|) ==> Ordered(u, p))
      && (u[Next(j, |u|)].psl > 1 ==>
           u[i].key != 0 && u[Next(j, |u|)].psl <= u[i].psl + 2)
  {
    var u, j := Pulled(t, i), Next(i, |t|);
    forall p: nat | p < |u| && p != Next(j, |u|)
      ensures Ordered(u, p)
    {
      if p != j {
        assert Ordered(t, p);
      }
    }
    if Next(j, |u|) != i {
      assert Ordered(t, Next(j, |t|));
      assert Prev(Next(j, |t|), |t|) == j;
    }
  }

  lemma PullContents(t: seq<Bucket>, i: nat)
    requires Unique(t) && i < |t| && t[i] == EMPTY && t[Next(i, |t|)].psl > 0 && Next(i, |t|) != i
    ensures Unique(Pulled(t, i)) && Contents(Pulled(t, i)) == Contents(t)
  {
    var j := Next(i, |t|);
    var u := Pulled(t, i);
    forall k | k in Keys(t)
      ensures k in Keys(u)
    {
      assert u[if At(t, k) == j then i else At(t, k)].key == k;
    }
    forall k | k in Keys(u)
      ensures k in Keys(t) && Contents(u)[k] == Contents(t)[k]
    {
      var p := if At(u, k) == i then j else At(u, k);
      assert t[p].key == k;
      ContentsAt(u, At(u, k));
      ContentsAt(t, p);
    }
  }

  lemma {:induction false} ShiftClosesGap(t: seq<Bucket>, g: Geometry, i: nat, e: nat)
    requires Gap(t, g, i) && e < |t| && i != e && t[e].key == 0
    ensures RobinHood(Shift(t, i, e), g)
    ensures Contents(Shift(t, i, e)) == Contents(t)
    decreases Dist(i, e, |t|)
  {
    var j := Next(i, |t|);
    if t[j].key == 0 || t[j].psl == 0 {
      assert Clean(t, j);
      assert Ordered(t, j);
    } else {
      PullMovesGap(t, g, i);
      PullContents(t, i);
      ShiftClosesGap(Pulled(t, i), g, j, e);
    }
  }

  /** Deletion is map removal, and the table is Robin Hood again. */
  lemma DeleteRefinesRemoval(t: seq<Bucket>, g: Geometry, i: nat, e: nat)
    requires RobinHood(t, g) && i < |t| && e < |t| && t[i].key != 0 && t[e].key == 0
    ensures RobinHood(Delete(t, i, e), g)
    ensures Contents(Delete(t, i, e)) == Contents(t) - {t[i].key}
  {
    ClearOpensGap(t, g, i);
    ShiftClosesGap(t[i := EMPTY], g, i, e);
  }
}
