// What a key holds after any run of the generated table, for each of the merges
// the generator emits: the last value put, or the sum, count, minimum or maximum
// of the values put since the key was last absent.
module Merges {
  import opened Words
  import opened Table
  import opened Machine
  import opened Runs
  import H = Hmap

  /** The table merges with this function. */
  ghost predicate MergesBy(c: Config, merge: (Val, Val) -> Val) {
    c.combine == H.MergeAlways(merge)
  }

  lemma FoldStep(c: Config, merge: (Val, Val) -> Val, ops: seq<Op>, k: nat, s: nat)
    requires MergesBy(c, merge) && s + 1 < |ops| && ops[s].Put?
    ensures var last, v := ops[|ops| - 1], FoldSince(c, ops[..|ops| - 1], k, s);
      FoldSince(c, ops, k, s) == if PutsKey(last, k) then merge(v, last.val) else v
  {
  }

  /** The value of a key in any state of a run is the fold since it came in. */
  lemma StoredFold(c: Config, states: seq<State>, ops: seq<Op>, replies: seq<Reply>, n: nat, k: nat, s: nat)
    requires Run(c, states, ops, replies) && n <= |ops| && k != 0 && PresentSince(c, ops[..n], k, s)
    ensures k in Model(states[n]) && Model(states[n])[k] == FoldSince(c, ops[..n], k, s)
  {
    RunState(c, states, ops, replies, n);
    FoldIsStored(c, ops[..n], k, s);
  }

  // ---- set ----

  lemma {:induction false} FoldOfSet(c: Config, merge: (Val, Val) -> Val, ops: seq<Op>, k: nat, s: nat, j: nat)
    requires MergesBy(c, merge) && forall stored, val :: merge(stored, val) == val
    requires s <= j < |ops| && PutsKey(ops[s], k) && PutsKey(ops[j], k)
    requires forall i :: j < i < |ops| ==> !PutsKey(ops[i], k)
    ensures FoldSince(c, ops, k, s) == ops[j].val
    decreases |ops|
  {
    if s + 1 < |ops| {
      FoldStep(c, merge, ops, k, s);
      if j < |ops| - 1 {
        FoldOfSet(c, merge, ops[..|ops| - 1], k, s, j);
      }
    }
  }

  /** Under set, a present key holds the last value put. */
  lemma RunKeepsLast(c: Config, merge: (Val, Val) -> Val, states: seq<State>, ops: seq<Op>, replies: seq<Reply>,
                     n: nat, k: nat, s: nat, j: nat)
    requires Run(c, states, ops, replies) && n <= |ops| && k != 0 && PresentSince(c, ops[..n], k, s)
    requires MergesBy(c, merge) && forall stored, val :: merge(stored, val) == val
    requires s <= j < n && ops[j].Put? && ops[j].key == k
    requires forall i :: j < i < n ==> !(ops[i].Put? && ops[i].key == k)
    ensures k in Model(states[n]) && Model(states[n])[k] == ops[j].val
  {
    StoredFold(c, states, ops, replies, n, k, s);
    FoldOfSet(c, merge, ops[..n], k, s, j);
  }

  // ---- sum and cnt ----

  /** The values put to k in ops[s..], added up. */
  function SumSince(ops: seq<Op>, k: nat, s: nat): Val
    requires s <= |ops|
    decreases |ops| - s
  {
    if s == |ops| then 0
    else (if ops[s].Put? && ops[s].key == k then ops[s].val else 0) + SumSince(ops, k, s + 1)
  }

  /** The number of puts to k in ops[s..]. */
  function PutsSince(ops: seq<Op>, k: nat, s: nat): nat
    requires s <= |ops|
    decreases |ops| - s
  {
    if s == |ops| then 0
    else (if ops[s].Put? && ops[s].key == k then 1 else 0) + PutsSince(ops, k, s + 1)
  }

  lemma {:induction false} SinceLast(ops: seq<Op>, k: nat, s: nat)
    requires s < |ops|
    ensures var last, before := ops[|ops| - 1], ops[..|ops| - 1];
      && SumSince(ops, k, s) == SumSince(before, k, s) + (if PutsKey(last, k) then last.val else 0)
      && PutsSince(ops, k, s) == PutsSince(before, k, s) + (if PutsKey(last, k) then 1 else 0)
    decreases |ops| - s
  {
    if s + 1 < |ops| {
      SinceLast(ops, k, s + 1);
    }
  }

  lemma {:induction false} FoldOfSum(c: Config, merge: (Val, Val) -> Val, ops: seq<Op>, k: nat, s: nat)
    requires MergesBy(c, merge) && forall stored, val :: merge(stored, val) == stored + val
    requires s < |ops| && PutsKey(ops[s], k)
    ensures FoldSince(c, ops, k, s) == SumSince(ops, k, s)
    decreases |ops|
  {
    SinceLast(ops, k, s);
    if s + 1 < |ops| {
      FoldStep(c, merge, ops, k, s);
      FoldOfSum(c, merge, ops[..|ops| - 1], k, s);
    }
  }

  lemma {:induction false} FoldOfCount(c: Config, merge: (Val, Val) -> Val, ops: seq<Op>, k: nat, s: nat)
    requires MergesBy(c, merge) && forall stored, val :: merge(stored, val) == stored + 1
    requires s < |ops| && PutsKey(ops[s], k)
    ensures FoldSince(c, ops, k, s) == ops[s].val + PutsSince(ops, k, s) - 1
    decreases |ops|
  {
    SinceLast(ops, k, s);
    if s + 1 < |ops| {
      FoldStep(c, merge, ops, k, s);
      FoldOfCount(c, merge, ops[..|ops| - 1], k, s);
    }
  }

  /** Under sum, a key holds the sum of the values put since it came in. */
  lemma RunSums(c: Config, merge: (Val, Val) -> Val, states: seq<State>, ops: seq<Op>, replies: seq<Reply>,
                n: nat, k: nat, s: nat)
    requires Run(c, states, ops, replies) && n <= |ops| && k != 0 && PresentSince(c, ops[..n], k, s)
    requires MergesBy(c, merge) && forall stored, val :: merge(stored, val) == stored + val
    ensures k in Model(states[n]) && Model(states[n])[k] == SumSince(ops[..n], k, s)
  {
    StoredFold(c, states, ops, replies, n, k, s);
    FoldOfSum(c, merge, ops[..n], k, s);
  }

  /** Under cnt, a key holds its first value plus the number of later puts. */
  lemma RunCounts(c: Config, merge: (Val, Val) -> Val, states: seq<State>, ops: seq<Op>, replies: seq<Reply>,
                  n: nat, k: nat, s: nat)
    requires Run(c, states, ops, replies) && n <= |ops| && k != 0 && PresentSince(c, ops[..n], k, s)
    requires MergesBy(c, merge) && forall stored, val :: merge(stored, val) == stored + 1
    ensures k in Model(states[n]) && Model(states[n])[k] == ops[s].val + PutsSince(ops[..n], k, s + 1)
  {
    StoredFold(c, states, ops, replies, n, k, s);
    FoldOfCount(c, merge, ops[..n], k, s);
  }

  // ---- min and max ----

  /** v was put to k in ops[s..]. */
  ghost predicate WasPut(ops: seq<Op>, k: nat, s: nat, v: Val) {
    exists i :: s <= i < |ops| && PutsKey(ops[i], k) && ops[i].val == v
  }

  lemma WasPutEarlier(ops: seq<Op>, k: nat, s: nat, v: Val)
    requires ops != [] && WasPut(ops[..|ops| - 1], k, s, v)
    ensures WasPut(ops, k, s, v)
  {
    var i :| s <= i < |ops| - 1 && PutsKey(ops[..|ops| - 1][i], k) && ops[..|ops| - 1][i].val == v;
    assert PutsKey(ops[i], k) && ops[i].val == v;
  }

  lemma {:induction false} FoldOfMin(c: Config, merge: (Val, Val) -> Val, ops: seq<Op>, k: nat, s: nat)
    requires MergesBy(c, merge)
    requires forall stored, val :: merge(stored, val) == if stored < val then stored else val
    requires s < |ops| && PutsKey(ops[s], k)
    ensures WasPut(ops, k, s, FoldSince(c, ops, k, s))
    ensures forall i :: s <= i < |ops| && PutsKey(ops[i], k) ==> FoldSince(c, ops, k, s) <= ops[i].val
    decreases |ops|
  {
    if s + 1 < |ops| {
      var before := ops[..|ops| - 1];
      FoldStep(c, merge, ops, k, s);
      FoldOfMin(c, merge, before, k, s);
      WasPutEarlier(ops, k, s, FoldSince(c, before, k, s));
      assert forall i :: s <= i < |before| ==> ops[i] == before[i];
    }
  }

  lemma {:induction false} FoldOfMax(c: Config, merge: (Val, Val) -> Val, ops: seq<Op>, k: nat, s: nat)
    requires MergesBy(c, merge)
    requires forall stored, val :: merge(stored, val) == if stored > val then stored else val
    requires s < |ops| && PutsKey(ops[s], k)
    ensures WasPut(ops, k, s, FoldSince(c, ops, k, s))
    ensures forall i :: s <= i < |ops| && PutsKey(ops[i], k) ==> FoldSince(c, ops, k, s) >= ops[i].val
    decreases |ops|
  {
    if s + 1 < |ops| {
      var before := ops[..|ops| - 1];
      FoldStep(c, merge, ops, k, s);
      FoldOfMax(c, merge, before, k, s);
      WasPutEarlier(ops, k, s, FoldSince(c, before, k, s));
      assert forall i :: s <= i < |before| ==> ops[i] == before[i];
    }
  }

  /** Under min, a key holds the least of the values put since it came in. */
  lemma RunKeepsLeast(c: Config, merge: (Val, Val) -> Val, states: seq<State>, ops: seq<Op>, replies: seq<Reply>,
                      n: nat, k: nat, s: nat)
    requires Run(c, states, ops, replies) && n <= |ops| && k != 0 && PresentSince(c, ops[..n], k, s)
    requires MergesBy(c, merge)
    requires forall stored, val :: merge(stored, val) == if stored < val then stored else val
    ensures k in Model(states[n])
    ensures exists i :: s <= i < n && ops[i].Put? && ops[i].key == k && Model(states[n])[k] == ops[i].val
    ensures forall i :: s <= i < n && ops[i].Put? && ops[i].key == k ==> Model(states[n])[k] <= ops[i].val
  {
    StoredFold(c, states, ops, replies, n, k, s);
    FoldOfMin(c, merge, ops[..n], k, s);
    var i :| s <= i < n && PutsKey(ops[..n][i], k) && ops[..n][i].val == Model(states[n])[k];
    assert ops[i].Put? && ops[i].key == k;
    forall i | s <= i < n && ops[i].Put? && ops[i].key == k
      ensures Model(states[n])[k] <= ops[i].val
    {
      assert PutsKey(ops[..n][i], k);
    }
  }

  /** Under max, the greatest. */
  lemma RunKeepsGreatest(c: Config, merge: (Val, Val) -> Val, states: seq<State>, ops: seq<Op>, replies: seq<Reply>,
                         n: nat, k: nat, s: nat)
    requires Run(c, states, ops, replies) && n <= |ops| && k != 0 && PresentSince(c, ops[..n], k, s)
    requires MergesBy(c, merge)
    requires forall stored, val :: merge(stored, val) == if stored > val then stored else val
    ensures k in Model(states[n])
    ensures exists i :: s <= i < n && ops[i].Put? && ops[i].key == k && Model(states[n])[k] == ops[i].val
    ensures forall i :: s <= i < n && ops[i].Put? && ops[i].key == k ==> Model(states[n])[k] >= ops[i].val
  {
    StoredFold(c, states, ops, replies, n, k, s);
    FoldOfMax(c, merge, ops[..n], k, s);
    var i :| s <= i < n && PutsKey(ops[..n][i], k) && ops[..n][i].val == Model(states[n])[k];
    assert ops[i].Put? && ops[i].key == k;
    forall i | s <= i < n && ops[i].Put? && ops[i].key == k
      ensures Model(states[n])[k] >= ops[i].val
    {
      assert PutsKey(ops[..n][i], k);
    }
  }
}
