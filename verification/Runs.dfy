// Properties of whole runs: any sequence of calls on a new table, with any
// seeds drawn by the resizes on the way.
module Runs {
  import opened Words
  import opened Table
  import opened Layout
  import opened LoadPolicy
  import opened Machine
  import opened Variance

  /** states[i] becomes states[i+1] by call ops[i], which answers replies[i]. */
  ghost predicate Run(c: Config, states: seq<State>, ops: seq<Op>, replies: seq<Reply>) {
    && |states| == |ops| + 1 && |replies| == |ops|
    && (exists minsize :: Created(c, states[0], minsize))
    && forall i :: 0 <= i < |ops| ==> Step(c, states[i], ops[i], replies[i], states[i + 1])
  }

  /** The map a sequence of calls builds from the empty one. */
  function MapAfter(c: Config, ops: seq<Op>): map<nat, Val> {
    if ops == [] then map[]
    else MapApply(c, MapAfter(c, ops[..|ops| - 1]), ops[|ops| - 1])
  }

  lemma MapAfterStep(c: Config, ops: seq<Op>, i: nat)
    requires i < |ops|
    ensures MapAfter(c, ops[..i + 1]) == MapApply(c, MapAfter(c, ops[..i]), ops[i])
  {
    assert ops[..i + 1][..i] == ops[..i];
  }

  lemma {:induction false} RunState(c: Config, states: seq<State>, ops: seq<Op>, replies: seq<Reply>, i: nat)
    requires Run(c, states, ops, replies) && i <= |ops|
    ensures Inv(c, states[i]) && Model(states[i]) == MapAfter(c, ops[..i])
  {
    if i == 0 {
      var minsize :| Created(c, states[0], minsize);
      CreatedIsInv(c, states[0], minsize);
    } else {
      RunState(c, states, ops, replies, i - 1);
      StepRefinesMap(c, states[i - 1], ops[i - 1], replies[i - 1], states[i]);
      MapAfterStep(c, ops, i - 1);
    }
  }

  /** Whole-run refinement: every state satisfies the invariant and stands for
      the map the calls so far describe, and every call answers as documented. */
  lemma RunRefinesMap(c: Config, states: seq<State>, ops: seq<Op>, replies: seq<Reply>)
    requires Run(c, states, ops, replies)
    ensures forall i :: 0 <= i <= |ops| ==> Inv(c, states[i]) && Model(states[i]) == MapAfter(c, ops[..i])
    ensures forall i :: 0 <= i < |ops| ==> Answers(c, MapAfter(c, ops[..i]), ops[i], replies[i])
  {
    forall i | 0 <= i <= |ops|
      ensures Inv(c, states[i]) && Model(states[i]) == MapAfter(c, ops[..i])
    {
      RunState(c, states, ops, replies, i);
    }
    forall i | 0 <= i < |ops|
      ensures Answers(c, MapAfter(c, ops[..i]), ops[i], replies[i])
    {
      StepRefinesMap(c, states[i], ops[i], replies[i], states[i + 1]);
    }
  }

  /** With update codes that are never rejected, every call returns status 0. */
  lemma StatusIsZero(c: Config, states: seq<State>, ops: seq<Op>, replies: seq<Reply>)
    requires Run(c, states, ops, replies)
    requires forall i, stored :: 0 <= i < |ops| && ops[i].Put? ==> c.combine(ops[i].code, stored, ops[i].val).Some?
    ensures forall i :: 0 <= i < |ops| ==> replies[i].status == 0
  {
    RunRefinesMap(c, states, ops, replies);
    forall i | 0 <= i < |ops|
      ensures replies[i].status == 0
    {
      assert Answers(c, MapAfter(c, ops[..i]), ops[i], replies[i]);
    }
  }

  // ---- What value a key has ----

  ghost predicate PutsKey(op: Op, k: nat) {
    op.Put? && op.key == k
  }

  ghost predicate DelsKey(op: Op, k: nat) {
    op.Del? && op.key == k
  }

  /** The put at s brought k in, and nothing removed it since. */
  ghost predicate PresentSince(c: Config, ops: seq<Op>, k: nat, s: nat) {
    && s < |ops| && PutsKey(ops[s], k) && k !in MapAfter(c, ops[..s])
    && forall i :: s < i < |ops| ==> !DelsKey(ops[i], k)
  }

  /** The updates to k after the put at s, folded in order into its value. */
  function FoldSince(c: Config, ops: seq<Op>, k: nat, s: nat): Val
    requires s < |ops| && ops[s].Put?
    decreases |ops|
  {
    if |ops| == s + 1 then ops[s].val
    else
      var last := ops[|ops| - 1];
      var v := FoldSince(c, ops[..|ops| - 1], k, s);
      if last.Put? && last.key == k then
        match c.combine(last.code, v, last.val) case None => v case Some(w) => w
      else v
  }

  lemma {:induction false} FoldIsStored(c: Config, ops: seq<Op>, k: nat, s: nat)
    requires k != 0 && PresentSince(c, ops, k, s)
    ensures k in MapAfter(c, ops) && MapAfter(c, ops)[k] == FoldSince(c, ops, k, s)
    decreases |ops|
  {
    var before := ops[..|ops| - 1];
    if |ops| > s + 1 {
      assert before[..s] == ops[..s];
      FoldIsStored(c, before, k, s);
    }
  }

  lemma {:induction false} PresentHasStart(c: Config, ops: seq<Op>, k: nat) returns (s: nat)
    requires k != 0 && k in MapAfter(c, ops)
    ensures PresentSince(c, ops, k, s)
    decreases |ops|
  {
    var before := ops[..|ops| - 1];
    if k in MapAfter(c, before) {
      s := PresentHasStart(c, before, k);
      assert before[..s] == ops[..s];
      assert !DelsKey(ops[|ops| - 1], k);
      assert forall i :: s < i < |before| ==> before[i] == ops[i];
    } else {
      s := |ops| - 1;
    }
  }

  /** A key is present exactly when some put brought it in after it was last
      absent, and its value is then the in-order fold of the updates since. */
  lemma StoredValueIsFold(c: Config, ops: seq<Op>, k: nat)
    requires k != 0
    ensures k in MapAfter(c, ops) <==> exists s :: PresentSince(c, ops, k, s)
    ensures forall s :: PresentSince(c, ops, k, s) ==> MapAfter(c, ops)[k] == FoldSince(c, ops, k, s)
  {
    if k in MapAfter(c, ops) {
      var s := PresentHasStart(c, ops, k);
    }
    forall s | PresentSince(c, ops, k, s)
      ensures k in MapAfter(c, ops) && MapAfter(c, ops)[k] == FoldSince(c, ops, k, s)
    {
      FoldIsStored(c, ops, k, s);
    }
  }

  // ---- The layout does not depend on the run ----

  ghost predicate Reachable(c: Config, s: State) {
    exists states, ops, replies :: Run(c, states, ops, replies) && s == states[|ops|]
  }

  lemma ReachableIsInv(c: Config, s: State)
    requires Reachable(c, s)
    ensures Inv(c, s) && HasEmpty(s.buckets)
  {
    var states, ops, replies :| Run(c, states, ops, replies) && s == states[|ops|];
    RunState(c, states, ops, replies, |ops|);
    LoadLeavesRoom(s.nitems, s.minsize, |s.buckets|);
    RoomHasEmpty(c, s);
  }

  /** Load bounds, the free bucket, and the bound on the probe sequence lengths in
      every reachable state. */
  lemma ReachableBounds(c: Config, s: State)
    requires Reachable(c, s)
    ensures 65536 <= s.minsize <= |s.buckets| < 0xffff_ffff
    ensures 20 * (s.nitems - 1) <= 17 * |s.buckets| && s.nitems < |s.buckets|
    ensures s.nitems <= s.minsize ==> 2 * |s.buckets| < 5 * (s.minsize + 2)
    ensures s.nitems > s.minsize ==> 2 * |s.buckets| < 5 * (s.nitems + 1)
    ensures forall i :: 0 <= i < |s.buckets| && s.buckets[i].key != 0 ==> s.buckets[i].psl < s.nitems
  {
    ReachableIsInv(c, s);
    LoadLeavesRoom(s.nitems, s.minsize, |s.buckets|);
    forall i: nat | i < |s.buckets| && s.buckets[i].key != 0
      ensures s.buckets[i].psl < s.nitems
    {
      StoredPslBound(s.buckets, Geo(c, s), i);
    }
  }

  /** Two tables reached by any two runs, with the same keys, size and seed, have
      the same occupied buckets and the same psl in each. */
  lemma RunsLeaveSameLayout(c: Config, s: State, s': State)
    requires Reachable(c, s) && Reachable(c, s') && Geo(c, s) == Geo(c, s') && Keys(s.buckets) == Keys(s'.buckets)
    ensures forall x :: 0 <= x < |s.buckets| ==>
      && (s.buckets[x].key != 0 <==> s'.buckets[x].key != 0)
      && s.buckets[x].psl == s'.buckets[x].psl
  {
    ReachableIsInv(c, s);
    ReachableIsInv(c, s');
    HistoryIndependence(s.buckets, s'.buckets, Geo(c, s));
  }

  /** A reachable layout has the least maximum psl, the least sum of squares, and
      the same total psl, among all hole-free layouts of its keys. */
  lemma ReachableIsOptimal(c: Config, s: State, u: seq<Bucket>, bound: nat)
    requires Reachable(c, s) && NoHoles(u, Geo(c, s)) && Keys(u) == Keys(s.buckets)
    ensures (forall z :: 0 <= z < |u| && u[z].key != 0 ==> u[z].psl <= bound) ==>
            (forall x :: 0 <= x < |u| && s.buckets[x].key != 0 ==> s.buckets[x].psl <= bound)
    ensures TotalPsl(s.buckets, |u|) == TotalPsl(u, |u|) && TotalSquares(s.buckets, |u|) <= TotalSquares(u, |u|)
  {
    ReachableIsInv(c, s);
    VarianceIsLeast(s.buckets, u, Geo(c, s));
    if forall z :: 0 <= z < |u| && u[z].key != 0 ==> u[z].psl <= bound {
      MaximumIsLeast(s.buckets, u, Geo(c, s), bound);
    }
  }

  // ---- Resizes are far apart ----

  /** The call resizes the table. */
  ghost predicate Resizes(s: State, op: Op, r: Reply) {
    || (op.Put? && s.nitems > High(|s.buckets|))
    || (op.Del? && r.found && s.nitems > 0 && ShrinkTo(s.nitems - 1, s.minsize, |s.buckets|).Some?)
  }

  /** The number of puts and dels among ops[i..j]. */
  function Updates(ops: seq<Op>, i: nat, j: nat): nat
    requires i <= j <= |ops|
    decreases j - i
  {
    if i == j then 0 else Updates(ops, i, j - 1) + if ops[j - 1].Get? then 0 else 1
  }

  /** The load is far from both marks of the size. */
  ghost predicate FarFromMarks(s: State) {
    && s.nitems + Spacing(|s.buckets|) <= High(|s.buckets|) + 1
    && Low(|s.buckets|) + Spacing(|s.buckets|) <= s.nitems
  }

  lemma GrowingLeavesSpace(c: Config, s: State, op: Op, r: Reply, s': State)
    requires Inv(c, s) && op.Put? && PutStep(c, s, op, r, s') && s.nitems > High(|s.buckets|)
    ensures FarFromMarks(s')
  {
    var mid :| MaybeResized(c, s, GrowTo(s.nitems, |s.buckets|), op.seed, mid)
            && InsertStep(c, mid, op.key, op.val, op.code, r, s');
    GrowPhase(c, s, op.seed, mid);
    InsertPhase(c, mid, op, r, s');
    SpacedAfterGrow(s.nitems, s.minsize, |s.buckets|);
  }

  lemma ShrinkingLeavesSpace(c: Config, s: State, op: Op, r: Reply, s': State)
    requires Inv(c, s) && op.Del? && DelStep(c, s, op, r, s') && r.found && s.nitems > 0
    requires ShrinkTo(s.nitems - 1, s.minsize, |s.buckets|).Some?
    ensures FarFromMarks(s')
  {
    var mid := DelMid(c, s, op, r, s');
    ShrinkPhase(c, s, mid, r, op.seed, s');
    ShrinkKeepsLoad(s.nitems, s.minsize, |s.buckets|);
    SpacedAfterShrink(s.nitems, s.minsize, |s.buckets|);
  }

  /** A call that resizes leaves a load far from both marks of the new size. */
  lemma ResizeLeavesSpace(c: Config, s: State, op: Op, r: Reply, s': State)
    requires Inv(c, s) && Step(c, s, op, r, s') && Resizes(s, op, r)
    ensures FarFromMarks(s')
  {
    if op.Put? {
      GrowingLeavesSpace(c, s, op, r, s');
    } else {
      ShrinkingLeavesSpace(c, s, op, r, s');
    }
  }

  /** s and s' have the same size and counts at most one apart. */
  ghost predicate Near(s: State, s': State) {
    |s'.buckets| == |s.buckets| && s.nitems - 1 <= s'.nitems <= s.nitems + 1
  }

  lemma QuietPut(c: Config, s: State, op: Op, r: Reply, s': State)
    requires Inv(c, s) && op.Put? && PutStep(c, s, op, r, s') && s.nitems <= High(|s.buckets|)
    ensures Near(s, s')
  {
    var mid :| MaybeResized(c, s, GrowTo(s.nitems, |s.buckets|), op.seed, mid)
            && InsertStep(c, mid, op.key, op.val, op.code, r, s');
    InsertStepSound(c, mid, op.key, op.val, op.code, r, s', op);
  }

  lemma QuietDel(c: Config, s: State, op: Op, r: Reply, s': State)
    requires Inv(c, s) && op.Del? && DelStep(c, s, op, r, s') && !Resizes(s, op, r)
    ensures Near(s, s')
  {
    var mid := DelMid(c, s, op, r, s');
    assert ShrinkTarget(mid, r).None?;
  }

  /** A call that does not resize keeps the size and moves the count by at most
      one, and only if it is a put or a del. */
  lemma QuietStep(c: Config, s: State, op: Op, r: Reply, s': State)
    requires Inv(c, s) && Step(c, s, op, r, s') && !Resizes(s, op, r)
    ensures Near(s, s') && (op.Get? ==> s' == s)
  {
    if op.Put? {
      QuietPut(c, s, op, r, s');
    } else if op.Del? {
      QuietDel(c, s, op, r, s');
    }
  }

  /** Call j changes the size not at all and the count by at most one, and
      neither if it is a get. */
  ghost predicate Quiet(states: seq<State>, ops: seq<Op>, j: nat)
    requires |states| == |ops| + 1 && j < |ops|
  {
    && Near(states[j], states[j + 1])
    && (ops[j].Get? ==> states[j + 1] == states[j])
  }

  lemma QuietCall(c: Config, states: seq<State>, ops: seq<Op>, replies: seq<Reply>, j: nat)
    requires Run(c, states, ops, replies) && j < |ops| && !Resizes(states[j], ops[j], replies[j])
    ensures Quiet(states, ops, j)
  {
    RunState(c, states, ops, replies, j);
    QuietStep(c, states[j], ops[j], replies[j], states[j + 1]);
  }

  lemma {:induction false} QuietStretch(states: seq<State>, ops: seq<Op>, i: nat, j: nat)
    requires |states| == |ops| + 1 && i <= j <= |ops|
    requires forall k :: i <= k < j ==> Quiet(states, ops, k)
    ensures |states[j].buckets| == |states[i].buckets|
    ensures states[i].nitems - Updates(ops, i, j) <= states[j].nitems <= states[i].nitems + Updates(ops, i, j)
    decreases j
  {
    if i < j {
      QuietStretch(states, ops, i, j - 1);
      assert Quiet(states, ops, j - 1);
    }
  }

  /** In a state between calls, those are exactly the calls that change the size. */
  lemma ResizesIff(c: Config, s: State, op: Op, r: Reply, s': State)
    requires Inv(c, s) && Step(c, s, op, r, s')
    ensures Resizes(s, op, r) <==> |s'.buckets| != |s.buckets|
  {
    if !Resizes(s, op, r) {
      QuietStep(c, s, op, r, s');
    } else if op.Put? {
      PutStepInv(c, s, op, r, s');
      GrowKeepsLoad(s.nitems, s.minsize, |s.buckets|);
    } else {
      DelStepInv(c, s, op, r, s');
    }
  }

  lemma ResizesInRun(c: Config, states: seq<State>, ops: seq<Op>, replies: seq<Reply>, k: nat)
    requires Run(c, states, ops, replies) && k < |ops|
    ensures Resizes(states[k], ops[k], replies[k]) <==> |states[k + 1].buckets| != |states[k].buckets|
  {
    RunState(c, states, ops, replies, k);
    ResizesIff(c, states[k], ops[k], replies[k], states[k + 1]);
  }

  /** No thrashing: after a resize to size s, at least min(s/50, 2^19) puts or
      dels come before the next call that resizes. */
  lemma ResizesAreSpaced(c: Config, states: seq<State>, ops: seq<Op>, replies: seq<Reply>, i: nat, j: nat)
    requires Run(c, states, ops, replies) && i < j < |ops|
    requires |states[i + 1].buckets| != |states[i].buckets| && |states[j + 1].buckets| != |states[j].buckets|
    requires forall k :: i < k < j ==> |states[k + 1].buckets| == |states[k].buckets|
    ensures Updates(ops, i + 1, j) >=
      if |states[i + 1].buckets| < 26214400 then |states[i + 1].buckets| / 50 else 0x8_0000
  {
    ResizesInRun(c, states, ops, replies, i);
    ResizesInRun(c, states, ops, replies, j);
    RunState(c, states, ops, replies, i);
    ResizeLeavesSpace(c, states[i], ops[i], replies[i], states[i + 1]);
    forall k | i + 1 <= k < j
      ensures Quiet(states, ops, k)
    {
      ResizesInRun(c, states, ops, replies, k);
      QuietCall(c, states, ops, replies, k);
    }
    QuietStretch(states, ops, i + 1, j);
  }
}
