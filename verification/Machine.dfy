// The table as a transition system: what each call may do to it, and what every
// run of calls amounts to.
module Machine {
  import opened Words
  import opened Ring
  import opened Table
  import opened Lookup
  import opened Insertion
  import opened Deletion
  import opened Layout
  import opened LoadPolicy

  /** combine(code, stored, val) is the update a put with that code performs. */
  datatype Config = Config(hash: (nat, nat) -> uint32, combine: (int, Val, Val) -> Option<Val>)

  datatype State = State(buckets: seq<Bucket>, nitems: nat, minsize: nat, seed: nat)

  /** seed is the one drawn if the call resizes. */
  datatype Op =
    | Put(key: nat, val: Val, code: int, seed: nat)
    | Del(key: nat, seed: nat)
    | Get(key: nat)

  datatype Reply = Reply(status: int, found: bool, val: Val)

  function Geo(c: Config, s: State): Geometry {
    Geometry(c.hash, s.seed, |s.buckets|)
  }

  ghost function Model(s: State): map<nat, Val> {
    Contents(s.buckets)
  }

  /** A well-formed table whose item count is right. */
  ghost predicate Sound(c: Config, s: State) {
    RobinHood(s.buckets, Geo(c, s)) && s.nitems == |Model(s)|
  }

  /** What holds between any two calls. */
  ghost predicate Inv(c: Config, s: State) {
    Sound(c, s) && LoadOk(s.nitems, s.minsize, |s.buckets|)
  }

  ghost function AnEmpty(t: seq<Bucket>): (e: nat)
    requires HasEmpty(t)
    ensures e < |t| && t[e].key == 0
  {
    var e: nat :| e < |t| && t[e].key == 0;
    e
  }

  lemma RoomHasEmpty(c: Config, s: State)
    requires Sound(c, s)
    ensures HasEmpty(s.buckets) <==> s.nitems < |s.buckets|
  {
    ItemCount(s.buckets);
    OccupiedCount(s.buckets);
  }

  lemma InvHasEmpty(c: Config, s: State)
    requires Inv(c, s)
    ensures HasEmpty(s.buckets) && s.nitems < |s.buckets|
  {
    LoadLeavesRoom(s.nitems, s.minsize, |s.buckets|);
    RoomHasEmpty(c, s);
  }

  lemma CountPositive(c: Config, s: State, i: nat)
    requires Sound(c, s) && i < |s.buckets| && s.buckets[i].key != 0
    ensures s.nitems > 0
  {
    ContentsAt(s.buckets, i);
    RemoveShrinksCount(Model(s), s.buckets[i].key);
  }

  function MergeOf(c: Config, code: int): Merge {
    (stored, val) => c.combine(code, stored, val)
  }

  ghost predicate Created(c: Config, s: State, minsize: nat) {
    && HASH_INIT_SIZE <= minsize < UINT_MAX && s.minsize == minsize && s.nitems == 0
    && |s.buckets| == minsize && forall i :: 0 <= i < |s.buckets| ==> s.buckets[i] == EMPTY
  }

  /** A resize: new seed, new size, same map. */
  ghost predicate Resized(c: Config, s: State, newsize: nat, seed: nat, s': State) {
    && |s'.buckets| == newsize && s'.seed == seed && s'.minsize == s.minsize
    && Sound(c, s') && Model(s') == Model(s)
  }

  ghost predicate MaybeResized(c: Config, s: State, target: Option<nat>, seed: nat, s': State) {
    match target
    case None => s' == s
    case Some(newsize) => Resized(c, s, newsize, seed, s')
  }

  ghost predicate InsertStep(c: Config, s: State, key: nat, val: Val, code: int, r: Reply, s': State) {
    if key == 0 then s' == s && r.status == 0
    else
      && |s.buckets| > 0 && HasEmpty(s.buckets)
      && match Insert(s.buckets, Geo(c, s), key, val, MergeOf(c, code), AnEmpty(s.buckets))
         case Inserted(u) => s' == s.(buckets := u, nitems := s.nitems + 1) && r == Reply(0, false, 0)
         case Updated(u, previous) => s' == s.(buckets := u) && r == Reply(0, true, previous)
         case Rejected(u, previous) => s' == s.(buckets := u) && r == Reply(-1, true, previous)
  }

  ghost predicate PutStep(c: Config, s: State, op: Op, r: Reply, s': State)
    requires op.Put?
  {
    && |s.buckets| < 0x1_0000_0000
    && (GrowTo(s.nitems, |s.buckets|).Some? ==> |s.buckets| < 0x8000_0000)
    && exists mid :: MaybeResized(c, s, GrowTo(s.nitems, |s.buckets|), op.seed, mid)
                  && InsertStep(c, mid, op.key, op.val, op.code, r, s')
  }

  ghost function Searched(c: Config, s: State, key: nat): Search
    requires |s.buckets| > 0 && HasEmpty(s.buckets)
  {
    Probe(s.buckets, key, Geo(c, s).Home(key), 0, AnEmpty(s.buckets))
  }

  ghost predicate GetStep(c: Config, s: State, key: nat, r: Reply, s': State) {
    && s' == s && |s.buckets| > 0 && HasEmpty(s.buckets)
    && match Searched(c, s, key)
       case Found(i) => i < |s.buckets| && r == Reply(0, true, s.buckets[i].val)
       case Absent => r == Reply(0, false, 0)
  }

  /** The backward shift alone, before any shrinking. */
  ghost predicate RemoveStep(c: Config, s: State, key: nat, r: Reply, s': State) {
    && |s.buckets| > 0 && HasEmpty(s.buckets)
    && if key == 0 || Searched(c, s, key).Absent? then
         s' == s && r == Reply(0, false, 0)
       else
         var i := Searched(c, s, key).at;
         && i < |s.buckets| && s.buckets[i].key != 0 && s.nitems > 0
         && r == Reply(0, true, s.buckets[i].val)
         && s' == s.(buckets := Delete(s.buckets, i, AnEmpty(s.buckets)), nitems := s.nitems - 1)
  }

  ghost predicate DelStep(c: Config, s: State, op: Op, r: Reply, s': State)
    requires op.Del?
  {
    exists mid :: RemoveStep(c, s, op.key, r, mid) && MaybeResized(c, mid, ShrinkTarget(mid, r), op.seed, s')
  }

  function ShrinkTarget(s: State, r: Reply): Option<nat> {
    if r.found then ShrinkTo(s.nitems, s.minsize, |s.buckets|) else None
  }

  ghost predicate Step(c: Config, s: State, op: Op, r: Reply, s': State) {
    match op
    case Put(_, _, _, _) => PutStep(c, s, op, r, s')
    case Del(_, _) => DelStep(c, s, op, r, s')
    case Get(key) => GetStep(c, s, key, r, s')
  }

  // ---- The finite map the calls are documented to implement ----

  function MapApply(c: Config, m: map<nat, Val>, op: Op): map<nat, Val> {
    if op.key == 0 then m else
    match op
    case Put(key, val, code, _) =>
      if key !in m then m[key := val]
      else (match c.combine(code, m[key], val) case None => m case Some(v) => m[key := v])
    case Del(key, _) => m - {key}
    case Get(_) => m
  }

  function MapReply(c: Config, m: map<nat, Val>, op: Op): Reply {
    if op.key !in m then Reply(0, false, 0)
    else if op.Put? && c.combine(op.code, m[op.key], op.val).None? then Reply(-1, true, m[op.key])
    else Reply(0, true, m[op.key])
  }

  /** A reply is the documented one; for the reserved key 0 only the status is. */
  ghost predicate Answers(c: Config, m: map<nat, Val>, op: Op, r: Reply) {
    if op.key == 0 then r.status == 0 else r == MapReply(c, m, op)
  }

  // ---- Each call, from a state that satisfies the invariant ----

  lemma EmptyTableSound(c: Config, s: State)
    requires |s.buckets| > 0 && s.nitems == 0
    requires forall i :: 0 <= i < |s.buckets| ==> s.buckets[i] == EMPTY
    ensures Sound(c, s) && Model(s) == map[]
  {
    forall i: nat | i < |s.buckets|
      ensures Clean(s.buckets, i) && Placed(s.buckets, Geo(c, s), i) && Ordered(s.buckets, i)
    {
    }
    assert Keys(s.buckets) == {};
  }

  lemma CreatedIsInv(c: Config, s: State, minsize: nat)
    requires Created(c, s, minsize)
    ensures Inv(c, s) && Model(s) == map[]
  {
    EmptyTableSound(c, s);
    NewTableLoad(minsize);
  }

  /** The reserved key 0 is reported found in every new table, which has no keys. */
  lemma NewTableFindsZero(c: Config, s: State, minsize: nat, r: Reply, s': State)
    requires Created(c, s, minsize) && GetStep(c, s, 0, r, s')
    ensures r.found && 0 !in Model(s)
  {
    CreatedIsInv(c, s, minsize);
  }

  lemma InsertStepSound(c: Config, s: State, key: nat, val: Val, code: int, r: Reply, s': State, op: Op)
    requires Sound(c, s) && InsertStep(c, s, key, val, code, r, s')
    requires op.Put? && op.key == key && op.val == val && op.code == code
    ensures Sound(c, s') && |s'.buckets| == |s.buckets| && s'.minsize == s.minsize && s'.seed == s.seed
    ensures Model(s') == MapApply(c, Model(s), op) && Answers(c, Model(s), op, r)
    ensures s.nitems <= s'.nitems <= s.nitems + 1
    ensures s'.nitems == s.nitems + 1 <==> key != 0 && key !in Model(s)
  {
    if key != 0 {
      InsertRefinesUpdate(s.buckets, Geo(c, s), key, val, MergeOf(c, code), AnEmpty(s.buckets));
      InsertGrowsCount(Model(s), key, val);
    }
  }

  /** The state a put inserts into: it satisfies the invariant, and still will
      with one more record. */
  ghost predicate Ready(c: Config, s: State) {
    Inv(c, s) && LoadOk(s.nitems + 1, s.minsize, |s.buckets|)
  }

  lemma GrowPhase(c: Config, s: State, seed: nat, mid: State)
    requires Inv(c, s) && |s.buckets| < 0x1_0000_0000
    requires GrowTo(s.nitems, |s.buckets|).Some? ==> |s.buckets| < 0x8000_0000
    requires MaybeResized(c, s, GrowTo(s.nitems, |s.buckets|), seed, mid)
    ensures Ready(c, mid) && Model(mid) == Model(s) && mid.nitems == s.nitems && mid.minsize == s.minsize
    ensures |mid.buckets| == SizeAfter(GrowTo(s.nitems, |s.buckets|), |s.buckets|) >= |s.buckets|
  {
    if GrowTo(s.nitems, |s.buckets|).Some? {
      GrowKeepsLoad(s.nitems, s.minsize, |s.buckets|);
    } else {
      AddKeepsLoad(s.nitems, s.minsize, |s.buckets|);
    }
  }

  lemma GrownHasEmpty(c: Config, s: State, seed: nat, mid: State)
    requires Inv(c, s) && |s.buckets| < 0x1_0000_0000
    requires GrowTo(s.nitems, |s.buckets|).Some? ==> |s.buckets| < 0x8000_0000
    requires MaybeResized(c, s, GrowTo(s.nitems, |s.buckets|), seed, mid)
    ensures HasEmpty(mid.buckets)
  {
    GrowPhase(c, s, seed, mid);
    InvHasEmpty(c, mid);
  }

  lemma InsertPhase(c: Config, s: State, op: Op, r: Reply, s': State)
    requires op.Put? && Ready(c, s) && InsertStep(c, s, op.key, op.val, op.code, r, s')
    ensures Inv(c, s') && Model(s') == MapApply(c, Model(s), op) && Answers(c, Model(s), op, r)
    ensures s.nitems <= s'.nitems <= s.nitems + 1 && |s'.buckets| == |s.buckets| && s'.minsize == s.minsize
  {
    InsertStepSound(c, s, op.key, op.val, op.code, r, s', op);
  }

  lemma PutStepInv(c: Config, s: State, op: Op, r: Reply, s': State)
    requires op.Put? && Inv(c, s) && PutStep(c, s, op, r, s')
    ensures Inv(c, s') && Model(s') == MapApply(c, Model(s), op) && Answers(c, Model(s), op, r)
    ensures s'.minsize == s.minsize && s'.nitems <= s.nitems + 1
    ensures |s'.buckets| == SizeAfter(GrowTo(s.nitems, |s.buckets|), |s.buckets|) >= |s.buckets|
  {
    var mid :| MaybeResized(c, s, GrowTo(s.nitems, |s.buckets|), op.seed, mid)
            && InsertStep(c, mid, op.key, op.val, op.code, r, s');
    GrowPhase(c, s, op.seed, mid);
    InsertPhase(c, mid, op, r, s');
  }

  lemma SearchedIs(c: Config, s: State, key: nat)
    requires Sound(c, s) && HasEmpty(s.buckets) && key != 0
    ensures Searched(c, s, key) == if key in Model(s) then Found(At(s.buckets, key)) else Absent
    ensures key in Model(s) ==> Model(s)[key] == s.buckets[At(s.buckets, key)].val && s.nitems > 0
  {
    LookupIsComplete(s.buckets, Geo(c, s), key, AnEmpty(s.buckets));
    if key in Model(s) {
      ContentsAt(s.buckets, At(s.buckets, key));
      RemoveShrinksCount(Model(s), key);
    }
  }

  lemma DelOnMap(c: Config, m: map<nat, Val>, op: Op)
    requires op.Del?
    ensures op.key !in m ==> MapApply(c, m, op) == m == m - {op.key} && MapReply(c, m, op) == Reply(0, false, 0)
    ensures op.key != 0 && op.key in m ==>
      MapApply(c, m, op) == m - {op.key} && MapReply(c, m, op) == Reply(0, true, m[op.key])
  {
    assert op.key !in m ==> m - {op.key} == m;
  }

  lemma RemoveFound(c: Config, s: State, op: Op, r: Reply, s': State)
    requires op.Del? && Sound(c, s) && RemoveStep(c, s, op.key, r, s') && op.key != 0 && op.key in Model(s)
    ensures Sound(c, s') && |s'.buckets| == |s.buckets| && s'.minsize == s.minsize && s'.seed == s.seed
    ensures Model(s') == MapApply(c, Model(s), op) && r == MapReply(c, Model(s), op)
    ensures r.found && s.nitems > 0 && s'.nitems == s.nitems - 1
  {
    SearchedIs(c, s, op.key);
    DeleteRefinesRemoval(s.buckets, Geo(c, s), At(s.buckets, op.key), AnEmpty(s.buckets));
    RemoveShrinksCount(Model(s), op.key);
    DelOnMap(c, Model(s), op);
  }

  lemma RemoveAbsent(c: Config, s: State, op: Op, r: Reply, s': State)
    requires op.Del? && Sound(c, s) && RemoveStep(c, s, op.key, r, s') && op.key !in Model(s)
    ensures s' == s && Model(s) == MapApply(c, Model(s), op) && r == MapReply(c, Model(s), op) && !r.found
  {
    if op.key != 0 {
      SearchedIs(c, s, op.key);
    }
    DelOnMap(c, Model(s), op);
  }

  lemma RemoveStepSound(c: Config, s: State, op: Op, r: Reply, s': State)
    requires op.Del? && Sound(c, s) && RemoveStep(c, s, op.key, r, s')
    ensures Sound(c, s') && |s'.buckets| == |s.buckets| && s'.minsize == s.minsize && s'.seed == s.seed
    ensures Model(s') == MapApply(c, Model(s), op) && r == MapReply(c, Model(s), op)
    ensures r.found ==> s.nitems > 0 && s'.nitems == s.nitems - 1
    ensures !r.found ==> s' == s
  {
    if op.key in Model(s) {
      RemoveFound(c, s, op, r, s');
    } else {
      RemoveAbsent(c, s, op, r, s');
    }
  }

  lemma ShrinkPhase(c: Config, s: State, mid: State, r: Reply, seed: nat, s': State)
    requires Inv(c, s) && Sound(c, mid) && |mid.buckets| == |s.buckets| && mid.minsize == s.minsize
    requires r.found ==> s.nitems > 0 && mid.nitems == s.nitems - 1
    requires !r.found ==> mid == s
    requires MaybeResized(c, mid, ShrinkTarget(mid, r), seed, s')
    ensures Inv(c, s') && Model(s') == Model(mid) && s'.nitems == mid.nitems && s'.minsize == s.minsize
    ensures |s'.buckets| == SizeAfter(ShrinkTarget(mid, r), |s.buckets|)
    ensures ShrinkTarget(mid, r).Some? ==> ShrinkTarget(mid, r).value == |s.buckets| / 2
  {
    if r.found {
      if ShrinkTarget(mid, r).Some? {
        ShrinkKeepsLoad(s.nitems, s.minsize, |s.buckets|);
      } else {
        RemoveKeepsLoad(s.nitems, s.minsize, |s.buckets|);
      }
    }
  }

  /** The state between the removal and the shrinking. */
  lemma DelMid(c: Config, s: State, op: Op, r: Reply, s': State) returns (mid: State)
    requires op.Del? && Sound(c, s) && DelStep(c, s, op, r, s')
    ensures MaybeResized(c, mid, ShrinkTarget(mid, r), op.seed, s')
    ensures Sound(c, mid) && |mid.buckets| == |s.buckets| && mid.minsize == s.minsize
    ensures Model(mid) == MapApply(c, Model(s), op) && r == MapReply(c, Model(s), op)
    ensures r.found ==> s.nitems > 0 && mid.nitems == s.nitems - 1
    ensures !r.found ==> mid == s
  {
    mid :| RemoveStep(c, s, op.key, r, mid) && MaybeResized(c, mid, ShrinkTarget(mid, r), op.seed, s');
    RemoveStepSound(c, s, op, r, mid);
  }

  lemma DelStepInv(c: Config, s: State, op: Op, r: Reply, s': State)
    requires op.Del? && Inv(c, s) && DelStep(c, s, op, r, s')
    ensures Inv(c, s') && Model(s') == MapApply(c, Model(s), op) && r == MapReply(c, Model(s), op)
    ensures s'.minsize == s.minsize && s'.nitems <= s.nitems && (r.found ==> s'.nitems == s.nitems - 1)
    ensures |s'.buckets| == if r.found && ShrinkTo(s'.nitems, s.minsize, |s.buckets|).Some? then |s.buckets| / 2
                            else |s.buckets|
  {
    var mid := DelMid(c, s, op, r, s');
    ShrinkPhase(c, s, mid, r, op.seed, s');
  }

  /** Everything a put promises, from s to s'. */
  ghost predicate PutDone(c: Config, s: State, op: Op, r: Reply, s': State) {
    match op
    case Put(_, _, _, _) =>
      && PutStep(c, s, op, r, s') && Inv(c, s')
      && s'.minsize == s.minsize && s'.nitems <= s.nitems + 1
      && |s'.buckets| == SizeAfter(GrowTo(s.nitems, |s.buckets|), |s.buckets|) >= |s.buckets|
      && Model(s') == MapApply(c, Model(s), op) && Answers(c, Model(s), op, r)
    case _ => false
  }

  /** Everything a del promises. */
  ghost predicate DelDone(c: Config, s: State, op: Op, r: Reply, s': State) {
    match op
    case Del(_, _) =>
      && DelStep(c, s, op, r, s') && Inv(c, s') && s'.minsize == s.minsize && s'.nitems <= s.nitems
      && (|s'.buckets| == if r.found && ShrinkTo(s'.nitems, s.minsize, |s.buckets|).Some? then |s.buckets| / 2
                          else |s.buckets|)
      && Model(s') == MapApply(c, Model(s), op) && r == MapReply(c, Model(s), op)
    case _ => false
  }

  /** What that says without reference to the steps. */
  lemma DelMeans(c: Config, s: State, key: nat, seed: nat, r: Reply, s': State)
    requires DelDone(c, s, Op.Del(key, seed), r, s') && |s.buckets| < 0x1_0000_0000
    ensures r.status == 0 && Model(s') == Model(s) - {key}
    ensures (r.found <==> key in Model(s)) && r.val == if key in Model(s) then Model(s)[key] else 0
    ensures |s'.buckets| == if r.found && s'.nitems > s.minsize && 5 * (s'.nitems + 1) <= 2 * |s.buckets|
                            then |s.buckets| / 2 else |s.buckets|
  {
    DelOnMap(c, Model(s), Op.Del(key, seed));
    MarksInNumbers(s'.nitems, s.minsize, |s.buckets|);
    assert key == 0 ==> key !in Model(s);
  }

  lemma PutSizes(c: Config, s: State, op: Op, r: Reply, s': State)
    requires PutDone(c, s, op, r, s')
    ensures |s'.buckets| == if 20 * s.nitems <= 17 * |s.buckets| then |s.buckets|
                            else if |s.buckets| <= 0x10_0000 then 2 * |s.buckets| else |s.buckets| + 0x10_0000
  {
    MarksInNumbers(s.nitems, s.minsize, |s.buckets|);
  }

  lemma PutStepFrom(c: Config, s: State, op: Op, mid: State, r: Reply, s': State)
    requires op.Put? && Inv(c, s) && (GrowTo(s.nitems, |s.buckets|).Some? ==> |s.buckets| < 0x8000_0000)
    requires MaybeResized(c, s, GrowTo(s.nitems, |s.buckets|), op.seed, mid)
    requires InsertStep(c, mid, op.key, op.val, op.code, r, s')
    ensures PutDone(c, s, op, r, s')
  {
    PutStepInv(c, s, op, r, s');
  }

  lemma DelStepFrom(c: Config, s: State, op: Op, mid: State, r: Reply, s': State)
    requires op.Del? && Inv(c, s) && RemoveStep(c, s, op.key, r, mid)
    requires MaybeResized(c, mid, ShrinkTarget(mid, r), op.seed, s')
    ensures DelDone(c, s, op, r, s')
  {
    DelStepInv(c, s, op, r, s');
  }

  lemma GetStepInv(c: Config, s: State, op: Op, r: Reply, s': State)
    requires op.Get? && Inv(c, s) && GetStep(c, s, op.key, r, s')
    ensures s' == s && Answers(c, Model(s), op, r)
  {
    if op.key != 0 {
      SearchedIs(c, s, op.key);
    }
  }

  /** Every call keeps the invariant, acts on the map as documented and gives the
      documented answer. */
  lemma StepRefinesMap(c: Config, s: State, op: Op, r: Reply, s': State)
    requires Inv(c, s) && Step(c, s, op, r, s')
    ensures Inv(c, s') && Model(s') == MapApply(c, Model(s), op) && Answers(c, Model(s), op, r)
  {
    match op
    case Put(_, _, _, _) => PutStepInv(c, s, op, r, s');
    case Del(_, _) => DelStepInv(c, s, op, r, s');
    case Get(_) => GetStepInv(c, s, op, r, s');
  }
}
