// The parallel half of putn as a transition system: any number of threads, each
// taking one atomic step at a time, in any interleaving.
module ParallelPhase {
  import opened Words
  import opened Ring
  import opened Table
  import opened Lookup
  import opened Insertion

  /** A batch: key j is probed from locs[j], by the one thread tids[j]. */
  datatype Job = Job(geo: Geometry, keys: seq<nat>, vals: seq<Val>, locs: seq<nat>, tids: seq<nat>, nT: nat,
                     update: (Val, Val) -> Val)

  /** Where a thread is within its work on key j. An update reads the stored
      value in one step and writes the new one in another. */
  datatype Pc = Idle | Probing(i: nat, n: nat) | Loaded(i: nat, stored: Val)

  datatype Thread = Thread(j: nat, pc: Pc)

  datatype Phase = Phase(buckets: seq<Bucket>, founds: seq<bool>, isNew: seq<bool>, threads: seq<Thread>)

  /** The thread that handles a key: a remainder of its hash, kept in 8 bits. */
  function ThreadOf(geo: Geometry, nT: nat, key: nat): nat
    requires 0 < nT
  {
    geo.hash(key, geo.seed) % nT % 0x100
  }

  ghost predicate Sized(job: Job) {
    && 0 < job.nT && 0 < job.geo.size
    && |job.vals| == |job.locs| == |job.tids| == |job.keys|
  }

  /** locs and tids are what the preparation calls compute for this table. */
  ghost predicate Prepared(job: Job) {
    && Sized(job)
    && forall j :: 0 <= j < |job.keys| ==> PreparedAt(job, j)
  }

  ghost predicate PreparedAt(job: Job, j: nat)
    requires Sized(job) && j < |job.keys|
  {
    && job.locs[j] == job.geo.Home(job.keys[j])
    && job.tids[j] == ThreadOf(job.geo, job.nT, job.keys[j])
  }

  ghost predicate Shaped(job: Job, p: Phase) {
    && |p.buckets| == job.geo.size && |p.founds| == |job.keys| && |p.isNew| == |p.threads| == job.nT
  }

  ghost function Moved(p: Phase, me: nat, thread: Thread): Phase
    requires me < |p.threads|
  {
    p.(threads := p.threads[me := thread])
  }

  /** One atomic step of thread me. */
  ghost function StepThread(job: Job, p: Phase, me: nat): Phase
    requires Sized(job) && Shaped(job, p) && me < job.nT && p.threads[me].j < |job.keys|
    requires p.threads[me].pc.Idle? || p.threads[me].pc.i < |p.buckets|
  {
    var j := p.threads[me].j;
    match p.threads[me].pc
    case Idle =>
      if job.tids[j] != me then Moved(p, me, Thread(j + 1, Idle))
      else Moved(p, me, Thread(j, Probing(job.locs[j], 0))).(founds := p.founds[j := false])
    case Probing(i, n) =>
      if p.buckets[i].key == job.keys[j] then Moved(p, me, Thread(j, Loaded(i, p.buckets[i].val)))
      else if p.buckets[i].key == 0 || n > p.buckets[i].psl then
        Moved(p, me, Thread(j + 1, Idle)).(founds := p.founds[j := false], isNew := p.isNew[me := true])
      else Moved(p, me, Thread(j, Probing(Next(i, |p.buckets|), n + 1)))
    case Loaded(i, stored) =>
      Moved(p, me, Thread(j + 1, Idle)).(
        buckets := p.buckets[i := p.buckets[i].(val := job.update(stored, job.vals[j]))],
        founds := p.founds[j := true])
  }

  /** The updates to key k among the first n of the batch, folded into v. */
  ghost function Fold(job: Job, v: Val, k: nat, n: nat): Val
    requires |job.keys| == |job.vals|
  {
    if n == 0 then v
    else if n <= |job.keys| && job.keys[n - 1] == k then job.update(Fold(job, v, k, n - 1), job.vals[n - 1])
    else Fold(job, v, k, n - 1)
  }

  ghost predicate Starts(job: Job, t: seq<Bucket>, e: nat) {
    && Prepared(job) && RobinHood(t, job.geo) && e < |t| && t[e].key == 0
  }

  /** Whether the probe for key j of the batch, on the table at entry, finds it. */
  ghost predicate Hit(job: Job, t: seq<Bucket>, e: nat, j: nat)
    requires Starts(job, t, e) && j < |job.keys|
  {
    Landing(t, job.geo, job.keys[j], e).Found?
  }

  /** Only values differ from the table at entry. A bucket where the probe for its
      own key ends (any occupied one, and for key 0 at most one empty one) has the
      fold of the updates its one thread has finished; any other is unchanged. */
  ghost predicate BucketInv(job: Job, t: seq<Bucket>, e: nat, p: Phase, i: nat)
    requires Starts(job, t, e) && Shaped(job, p) && i < |t|
  {
    && p.buckets[i].key == t[i].key && p.buckets[i].psl == t[i].psl
    && p.buckets[i].val == if Landing(t, job.geo, t[i].key, e) == Found(i)
                           then Fold(job, t[i].val, t[i].key, Progress(job, p, t[i].key))
                           else t[i].val
  }

  /** How many keys of the batch the thread in charge of k has finished. */
  ghost function Progress(job: Job, p: Phase, k: nat): nat
    requires 0 < job.nT == |p.threads|
  {
    ThreadInRange(job.geo, job.nT, k);
    p.threads[ThreadOf(job.geo, job.nT, k)].j
  }

  lemma ThreadInRange(geo: Geometry, nT: nat, k: nat)
    requires 0 < nT
    ensures ThreadOf(geo, nT, k) < nT
  {
  }

  ghost predicate ThreadInv(job: Job, t: seq<Bucket>, e: nat, p: Phase, me: nat)
    requires Starts(job, t, e) && Shaped(job, p) && me < job.nT
  {
    var j := p.threads[me].j;
    && j <= |job.keys|
    && match p.threads[me].pc
       case Idle => true
       case Probing(i, n) =>
         && j < |job.keys| && job.tids[j] == me && i < |t|
         && Probe(t, job.keys[j], i, n, e) == Probe(t, job.keys[j], job.geo.Home(job.keys[j]), 0, e)
       case Loaded(i, stored) =>
         && j < |job.keys| && job.tids[j] == me && i < |t|
         && t[i].key == job.keys[j] && Landing(t, job.geo, job.keys[j], e) == Found(i)
         && stored == p.buckets[i].val
  }

  /** The found flag of a finished key tells whether its probe finds it. */
  ghost predicate FoundInv(job: Job, t: seq<Bucket>, e: nat, p: Phase, j: nat)
    requires Starts(job, t, e) && Shaped(job, p) && j < |job.keys|
  {
    ThreadInRange(job.geo, job.nT, job.keys[j]);
    j < Progress(job, p, job.keys[j]) ==> (p.founds[j] <==> Hit(job, t, e, j))
  }

  /** isNew[me] is set exactly when me has finished some key it did not find. */
  ghost predicate NewInv(job: Job, t: seq<Bucket>, e: nat, p: Phase, me: nat)
    requires Starts(job, t, e) && Shaped(job, p) && me < job.nT
  {
    p.isNew[me] <==> exists j :: 0 <= j < p.threads[me].j && Missed(job, t, e, me, j)
  }

  ghost predicate Missed(job: Job, t: seq<Bucket>, e: nat, me: nat, j: int)
    requires Starts(job, t, e)
  {
    0 <= j < |job.keys| && job.tids[j] == me && !Hit(job, t, e, j)
  }

  ghost predicate PhaseInv(job: Job, t: seq<Bucket>, e: nat, p: Phase) {
    && Starts(job, t, e) && Shaped(job, p)
    && (forall me :: 0 <= me < job.nT ==> ThreadInv(job, t, e, p, me))
    && (forall i :: 0 <= i < |t| ==> BucketInv(job, t, e, p, i))
    && (forall j :: 0 <= j < |job.keys| ==> FoundInv(job, t, e, p, j))
    && (forall me :: 0 <= me < job.nT ==> NewInv(job, t, e, p, me))
  }

  ghost predicate Initial(job: Job, t: seq<Bucket>, p: Phase) {
    && Shaped(job, p) && p.buckets == t
    && (forall me :: 0 <= me < job.nT ==> p.threads[me] == Thread(0, Idle))
    && (forall me :: 0 <= me < job.nT ==> !p.isNew[me])
  }

  lemma InitialInv(job: Job, t: seq<Bucket>, e: nat, p: Phase)
    requires Starts(job, t, e) && Initial(job, t, p)
    ensures PhaseInv(job, t, e, p)
  {
    forall i: nat | i < |t|
      ensures BucketInv(job, t, e, p, i)
    {
      assert Progress(job, p, t[i].key) == 0;
    }
    forall j: nat | j < |job.keys|
      ensures FoundInv(job, t, e, p, j)
    {
      assert Progress(job, p, job.keys[j]) == 0;
    }
  }

  ghost predicate Enabled(job: Job, p: Phase, me: nat) {
    me < job.nT == |p.threads| && p.threads[me].j < |job.keys|
  }

  // ---- What a step of thread me may change, component by component ----

  /** Threads other than me are where they were, and only buckets in the charge
      of me have a new value. */
  ghost predicate OthersStay(job: Job, t: seq<Bucket>, p: Phase, p': Phase, me: nat) {
    && 0 < job.nT && Shaped(job, p) && Shaped(job, p') && me < job.nT && |t| == job.geo.size
    && (forall a :: 0 <= a < job.nT && a != me ==> p'.threads[a] == p.threads[a])
    && (forall i :: 0 <= i < |t| && ThreadOf(job.geo, job.nT, t[i].key) != me ==> p'.buckets[i] == p.buckets[i])
  }

  lemma OtherThreadKeeps(job: Job, t: seq<Bucket>, e: nat, p: Phase, p': Phase, me: nat, a: nat)
    requires Starts(job, t, e) && OthersStay(job, t, p, p', me)
    requires a < job.nT && a != me && ThreadInv(job, t, e, p, a)
    ensures ThreadInv(job, t, e, p', a)
  {
    var j := p.threads[a].j;
    if p.threads[a].pc.Loaded? {
      assert PreparedAt(job, j);
    }
  }

  /** A bucket in the charge of another thread keeps its invariant. */
  lemma OtherBucketKeeps(job: Job, t: seq<Bucket>, e: nat, p: Phase, p': Phase, me: nat, i: nat)
    requires Starts(job, t, e) && OthersStay(job, t, p, p', me) && i < |t|
    requires ThreadOf(job.geo, job.nT, t[i].key) != me && BucketInv(job, t, e, p, i)
    ensures BucketInv(job, t, e, p', i)
  {
    ThreadInRange(job.geo, job.nT, t[i].key);
    assert Progress(job, p', t[i].key) == Progress(job, p, t[i].key);
  }

  /** A bucket in the charge of me, unchanged, keeps its invariant while me stays
      at the same key or finishes a key that does not update it. */
  lemma OwnBucketKeeps(job: Job, t: seq<Bucket>, e: nat, p: Phase, p': Phase, me: nat, i: nat)
    requires Starts(job, t, e) && Shaped(job, p) && Shaped(job, p') && Enabled(job, p, me)
    requires |t| == |p.buckets| && i < |t|
    requires ThreadOf(job.geo, job.nT, t[i].key) == me && BucketInv(job, t, e, p, i) && p'.buckets[i] == p.buckets[i]
    requires p'.threads[me].j == p.threads[me].j ||
      (p'.threads[me].j == p.threads[me].j + 1
        && (job.keys[p.threads[me].j] != t[i].key || Landing(t, job.geo, t[i].key, e) != Found(i)))
    ensures BucketInv(job, t, e, p', i)
  {
    assert Progress(job, p', t[i].key) == p'.threads[me].j;
    assert Progress(job, p, t[i].key) == p.threads[me].j;
  }

  lemma OtherFoundKeeps(job: Job, t: seq<Bucket>, e: nat, p: Phase, p': Phase, me: nat, k: nat)
    requires Starts(job, t, e) && Shaped(job, p) && Shaped(job, p') && Enabled(job, p, me) && k < |job.keys|
    requires forall a :: 0 <= a < job.nT && a != me ==> p'.threads[a] == p.threads[a]
    requires FoundInv(job, t, e, p, k) && p'.founds[k] == p.founds[k]
    requires p'.threads[me].j == p.threads[me].j ||
      (p'.threads[me].j == p.threads[me].j + 1 && (k != p.threads[me].j || job.tids[k] != me))
    ensures FoundInv(job, t, e, p', k)
  {
    assert PreparedAt(job, k);
    ThreadInRange(job.geo, job.nT, job.keys[k]);
  }

  // ---- Steps that stay at the same key ----

  /** Starting to probe, probing on, or loading a value. */
  lemma StayKeeps(job: Job, t: seq<Bucket>, e: nat, p: Phase, p': Phase, me: nat, pc: Pc)
    requires PhaseInv(job, t, e, p) && Enabled(job, p, me) && job.tids[p.threads[me].j] == me
    requires var j := p.threads[me].j;
      p' == Moved(p, me, Thread(j, pc)) || p' == Moved(p, me, Thread(j, pc)).(founds := p.founds[j := false])
    requires ThreadInv(job, t, e, p', me)
    ensures PhaseInv(job, t, e, p')
  {
    var j := p.threads[me].j;
    forall a: nat | a < job.nT
      ensures ThreadInv(job, t, e, p', a)
    {
      if a != me {
        OtherThreadKeeps(job, t, e, p, p', me, a);
      }
    }
    forall i: nat | i < |t|
      ensures BucketInv(job, t, e, p', i)
    {
      StayBucket(job, t, e, p, p', me, i);
    }
    forall k: nat | k < |job.keys|
      ensures FoundInv(job, t, e, p', k)
    {
      StayFound(job, t, e, p, p', me, k);
    }
    forall a: nat | a < job.nT
      ensures NewInv(job, t, e, p', a)
    {
      assert NewInv(job, t, e, p, a);
    }
  }

  lemma StayBucket(job: Job, t: seq<Bucket>, e: nat, p: Phase, p': Phase, me: nat, i: nat)
    requires Starts(job, t, e) && OthersStay(job, t, p, p', me) && Enabled(job, p, me) && i < |t|
    requires BucketInv(job, t, e, p, i) && p'.buckets == p.buckets && p'.threads[me].j == p.threads[me].j
    ensures BucketInv(job, t, e, p', i)
  {
    if ThreadOf(job.geo, job.nT, t[i].key) == me {
      OwnBucketKeeps(job, t, e, p, p', me, i);
    } else {
      OtherBucketKeeps(job, t, e, p, p', me, i);
    }
  }

  lemma StayFound(job: Job, t: seq<Bucket>, e: nat, p: Phase, p': Phase, me: nat, k: nat)
    requires Starts(job, t, e) && OthersStay(job, t, p, p', me) && Enabled(job, p, me) && k < |job.keys|
    requires FoundInv(job, t, e, p, k) && p'.threads[me].j == p.threads[me].j && job.tids[p.threads[me].j] == me
    requires p'.founds == p.founds || p'.founds == p.founds[p.threads[me].j := false]
    ensures FoundInv(job, t, e, p', k)
  {
    assert PreparedAt(job, k);
    if k != p.threads[me].j {
      OtherFoundKeeps(job, t, e, p, p', me, k);
    }
  }

  // ---- Steps that finish a key ----

  /** A thread passes over a key of another thread. */
  lemma SkipKeeps(job: Job, t: seq<Bucket>, e: nat, p: Phase, me: nat)
    requires PhaseInv(job, t, e, p) && Enabled(job, p, me)
    requires p.threads[me].pc.Idle? && job.tids[p.threads[me].j] != me
    ensures PhaseInv(job, t, e, Moved(p, me, Thread(p.threads[me].j + 1, Idle)))
  {
    var j := p.threads[me].j;
    var p' := Moved(p, me, Thread(j + 1, Idle));
    assert PreparedAt(job, j);
    forall a: nat | a < job.nT
      ensures ThreadInv(job, t, e, p', a)
    {
      if a != me {
        OtherThreadKeeps(job, t, e, p, p', me, a);
      }
    }
    forall i: nat | i < |t|
      ensures BucketInv(job, t, e, p', i)
    {
      if ThreadOf(job.geo, job.nT, t[i].key) == me {
        OwnBucketKeeps(job, t, e, p, p', me, i);
      } else {
        OtherBucketKeeps(job, t, e, p, p', me, i);
      }
    }
    forall k: nat | k < |job.keys|
      ensures FoundInv(job, t, e, p', k)
    {
      OtherFoundKeeps(job, t, e, p, p', me, k);
    }
    forall a: nat | a < job.nT
      ensures NewInv(job, t, e, p', a)
    {
      assert NewInv(job, t, e, p, a);
    }
  }

  /** A thread gives up on a key its probe does not find. */
  lemma MissKeeps(job: Job, t: seq<Bucket>, e: nat, p: Phase, me: nat)
    requires PhaseInv(job, t, e, p) && Enabled(job, p, me) && p.threads[me].pc.Probing?
    requires job.tids[p.threads[me].j] == me && !Hit(job, t, e, p.threads[me].j)
    ensures var j := p.threads[me].j;
      PhaseInv(job, t, e, Moved(p, me, Thread(j + 1, Idle)).(founds := p.founds[j := false],
          isNew := p.isNew[me := true]))
  {
    var j := p.threads[me].j;
    var p' := Moved(p, me, Thread(j + 1, Idle)).(founds := p.founds[j := false], isNew := p.isNew[me := true]);
    assert PreparedAt(job, j);
    forall a: nat | a < job.nT
      ensures ThreadInv(job, t, e, p', a)
    {
      if a != me {
        OtherThreadKeeps(job, t, e, p, p', me, a);
      }
    }
    forall i: nat | i < |t|
      ensures BucketInv(job, t, e, p', i)
    {
      if ThreadOf(job.geo, job.nT, t[i].key) == me {
        OwnBucketKeeps(job, t, e, p, p', me, i);
      } else {
        OtherBucketKeeps(job, t, e, p, p', me, i);
      }
    }
    forall k: nat | k < |job.keys|
      ensures FoundInv(job, t, e, p', k)
    {
      if k != j {
        OtherFoundKeeps(job, t, e, p, p', me, k);
      }
    }
    NewAfterMiss(job, t, e, p, p', me);
  }

  lemma NewAfterMiss(job: Job, t: seq<Bucket>, e: nat, p: Phase, p': Phase, me: nat)
    requires Starts(job, t, e) && OthersStay(job, t, p, p', me) && Enabled(job, p, me)
    requires p'.threads[me].j == p.threads[me].j + 1 && p'.isNew == p.isNew[me := true]
    requires Missed(job, t, e, me, p.threads[me].j)
    requires forall a :: 0 <= a < job.nT ==> NewInv(job, t, e, p, a)
    ensures forall a :: 0 <= a < job.nT ==> NewInv(job, t, e, p', a)
  {
    forall a: nat | a < job.nT
      ensures NewInv(job, t, e, p', a)
    {
      assert NewInv(job, t, e, p, a);
    }
  }

  lemma NewAfterStore(job: Job, t: seq<Bucket>, e: nat, p: Phase, p': Phase, me: nat)
    requires Starts(job, t, e) && OthersStay(job, t, p, p', me) && Enabled(job, p, me)
    requires p'.threads[me].j == p.threads[me].j + 1 && p'.isNew == p.isNew
    requires !Missed(job, t, e, me, p.threads[me].j)
    requires forall a :: 0 <= a < job.nT ==> NewInv(job, t, e, p, a)
    ensures forall a :: 0 <= a < job.nT ==> NewInv(job, t, e, p', a)
  {
    forall a: nat | a < job.nT
      ensures NewInv(job, t, e, p', a)
    {
      assert NewInv(job, t, e, p, a);
    }
  }

  /** A thread writes the new value of a key it found. */
  lemma StoreKeeps(job: Job, t: seq<Bucket>, e: nat, p: Phase, me: nat)
    requires PhaseInv(job, t, e, p) && Enabled(job, p, me) && p.threads[me].pc.Loaded?
    ensures p.threads[me].pc.i < |p.buckets|
    ensures PhaseInv(job, t, e, StepThread(job, p, me))
  {
    var j := p.threads[me].j;
    assert ThreadInv(job, t, e, p, me) && PreparedAt(job, j);
    var p' := StepThread(job, p, me);
    var x := p.threads[me].pc.i;
    forall a: nat | a < job.nT
      ensures ThreadInv(job, t, e, p', a)
    {
      if a != me {
        OtherThreadKeeps(job, t, e, p, p', me, a);
      }
    }
    forall i: nat | i < |t|
      ensures BucketInv(job, t, e, p', i)
    {
      if i == x {
        WrittenBucket(job, t, e, p, me, i, p.threads[me].pc.stored);
      } else if ThreadOf(job.geo, job.nT, t[i].key) == me {
        OwnBucketKeeps(job, t, e, p, p', me, i);
      } else {
        OtherBucketKeeps(job, t, e, p, p', me, i);
      }
    }
    forall k: nat | k < |job.keys|
      ensures FoundInv(job, t, e, p', k)
    {
      if k != j {
        OtherFoundKeeps(job, t, e, p, p', me, k);
      }
    }
    NewAfterStore(job, t, e, p, p', me);
  }

  lemma WrittenBucket(job: Job, t: seq<Bucket>, e: nat, p: Phase, me: nat, i: nat, stored: Val)
    requires Starts(job, t, e) && Shaped(job, p) && Enabled(job, p, me) && |t| == |p.buckets| && i < |t|
    requires var j := p.threads[me].j;
      && job.tids[j] == me && t[i].key == job.keys[j] && p.threads[me].pc == Loaded(i, stored)
      && Landing(t, job.geo, job.keys[j], e) == Found(i)
    requires BucketInv(job, t, e, p, i) && stored == p.buckets[i].val
    ensures BucketInv(job, t, e, StepThread(job, p, me), i)
  {
    var j := p.threads[me].j;
    assert PreparedAt(job, j);
    assert Progress(job, p, t[i].key) == j;
    assert Progress(job, StepThread(job, p, me), t[i].key) == j + 1;
  }

  /** One step of the probe loop on the current buckets is one on the buckets at
      entry. */
  lemma ProbeKeeps(job: Job, t: seq<Bucket>, e: nat, p: Phase, me: nat)
    requires PhaseInv(job, t, e, p) && Enabled(job, p, me) && p.threads[me].pc.Probing?
    ensures p.threads[me].pc.i < |p.buckets|
    ensures PhaseInv(job, t, e, StepThread(job, p, me))
  {
    var j := p.threads[me].j;
    var i := p.threads[me].pc.i;
    assert ThreadInv(job, t, e, p, me) && PreparedAt(job, j);
    assert BucketInv(job, t, e, p, i);
    var p' := StepThread(job, p, me);
    if p.buckets[i].key != job.keys[j] && (p.buckets[i].key == 0 || p.threads[me].pc.n > p.buckets[i].psl) {
      MissKeeps(job, t, e, p, me);
    } else {
      assert ThreadInv(job, t, e, p', me);
      StayKeeps(job, t, e, p, p', me, p'.threads[me].pc);
    }
  }

  /** Every step of every thread keeps the invariant. */
  lemma StepKeepsInv(job: Job, t: seq<Bucket>, e: nat, p: Phase, me: nat)
    requires PhaseInv(job, t, e, p) && Enabled(job, p, me)
    ensures p.threads[me].pc.Idle? || p.threads[me].pc.i < |p.buckets|
    ensures PhaseInv(job, t, e, StepThread(job, p, me))
  {
    var j := p.threads[me].j;
    if p.threads[me].pc.Probing? {
      ProbeKeeps(job, t, e, p, me);
    } else if p.threads[me].pc.Loaded? {
      StoreKeeps(job, t, e, p, me);
    } else if job.tids[j] != me {
      SkipKeeps(job, t, e, p, me);
    } else {
      assert PreparedAt(job, j);
      var p' := StepThread(job, p, me);
      assert ThreadInv(job, t, e, p', me);
      StayKeeps(job, t, e, p, p', me, p'.threads[me].pc);
    }
  }

  // ---- Any interleaving ----

  ghost predicate AllDone(job: Job, p: Phase) {
    |p.threads| == job.nT && forall me :: 0 <= me < job.nT ==> p.threads[me].j >= |job.keys|
  }

  /** Upper bound on the steps a thread still takes. */
  ghost function ThreadWork(keys: nat, size: nat, e: nat, thread: Thread): int {
    var w := size + 3;
    match thread.pc
    case Idle => (keys - thread.j) * w
    case Probing(i, n) => (keys - thread.j - 1) * w + 2 + if i < size && e < size then Dist(i, e, size) else 0
    case Loaded(i, stored) => (keys - thread.j - 1) * w + 1
  }

  ghost function Work(job: Job, e: nat, threads: seq<Thread>): int {
    if threads == [] then 0
    else Work(job, e, threads[..|threads| - 1]) + ThreadWork(|job.keys|, job.geo.size, e, threads[|threads| - 1])
  }

  lemma {:induction false} WorkUpdate(job: Job, e: nat, threads: seq<Thread>, me: nat, thread: Thread)
    requires me < |threads|
    ensures Work(job, e, threads[me := thread])
         == Work(job, e, threads) - ThreadWork(|job.keys|, job.geo.size, e, threads[me])
            + ThreadWork(|job.keys|, job.geo.size, e, thread)
  {
    var last := |threads| - 1;
    if me == last {
      assert threads[me := thread][..last] == threads[..last];
    } else {
      assert threads[me := thread][..last] == threads[..last][me := thread];
      WorkUpdate(job, e, threads[..last], me, thread);
    }
  }

  lemma NextKeyWork(keys: nat, size: nat, j: nat)
    ensures (keys - j) * (size + 3) == (keys - j - 1) * (size + 3) + size + 3
    ensures (keys - (j + 1)) * (size + 3) == (keys - j - 1) * (size + 3)
    ensures j < keys ==> (keys - j - 1) * (size + 3) >= 0
  {
    if j < keys {
      ProductNonNegative(keys - j - 1, size + 3);
    }
  }

  lemma ProductNonNegative(a: nat, b: nat)
    ensures 0 <= a * b
  {
  }

  /** Every step uses up work, so no schedule goes on for ever. */
  lemma StepUsesWork(job: Job, t: seq<Bucket>, e: nat, p: Phase, me: nat)
    requires PhaseInv(job, t, e, p) && Enabled(job, p, me)
    requires p.threads[me].pc.Idle? || p.threads[me].pc.i < |p.buckets|
    ensures Work(job, e, StepThread(job, p, me).threads) < Work(job, e, p.threads)
  {
    OwnWorkShrinks(job, t, e, p, me);
    WorkUpdate(job, e, p.threads, me, StepThread(job, p, me).threads[me]);
  }

  lemma OwnWorkShrinks(job: Job, t: seq<Bucket>, e: nat, p: Phase, me: nat)
    requires PhaseInv(job, t, e, p) && Enabled(job, p, me)
    requires p.threads[me].pc.Idle? || p.threads[me].pc.i < |p.buckets|
    ensures StepThread(job, p, me).threads == p.threads[me := StepThread(job, p, me).threads[me]]
    ensures ThreadWork(|job.keys|, job.geo.size, e, StepThread(job, p, me).threads[me])
          < ThreadWork(|job.keys|, job.geo.size, e, p.threads[me])
  {
    assert ThreadInv(job, t, e, p, me);
    NextKeyWork(|job.keys|, job.geo.size, p.threads[me].j);
    if p.threads[me].pc.Probing? {
      assert BucketInv(job, t, e, p, p.threads[me].pc.i);
      DistNext(e, p.threads[me].pc.i, |t|);
    }
  }

  lemma {:induction false} WorkIsNonNegative(job: Job, e: nat, threads: seq<Thread>)
    requires forall a :: 0 <= a < |threads| ==>
      threads[a].j <= |job.keys| && (threads[a].pc.Idle? || threads[a].j < |job.keys|)
    ensures Work(job, e, threads) >= 0
  {
    if threads != [] {
      WorkIsNonNegative(job, e, threads[..|threads| - 1]);
      var thread := threads[|threads| - 1];
      NextKeyWork(|job.keys|, job.geo.size, thread.j);
      ProductNonNegative(|job.keys| - thread.j, job.geo.size + 3);
    }
  }

  lemma InvWorkIsNonNegative(job: Job, t: seq<Bucket>, e: nat, p: Phase)
    requires PhaseInv(job, t, e, p)
    ensures Work(job, e, p.threads) >= 0
  {
    forall a | 0 <= a < |p.threads|
      ensures p.threads[a].j <= |job.keys| && (p.threads[a].pc.Idle? || p.threads[a].j < |job.keys|)
    {
      assert ThreadInv(job, t, e, p, a);
    }
    WorkIsNonNegative(job, e, p.threads);
  }

  /** phases follows the schedule: in step s the enabled thread schedule[s] moves. */
  ghost predicate Interleaving(job: Job, phases: seq<Phase>, schedule: seq<nat>) {
    && Prepared(job) && |phases| == |schedule| + 1
    && forall s :: 0 <= s < |schedule| ==> Follows(job, phases[s], schedule[s], phases[s + 1])
  }

  ghost predicate Follows(job: Job, p: Phase, me: nat, p': Phase)
    requires Prepared(job)
  {
    && Shaped(job, p) && Enabled(job, p, me)
    && (p.threads[me].pc.Idle? || p.threads[me].pc.i < |p.buckets|)
    && p' == StepThread(job, p, me)
  }

  lemma {:induction false} InterleavingInv(job: Job, t: seq<Bucket>, e: nat, phases: seq<Phase>,
      schedule: seq<nat>, s: nat)
    requires Starts(job, t, e) && Interleaving(job, phases, schedule) && Initial(job, t, phases[0]) && s <= |schedule|
    ensures PhaseInv(job, t, e, phases[s])
    ensures Work(job, e, phases[s].threads) <= Work(job, e, phases[0].threads) - s
  {
    if s == 0 {
      InitialInv(job, t, e, phases[0]);
    } else {
      InterleavingInv(job, t, e, phases, schedule, s - 1);
      assert Follows(job, phases[s - 1], schedule[s - 1], phases[s]);
      StepKeepsInv(job, t, e, phases[s - 1], schedule[s - 1]);
      StepUsesWork(job, t, e, phases[s - 1], schedule[s - 1]);
    }
  }

  /** During the phase no two threads ever write the same bucket: any two writes
      to one bucket, at whatever steps, are by the same thread. */
  lemma WritersAreDisjoint(job: Job, t: seq<Bucket>, e: nat, phases: seq<Phase>, schedule: seq<nat>, a: nat, b: nat)
    requires Starts(job, t, e) && Interleaving(job, phases, schedule) && Initial(job, t, phases[0])
    requires a < |schedule| && b < |schedule|
    requires Writes(job, phases[a], schedule[a]) && Writes(job, phases[b], schedule[b])
    requires phases[a].threads[schedule[a]].pc.i == phases[b].threads[schedule[b]].pc.i
    ensures schedule[a] == schedule[b]
  {
    InterleavingInv(job, t, e, phases, schedule, a);
    InterleavingInv(job, t, e, phases, schedule, b);
    assert ThreadInv(job, t, e, phases[a], schedule[a]) && ThreadInv(job, t, e, phases[b], schedule[b]);
    assert PreparedAt(job, phases[a].threads[schedule[a]].j) && PreparedAt(job, phases[b].threads[schedule[b]].j);
  }

  /** The next step of thread me writes a bucket. */
  ghost predicate Writes(job: Job, p: Phase, me: nat) {
    Enabled(job, p, me) && p.threads[me].pc.Loaded?
  }

  /** A step that does not write leaves the buckets alone; a write changes one
      value, and no key or psl. */
  lemma OnlyWritesChange(job: Job, p: Phase, me: nat)
    requires Prepared(job) && Shaped(job, p) && Enabled(job, p, me)
    requires p.threads[me].pc.Idle? || p.threads[me].pc.i < |p.buckets|
    ensures !Writes(job, p, me) ==> StepThread(job, p, me).buckets == p.buckets
    ensures Writes(job, p, me) ==> forall i :: 0 <= i < |p.buckets| ==>
      && StepThread(job, p, me).buckets[i].key == p.buckets[i].key
      && StepThread(job, p, me).buckets[i].psl == p.buckets[i].psl
      && (i != p.threads[me].pc.i ==> StepThread(job, p, me).buckets[i] == p.buckets[i])
  {
  }

  // ---- What the phase leaves behind, however the threads interleaved ----

  ghost predicate Outcome(job: Job, t: seq<Bucket>, p: Phase) {
    && Prepared(job) && Shaped(job, p) && |t| == job.geo.size
    && Contents(p.buckets) == (map k | k in Contents(t) :: Fold(job, Contents(t)[k], k, |job.keys|))
    && (RobinHood(p.buckets, job.geo) <==> !ReachesEmpty(t, job.geo.Home(0)) || Fold(job, 0, 0, |job.keys|) == 0)
    && (forall j :: 0 <= j < |job.keys| ==> FlagAsProbed(job, t, p.founds, j))
    && (AnyTrue(p.isNew) <==> AnyFalse(p.founds))
  }

  /** The flag of a real key tells whether it was there at entry; that of key 0,
      whether its probe walks into an empty bucket. */
  ghost predicate FlagAsProbed(job: Job, t: seq<Bucket>, founds: seq<bool>, j: nat)
    requires j < |job.keys| == |founds| && 0 < |t| == job.geo.size
  {
    founds[j] <==> if job.keys[j] != 0 then job.keys[j] in Keys(t) else ReachesEmpty(t, job.geo.Home(0))
  }

  /** What is_found is documented to say. */
  ghost predicate FlagsRight(keys: seq<nat>, founds: seq<bool>, present: set<nat>) {
    |founds| == |keys| && forall j :: 0 <= j < |keys| ==> (founds[j] <==> keys[j] in present)
  }

  ghost predicate AnyTrue(flags: seq<bool>) {
    exists a :: 0 <= a < |flags| && flags[a]
  }

  ghost predicate AnyFalse(flags: seq<bool>) {
    exists a :: 0 <= a < |flags| && !flags[a]
  }

  lemma DoneBuckets(job: Job, t: seq<Bucket>, e: nat, p: Phase, i: nat)
    requires PhaseInv(job, t, e, p) && AllDone(job, p) && i < |t|
    ensures p.buckets[i].key == t[i].key && p.buckets[i].psl == t[i].psl
    ensures p.buckets[i].val == if Landing(t, job.geo, t[i].key, e) == Found(i)
                                then Fold(job, t[i].val, t[i].key, |job.keys|) else t[i].val
  {
    assert BucketInv(job, t, e, p, i);
    ThreadInRange(job.geo, job.nT, t[i].key);
    assert ThreadInv(job, t, e, p, ThreadOf(job.geo, job.nT, t[i].key));
  }

  lemma DoneKeys(job: Job, t: seq<Bucket>, e: nat, p: Phase)
    requires PhaseInv(job, t, e, p) && AllDone(job, p)
    ensures Keys(p.buckets) == Keys(t) && Unique(p.buckets)
  {
    forall i: nat | i < |t|
      ensures p.buckets[i].key == t[i].key
    {
      DoneBuckets(job, t, e, p, i);
    }
    SameKeys(p.buckets, t);
  }

  lemma DoneContents(job: Job, t: seq<Bucket>, e: nat, p: Phase)
    requires PhaseInv(job, t, e, p) && AllDone(job, p)
    ensures Contents(p.buckets) == (map k | k in Contents(t) :: Fold(job, Contents(t)[k], k, |job.keys|))
  {
    DoneKeys(job, t, e, p);
    forall k | k in Keys(t)
      ensures Contents(p.buckets)[k] == Fold(job, Contents(t)[k], k, |job.keys|)
    {
      var i := At(t, k);
      LandsOnRecord(t, job.geo, i, e);
      DoneBuckets(job, t, e, p, i);
      ContentsAt(t, i);
      ContentsAt(p.buckets, i);
    }
  }

  lemma ZeroLanding(t: seq<Bucket>, g: Geometry, e: nat)
    requires RobinHood(t, g) && e < |t| && t[e].key == 0
    ensures Landing(t, g, 0, e).Found? <==> ReachesEmpty(t, g.Home(0))
    ensures Landing(t, g, 0, e).Found? ==> Landing(t, g, 0, e).at < |t| && t[Landing(t, g, 0, e).at].key == 0
  {
    ProbeForZero(t, g.Home(0), g.Home(0), 0, e);
    if Landing(t, g, 0, e).Found? {
      FoundHasKey(t, 0, g.Home(0), 0, e);
    }
  }

  /** Every bucket stays placed and ordered; an empty one stays zeroed unless it is
      where the probe for key 0 ends. */
  lemma DoneBucketOrder(job: Job, t: seq<Bucket>, e: nat, p: Phase, i: nat)
    requires PhaseInv(job, t, e, p) && AllDone(job, p) && i < |t|
    ensures Placed(p.buckets, job.geo, i) && Ordered(p.buckets, i)
    ensures Clean(p.buckets, i) <==>
      t[i].key != 0 || Landing(t, job.geo, 0, e) != Found(i) || Fold(job, 0, 0, |job.keys|) == 0
  {
    assert Clean(t, i) && Placed(t, job.geo, i) && Ordered(t, i);
    DoneBuckets(job, t, e, p, i);
    DoneBuckets(job, t, e, p, Prev(i, |t|));
  }

  /** The table is well formed afterwards exactly when no empty bucket was found
      for key 0, or what was folded into it is 0. */
  lemma DoneIsRobinHoodIff(job: Job, t: seq<Bucket>, e: nat, p: Phase)
    requires PhaseInv(job, t, e, p) && AllDone(job, p)
    ensures RobinHood(p.buckets, job.geo) <==>
      !ReachesEmpty(t, job.geo.Home(0)) || Fold(job, 0, 0, |job.keys|) == 0
  {
    DoneKeys(job, t, e, p);
    ZeroLanding(t, job.geo, e);
    forall i: nat | i < |t|
      ensures Placed(p.buckets, job.geo, i) && Ordered(p.buckets, i)
      ensures Clean(p.buckets, i) <==>
        t[i].key != 0 || Landing(t, job.geo, 0, e) != Found(i) || Fold(job, 0, 0, |job.keys|) == 0
    {
      DoneBucketOrder(job, t, e, p, i);
    }
    if ReachesEmpty(t, job.geo.Home(0)) && Fold(job, 0, 0, |job.keys|) != 0 {
      assert !Clean(p.buckets, Landing(t, job.geo, 0, e).at);
    }
  }

  lemma DoneFlag(job: Job, t: seq<Bucket>, e: nat, p: Phase, j: nat)
    requires PhaseInv(job, t, e, p) && AllDone(job, p) && j < |job.keys|
    ensures p.founds[j] <==> Hit(job, t, e, j)
    ensures !p.founds[j] ==> job.tids[j] < job.nT && p.isNew[job.tids[j]]
    ensures FlagAsProbed(job, t, p.founds, j)
  {
    assert FoundInv(job, t, e, p, j) && PreparedAt(job, j);
    ThreadInRange(job.geo, job.nT, job.keys[j]);
    assert ThreadInv(job, t, e, p, job.tids[j]) && NewInv(job, t, e, p, job.tids[j]);
    if !p.founds[j] {
      assert Missed(job, t, e, job.tids[j], j);
    }
    if job.keys[j] == 0 {
      ZeroLanding(t, job.geo, e);
    } else {
      LookupIsComplete(t, job.geo, job.keys[j], e);
    }
  }

  lemma DoneNew(job: Job, t: seq<Bucket>, e: nat, p: Phase)
    requires PhaseInv(job, t, e, p) && AllDone(job, p)
    ensures AnyTrue(p.isNew) <==> AnyFalse(p.founds)
  {
    if j :| 0 <= j < |p.founds| && !p.founds[j] {
      DoneFlag(job, t, e, p, j);
    }
    if me: nat :| me < job.nT && p.isNew[me] {
      assert NewInv(job, t, e, p, me);
      var j :| 0 <= j < p.threads[me].j && Missed(job, t, e, me, j);
      DoneFlag(job, t, e, p, j);
    }
  }

  lemma DoneOutcome(job: Job, t: seq<Bucket>, e: nat, p: Phase)
    requires PhaseInv(job, t, e, p) && AllDone(job, p)
    ensures Outcome(job, t, p)
  {
    DoneContents(job, t, e, p);
    DoneIsRobinHoodIff(job, t, e, p);
    forall j: nat | j < |job.keys|
      ensures FlagAsProbed(job, t, p.founds, j)
    {
      DoneFlag(job, t, e, p, j);
    }
    DoneNew(job, t, e, p);
  }

  /** For every interleaving that runs the threads to completion: present keys
      have the fold, in index order, of the batch's updates; found flags and new
      flags are right; and no interleaving is longer than the initial work. */
  lemma EveryInterleaving(job: Job, t: seq<Bucket>, e: nat, phases: seq<Phase>, schedule: seq<nat>)
    requires Starts(job, t, e) && Interleaving(job, phases, schedule) && Initial(job, t, phases[0])
    ensures |schedule| <= Work(job, e, phases[0].threads)
    ensures AllDone(job, phases[|schedule|]) ==> Outcome(job, t, phases[|schedule|])
  {
    InterleavingInv(job, t, e, phases, schedule, |schedule|);
    InvWorkIsNonNegative(job, t, e, phases[|schedule|]);
    if AllDone(job, phases[|schedule|]) {
      DoneOutcome(job, t, e, phases[|schedule|]);
    }
  }

  // ---- The reserved key 0 ----

  lemma {:induction false} FoldWithoutKey(job: Job, v: Val, k: nat, n: nat)
    requires |job.keys| == |job.vals| && k !in job.keys
    ensures Fold(job, v, k, n) == v
  {
    if n > 0 {
      FoldWithoutKey(job, v, k, n - 1);
    }
  }

  /** Exactly when a batch that may hold key 0 does what is documented, for every
      completed interleaving: the flags are right if and only if key 0 is not in
      the batch or its probe stops at a richer bucket; the table stays well formed
      if and only if that holds or the updates of key 0 fold 0 to 0. */
  lemma ZeroKeyBatchIff(job: Job, t: seq<Bucket>, e: nat, phases: seq<Phase>, schedule: seq<nat>)
    requires Starts(job, t, e) && Interleaving(job, phases, schedule) && Initial(job, t, phases[0])
    requires AllDone(job, phases[|schedule|])
    ensures FlagsRight(job.keys, phases[|schedule|].founds, Keys(t)) <==>
      0 !in job.keys || !ReachesEmpty(t, job.geo.Home(0))
    ensures RobinHood(phases[|schedule|].buckets, job.geo) <==> ZeroHarmless(job, t)
  {
    EveryInterleaving(job, t, e, phases, schedule);
    FlagsRightIff(job, t, phases[|schedule|]);
    StaysRobinHoodIff(job, t, phases[|schedule|]);
  }

  /** Key 0 is not in the batch, or its probe stops at a richer bucket, or its
      updates fold 0 to 0. */
  ghost predicate ZeroHarmless(job: Job, t: seq<Bucket>)
    requires Sized(job) && |t| == job.geo.size
  {
    0 !in job.keys || !ReachesEmpty(t, job.geo.Home(0)) || Fold(job, 0, 0, |job.keys|) == 0
  }

  lemma StaysRobinHoodIff(job: Job, t: seq<Bucket>, p: Phase)
    requires Outcome(job, t, p)
    ensures RobinHood(p.buckets, job.geo) <==> ZeroHarmless(job, t)
  {
    if 0 !in job.keys {
      FoldWithoutKey(job, 0, 0, |job.keys|);
    }
  }

  lemma FlagsRightIff(job: Job, t: seq<Bucket>, p: Phase)
    requires Outcome(job, t, p)
    ensures FlagsRight(job.keys, p.founds, Keys(t)) <==> 0 !in job.keys || !ReachesEmpty(t, job.geo.Home(0))
  {
    forall j: nat | j < |job.keys|
      ensures (p.founds[j] <==> job.keys[j] in Keys(t)) <==> job.keys[j] != 0 || !ReachesEmpty(t, job.geo.Home(0))
    {
      assert FlagAsProbed(job, t, p.founds, j);
      assert 0 !in Keys(t);
    }
    if 0 in job.keys && ReachesEmpty(t, job.geo.Home(0)) {
      var j :| 0 <= j < |job.keys| && job.keys[j] == 0;
      assert !(p.founds[j] <==> job.keys[j] in Keys(t));
    }
  }

  /** A batch at which it fails: on a new table of two buckets, one thread sets key
      0 to 5. The only interleaving reports the key found and leaves the value in
      an empty bucket. */
  lemma ZeroKeyBatchFails(job: Job, p0: Phase) returns (phases: seq<Phase>, schedule: seq<nat>)
    requires job == Job(Geometry((k, s) => 0, 0, 2), [0], [5], [0], [0], 1, (stored, val) => val)
    requires p0 == Phase([EMPTY, EMPTY], [false], [false], [Thread(0, Idle)])
    ensures Interleaving(job, phases, schedule) && phases[0] == p0 && Initial(job, p0.buckets, p0)
    ensures AllDone(job, phases[|schedule|])
    ensures !RobinHood(phases[|schedule|].buckets, job.geo)
    ensures !FlagsRight(job.keys, phases[|schedule|].founds, Keys(p0.buckets))
  {
    var t := p0.buckets;
    assert job.geo.Home(0) == 0 && ThreadOf(job.geo, 1, 0) == 0;
    assert PreparedAt(job, 0);
    var p1 := StepThread(job, p0, 0);
    var p2 := StepThread(job, p1, 0);
    var p3 := StepThread(job, p2, 0);
    schedule := [0, 0, 0];
    phases := [p0, p1, p2, p3];
    assert p3.buckets[0] == Bucket(0, 5, 0) && p3.founds == [true];
    assert !Clean(p3.buckets, 0);
    assert Keys(t) == {};
  }
}
