// Batched put: a parallel phase over the keys already present, then sequential
// puts of the others; and the preparation calls for a batch.
module Batch {
  import opened Words
  import opened FastDiv
  import opened Ring
  import opened Table
  import opened Lookup
  import opened LoadPolicy
  import opened Machine
  import opened ParallelPhase
  import Q = QRhashmap

  // ---- Preparation ----

  method MkHash(hash: (nat, nat) -> uint32, keys: array<nat>, hashkey: nat, hashes: array<uint32>)
    requires hashes.Length == keys.Length
    modifies hashes
    ensures forall i :: 0 <= i < keys.Length ==> hashes[i] == hash(keys[i], hashkey)
  {
    for i := 0 to keys.Length
      invariant forall k :: 0 <= k < i ==> hashes[k] == hash(keys[k], hashkey)
    {
      hashes[i] := hash(keys[i], hashkey);
    }
  }

  /** Starting probe location of every key. */
  method MkLoc(hashes: array<uint32>, hmapSize: uint32, locs: array<nat>)
    requires locs.Length == hashes.Length && hmapSize != 0
    modifies locs
    ensures forall i :: 0 <= i < hashes.Length ==> locs[i] == hashes[i] % hmapSize
  {
    var divinfo := FastDiv32Init(hmapSize);
    for i := 0 to hashes.Length
      invariant forall k :: 0 <= k < i ==> locs[k] == hashes[k] % hmapSize
    {
      locs[i] := FastRem32(hashes[i], hmapSize, divinfo);
    }
  }

  /** The thread in charge of every key, kept in 8 bits. */
  method MkTid(hashes: array<uint32>, nT: uint32, tids: array<nat>)
    requires tids.Length == hashes.Length && nT != 0
    modifies tids
    ensures forall i :: 0 <= i < hashes.Length ==> tids[i] == hashes[i] % nT % 0x100
  {
    var divinfo := FastDiv32Init(nT);
    for i := 0 to hashes.Length
      invariant forall k :: 0 <= k < i ==> tids[k] == hashes[k] % nT % 0x100
    {
      var r := FastRem32(hashes[i], nT, divinfo);
      tids[i] := r % 0x100;
    }
  }

  /** Hashes, locations and threads computed as above, with the seed and size the
      table has when putn is called, are what putn needs. */
  lemma PreparationSuffices(job: Job, hashes: seq<uint32>)
    requires 0 < job.nT && 0 < job.geo.size
    requires |job.vals| == |job.locs| == |job.tids| == |job.keys| == |hashes|
    requires forall i :: 0 <= i < |hashes| ==> hashes[i] == job.geo.hash(job.keys[i], job.geo.seed)
    requires forall i :: 0 <= i < |hashes| ==> job.locs[i] == hashes[i] % job.geo.size
    requires forall i :: 0 <= i < |hashes| ==> job.tids[i] == hashes[i] % job.nT % 0x100
    ensures Prepared(job)
  {
    forall j | 0 <= j < |job.keys|
      ensures PreparedAt(job, j)
    {
      assert job.locs[j] == hashes[j] % job.geo.size;
    }
  }

  // ---- What a batch means ----

  /** Puts of the first n keys, in index order. */
  function SeqPuts(c: Config, m: map<nat, Val>, keys: seq<nat>, vals: seq<Val>, code: int, n: nat): map<nat, Val>
    requires n <= |keys| == |vals|
  {
    if n == 0 then m
    else MapApply(c, SeqPuts(c, m, keys, vals, code, n - 1), Op.Put(keys[n - 1], vals[n - 1], code, 0))
  }

  /** The same, leaving out the keys of present. */
  function LatePuts(c: Config, m: map<nat, Val>, present: set<nat>, keys: seq<nat>, vals: seq<Val>, code: int,
      n: nat): map<nat, Val>
    requires n <= |keys| == |vals|
  {
    if n == 0 then m
    else
      var m' := LatePuts(c, m, present, keys, vals, code, n - 1);
      if keys[n - 1] in present then m' else MapApply(c, m', Op.Put(keys[n - 1], vals[n - 1], code, 0))
  }

  /** Up to index n, and looking at key k: the sequential map has the fold for a
      key present at entry; the two-phase map has not touched it; on any other key
      both agree. */
  lemma {:induction false} BatchKey(c: Config, job: Job, m: map<nat, Val>, m1: map<nat, Val>, code: int, k: nat, n: nat)
    requires n <= |job.keys| == |job.vals| && m1.Keys == m.Keys && 0 !in m
    requires forall stored, val :: c.combine(code, stored, val) == Some(job.update(stored, val))
    ensures var s, l := SeqPuts(c, m, job.keys, job.vals, code, n), LatePuts(c, m1, m.Keys, job.keys, job.vals,
        code, n);
      if k in m then k in s && k in l && s[k] == Fold(job, m[k], k, n) && l[k] == m1[k]
      else (k in s <==> k in l) && (k in s ==> s[k] == l[k])
  {
    if n > 0 {
      BatchKey(c, job, m, m1, code, k, n - 1);
    }
  }

  /** Updating the present keys first and putting the others afterwards gives the
      same map as putting everything in order, duplicates included. */
  lemma BatchIsSequential(c: Config, job: Job, m: map<nat, Val>, m1: map<nat, Val>, code: int)
    requires |job.keys| == |job.vals| && 0 !in m
    requires forall stored, val :: c.combine(code, stored, val) == Some(job.update(stored, val))
    requires m1 == Folded(job, m)
    ensures LatePuts(c, m1, m.Keys, job.keys, job.vals, code, |job.keys|)
         == SeqPuts(c, m, job.keys, job.vals, code, |job.keys|)
  {
    var n := |job.keys|;
    var s, l := SeqPuts(c, m, job.keys, job.vals, code, n), LatePuts(c, m1, m.Keys, job.keys, job.vals, code, n);
    forall k
      ensures (k in s <==> k in l) && (k in s ==> s[k] == l[k])
    {
      BatchKey(c, job, m, m1, code, k, n);
    }
  }

  // ---- putn ----

  function UpdateOf(add: (Val, Val) -> Val, code: int): (Val, Val) -> Val {
    (stored, val) => if code == Q.Q_RHM_SET then val else add(stored, val)
  }

  ghost predicate KnownCode(code: int) {
    code == Q.Q_RHM_SET || code == Q.Q_RHM_ADD
  }

  lemma KnownCodeCombines(h: Q.HashMap, code: int)
    requires KnownCode(code)
    ensures forall stored, val :: h.Cfg().combine(code, stored, val) == Some(UpdateOf(h.add, code)(stored, val))
  {
  }

  /** The batch as the transition system sees it. */
  ghost function JobOf(h: Q.HashMap, code: int, keys: seq<nat>, locs: seq<nat>, tids: seq<nat>, nT: nat,
      vals: seq<Val>): Job
    reads h, h.buckets
  {
    Job(Geo(h.Cfg(), h.View()), keys, vals, locs, tids, nT, UpdateOf(h.add, code))
  }

  ghost function PhaseOf(buckets: array<Bucket>, isFounds: array<bool>, isNew: array<bool>, threads: seq<Thread>): Phase
    reads buckets, isFounds, isNew
  {
    Phase(buckets[..], isFounds[..], isNew[..], threads)
  }

  /** One atomic step of thread me on the shared arrays. */
  method OneStep(h: Q.HashMap, updateType: int, ghost job: Job, keys: seq<nat>, locs: seq<nat>, tids: seq<nat>,
                 vals: seq<Val>, isFounds: array<bool>, isNew: array<bool>, threads: seq<Thread>, me: nat)
    returns (threads': seq<Thread>)
    requires h.Shaped() && Prepared(job) && isFounds != isNew && job.update == UpdateOf(h.add, updateType)
    requires job.keys == keys && job.locs == locs && job.tids == tids && job.vals == vals
    requires ParallelPhase.Shaped(job, PhaseOf(h.buckets, isFounds, isNew, threads))
    requires Enabled(job, PhaseOf(h.buckets, isFounds, isNew, threads), me)
    requires threads[me].pc.Idle? || threads[me].pc.i < h.size
    modifies h.buckets, isFounds, isNew
    ensures PhaseOf(h.buckets, isFounds, isNew, threads')
         == StepThread(job, old(PhaseOf(h.buckets, isFounds, isNew, threads)), me)
  {
    var j := threads[me].j;
    match threads[me].pc
    case Idle =>
      if tids[j] != me {
        threads' := threads[me := Thread(j + 1, Idle)];
      } else {
        isFounds[j] := false;
        threads' := threads[me := Thread(j, Probing(locs[j], 0))];
      }
    case Probing(i, n) =>
      if h.buckets[i].key == keys[j] {
        threads' := threads[me := Thread(j, Loaded(i, h.buckets[i].val))];
      } else if h.buckets[i].key == 0 || n > h.buckets[i].psl {
        isFounds[j] := false;
        isNew[me] := true;
        threads' := threads[me := Thread(j + 1, Idle)];
      } else {
        var next := h.StepFrom(i);
        threads' := threads[me := Thread(j, Probing(next, n + 1))];
      }
    case Loaded(i, stored) =>
      var val := if updateType == Q.Q_RHM_SET then vals[j] else h.add(stored, vals[j]);
      h.buckets[i] := h.buckets[i].(val := val);
      isFounds[j] := true;
      threads' := threads[me := Thread(j + 1, Idle)];
  }

  /** The parallel section: as long as some thread has work, any such thread takes
      a step. */
  method ParallelUpdate(h: Q.HashMap, updateType: int, keys: seq<nat>, locs: seq<nat>, tids: seq<nat>, nT: nat,
                        vals: seq<Val>, isFounds: array<bool>, isNew: array<bool>, ghost job: Job, ghost e: nat)
    returns (ghost last: Phase)
    requires h.Shaped() && job == JobOf(h, updateType, keys, locs, tids, nT, vals)
    requires Starts(job, h.buckets[..], e) && isFounds != isNew
    requires isFounds.Length == |keys| && isNew.Length == nT && forall a :: 0 <= a < nT ==> !isNew[a]
    modifies h.buckets, isFounds, isNew
    ensures last.buckets == h.buckets[..] && last.founds == isFounds[..] && last.isNew == isNew[..]
    ensures Outcome(job, old(h.buckets[..]), last)
  {
    ghost var t := h.buckets[..];
    var threads := seq(nT, _ => Thread(0, Idle));
    last := PhaseOf(h.buckets, isFounds, isNew, threads);
    InitialInv(job, t, e, last);
    while exists me :: 0 <= me < nT && threads[me].j < |keys|
      invariant |threads| == nT && last == PhaseOf(h.buckets, isFounds, isNew, threads)
      invariant PhaseInv(job, t, e, last)
      decreases Work(job, e, threads)
    {
      InvWorkIsNonNegative(job, t, e, last);
      var me: nat :| me < nT && threads[me].j < |keys|;
      StepKeepsInv(job, t, e, last, me);
      StepUsesWork(job, t, e, last, me);
      threads := OneStep(h, updateType, job, keys, locs, tids, vals, isFounds, isNew, threads, me);
      last := StepThread(job, last, me);
    }
    DoneOutcome(job, t, e, last);
  }

  /** How many of the first n flags are not set. */
  ghost function Unset(flags: seq<bool>, n: nat): nat
    requires n <= |flags|
  {
    if n == 0 then 0 else Unset(flags, n - 1) + if flags[n - 1] then 0 else 1
  }

  lemma {:induction false} SomeUnset(flags: seq<bool>, n: nat)
    requires n <= |flags|
    ensures Unset(flags, n) > 0 <==> exists j :: 0 <= j < n && !flags[j]
  {
    if n > 0 {
      SomeUnset(flags, n - 1);
    }
  }

  /** The flags of the real keys tell which are in present. */
  ghost predicate RealFlagsRight(keys: seq<nat>, founds: seq<bool>, present: set<nat>) {
    && |founds| == |keys| && 0 !in present
    && forall j :: 0 <= j < |keys| && keys[j] != 0 ==> (founds[j] <==> keys[j] in present)
  }

  /** Where the sequential puts are before index i, having started from the map m, a
      count of items and a size. */
  ghost predicate PutSoFar(c: Config, s: State, m: map<nat, Val>, present: set<nat>, keys: seq<nat>, vals: seq<Val>,
      code: int, i: nat, count: nat, start: nat)
    requires i <= |keys| == |vals|
  {
    match s
    case State(buckets, nitems, _, _) =>
      && Inv(c, s) && nitems <= count + i && |buckets| >= start
      && Model(s) == LatePuts(c, m, present, keys, vals, code, i)
  }

  /** Sequential puts of the keys not found, in index order. */
  method PutMissing(h: Q.HashMap, updateType: int, keys: seq<nat>, vals: seq<Val>, isFounds: seq<bool>, seeds: seq<nat>,
                    ghost present: set<nat>)
    returns (status: int, numNew: nat)
    requires h.Valid() && KnownCode(updateType) && |keys| == |vals| == |seeds|
    requires h.nitems + |keys| <= Headroom(h.size) + 1
    requires RealFlagsRight(keys, isFounds, present)
    modifies h, h.buckets
    ensures h.Valid() && status == 0
    ensures Model(h.View()) == LatePuts(h.Cfg(), old(Model(h.View())), present, keys, vals, updateType, |keys|)
    ensures numNew == Unset(isFounds, |keys|)
  {
    ghost var m := Model(h.View());
    status, numNew := PutAllMissing(h, updateType, keys, vals, isFounds, seeds, present, m, h.nitems, h.size);
  }

  method PutAllMissing(h: Q.HashMap, updateType: int, keys: seq<nat>, vals: seq<Val>, isFounds: seq<bool>,
                       seeds: seq<nat>, ghost present: set<nat>, ghost m: map<nat, Val>, ghost count: nat,
                       ghost start: nat)
    returns (status: int, numNew: nat)
    requires h.Shaped() && KnownCode(updateType) && |keys| == |vals| == |seeds|
    requires count + |keys| <= Headroom(start) + 1 && RealFlagsRight(keys, isFounds, present)
    requires PutSoFar(h.Cfg(), h.View(), m, present, keys, vals, updateType, 0, count, start)
    modifies h, h.buckets
    ensures h.Shaped() && status == 0 && numNew == Unset(isFounds, |keys|)
    ensures PutSoFar(h.Cfg(), h.View(), m, present, keys, vals, updateType, |keys|, count, start)
  {
    status, numNew := 0, 0;
    for i := 0 to |keys|
      invariant h.Shaped() && status == 0 && (h.buckets == old(h.buckets) || fresh(h.buckets))
      invariant PutSoFar(h.Cfg(), h.View(), m, present, keys, vals, updateType, i, count, start)
      invariant numNew == Unset(isFounds, i)
    {
      status, numNew := PutUnlessFound(h, updateType, keys, vals, isFounds, seeds[i], i, numNew, count, start,
          present, m);
      if status != 0 {
        return;
      }
    }
  }

  method PutUnlessFound(h: Q.HashMap, updateType: int, keys: seq<nat>, vals: seq<Val>, isFounds: seq<bool>,
                        seed: nat, i: nat, numNew: nat, ghost count: nat, ghost start: nat, ghost present: set<nat>,
                        ghost m: map<nat, Val>)
    returns (status: int, numNew': nat)
    requires h.Shaped() && KnownCode(updateType) && i < |keys| == |vals|
    requires RealFlagsRight(keys, isFounds, present) && count + i <= Headroom(start)
    requires PutSoFar(h.Cfg(), h.View(), m, present, keys, vals, updateType, i, count, start)
    requires numNew == Unset(isFounds, i)
    modifies h, h.buckets
    ensures h.Shaped() && status == 0 && (h.buckets == old(h.buckets) || fresh(h.buckets))
    ensures PutSoFar(h.Cfg(), h.View(), m, present, keys, vals, updateType, i + 1, count, start)
    ensures numNew' == Unset(isFounds, i + 1)
  {
    status, numNew' := 0, numNew;
    if !isFounds[i] {
      status := PutOne(h, keys[i], vals[i], updateType, seed, start);
      numNew' := numNew + 1;
    }
  }

  method PutOne(h: Q.HashMap, key: nat, val: Val, updateType: int, seed: nat, ghost start: nat) returns (status: int)
    requires h.Valid() && KnownCode(updateType)
    requires start <= h.size && h.nitems <= Headroom(start)
    modifies h, h.buckets
    ensures h.Valid() && status == 0 && (h.buckets == old(h.buckets) || fresh(h.buckets))
    ensures h.size >= old(h.size) && h.nitems <= old(h.nitems) + 1
    ensures Model(h.View()) == MapApply(h.Cfg(), old(Model(h.View())), Op.Put(key, val, updateType, 0))
  {
    GrowsBelow2to31(h.nitems, start, h.size);
    MarksInNumbers(h.nitems, h.minsize, h.size);
    ghost var m := Model(h.View());
    var oldval, keyUpdated;
    status, oldval, keyUpdated := h.Put(key, val, updateType, seed);
    SeedDoesNotMatter(h.Cfg(), m, key, val, updateType, seed);
  }

  lemma SeedDoesNotMatter(c: Config, m: map<nat, Val>, key: nat, val: Val, code: int, seed: nat)
    ensures MapApply(c, m, Op.Put(key, val, code, seed)) == MapApply(c, m, Op.Put(key, val, code, 0))
    ensures MapReply(c, m, Op.Put(key, val, code, seed)).status ==
      if key in m && c.combine(code, m[key], val).None? then -1 else 0
  {
  }

  // ---- What in-order puts leave, key by key ----

  lemma {:induction false} PutsElsewhere(c: Config, m: map<nat, Val>, keys: seq<nat>, vals: seq<Val>, code: int,
      k: nat, a: nat, n: nat)
    requires a <= n <= |keys| == |vals| && k !in keys[a..n]
    ensures var s, s' := SeqPuts(c, m, keys, vals, code, a), SeqPuts(c, m, keys, vals, code, n);
      (k in s <==> k in s') && (k in s ==> s[k] == s'[k])
    decreases n - a
  {
    if a < n {
      assert keys[a..n][n - 1 - a] == keys[n - 1];
      assert forall x :: x in keys[a..n - 1] ==> x in keys[a..n];
      PutsElsewhere(c, m, keys, vals, code, k, a, n - 1);
    }
  }

  /** A set leaves the value at the last occurrence of a key. */
  lemma PutsOfSet(h: Q.HashMap, m: map<nat, Val>, keys: seq<nat>, vals: seq<Val>, j: nat)
    requires j < |keys| == |vals| && keys[j] != 0 && keys[j] !in keys[j + 1..]
    ensures var s := SeqPuts(h.Cfg(), m, keys, vals, Q.Q_RHM_SET, |keys|);
      keys[j] in s && s[keys[j]] == vals[j]
  {
    assert keys[j + 1..|keys|] == keys[j + 1..];
    PutsElsewhere(h.Cfg(), m, keys, vals, Q.Q_RHM_SET, keys[j], j + 1, |keys|);
  }

  /** An add combines the stored value of a key that occurs once with its value. */
  lemma PutsOfAdd(h: Q.HashMap, m: map<nat, Val>, keys: seq<nat>, vals: seq<Val>, j: nat)
    requires j < |keys| == |vals| && keys[j] != 0 && keys[j] !in keys[..j] && keys[j] !in keys[j + 1..]
    ensures var s := SeqPuts(h.Cfg(), m, keys, vals, Q.Q_RHM_ADD, |keys|);
      keys[j] in s && s[keys[j]] == if keys[j] in m then h.add(m[keys[j]], vals[j]) else vals[j]
  {
    assert keys[0..j] == keys[..j] && keys[j + 1..|keys|] == keys[j + 1..];
    PutsElsewhere(h.Cfg(), m, keys, vals, Q.Q_RHM_ADD, keys[j], 0, j);
    PutsElsewhere(h.Cfg(), m, keys, vals, Q.Q_RHM_ADD, keys[j], j + 1, |keys|);
  }

  /** Exactly the real keys of the batch join the map. */
  lemma {:induction false} PutsKeys(c: Config, m: map<nat, Val>, keys: seq<nat>, vals: seq<Val>, code: int, n: nat)
    requires n <= |keys| == |vals|
    ensures forall k :: k in SeqPuts(c, m, keys, vals, code, n) <==> k in m || (k != 0 && k in keys[..n])
  {
    if n > 0 {
      PutsKeys(c, m, keys, vals, code, n - 1);
      assert keys[..n] == keys[..n - 1] + [keys[n - 1]];
    }
  }

  /** The values given for key k among the first n of the batch, added up. */
  function SumFor(keys: seq<nat>, vals: seq<Val>, k: nat, n: nat): Val
    requires n <= |keys| == |vals|
  {
    if n == 0 then 0 else SumFor(keys, vals, k, n - 1) + if keys[n - 1] == k then vals[n - 1] else 0
  }

  /** With plain addition a key gains the sum of its values, however often it
      occurs: nothing is lost or counted twice. */
  lemma {:induction false} PutsAddUp(h: Q.HashMap, m: map<nat, Val>, keys: seq<nat>, vals: seq<Val>, k: nat, n: nat)
    requires n <= |keys| == |vals| && k != 0 && forall x, y :: h.add(x, y) == x + y
    ensures var s := SeqPuts(h.Cfg(), m, keys, vals, Q.Q_RHM_ADD, n);
      (if k in s then s[k] else 0) == (if k in m then m[k] else 0) + SumFor(keys, vals, k, n)
      && (k !in s ==> k !in m)
  {
    if n > 0 {
      PutsAddUp(h, m, keys, vals, k, n - 1);
    }
  }

  lemma BatchMeans(h: Q.HashMap, m: map<nat, Val>, m': map<nat, Val>, keys: seq<nat>, vals: seq<Val>, code: int)
    requires |keys| == |vals| && m' == SeqPuts(h.Cfg(), m, keys, vals, code, |keys|)
    ensures forall k :: k in m' <==> k in m || (k != 0 && k in keys)
    ensures forall k :: k in m && k !in keys ==> m'[k] == m[k]
    ensures code == Q.Q_RHM_SET ==>
      forall j :: 0 <= j < |keys| && keys[j] != 0 && keys[j] !in keys[j + 1..] ==> m'[keys[j]] == vals[j]
    ensures code == Q.Q_RHM_ADD ==>
      forall j :: 0 <= j < |keys| && keys[j] != 0 && keys[j] !in keys[..j] && keys[j] !in keys[j + 1..] ==>
        m'[keys[j]] == if keys[j] in m then h.add(m[keys[j]], vals[j]) else vals[j]
  {
    PutsKeys(h.Cfg(), m, keys, vals, code, |keys|);
    assert keys[..|keys|] == keys;
    forall k | k in m && k !in keys
      ensures m'[k] == m[k]
    {
      PutsElsewhere(h.Cfg(), m, keys, vals, code, k, 0, |keys|);
    }
    if code == Q.Q_RHM_SET {
      forall j | 0 <= j < |keys| && keys[j] != 0 && keys[j] !in keys[j + 1..]
        ensures m'[keys[j]] == vals[j]
      {
        PutsOfSet(h, m, keys, vals, j);
      }
    }
    if code == Q.Q_RHM_ADD {
      forall j | 0 <= j < |keys| && keys[j] != 0 && keys[j] !in keys[..j] && keys[j] !in keys[j + 1..]
        ensures m'[keys[j]] == if keys[j] in m then h.add(m[keys[j]], vals[j]) else vals[j]
      {
        PutsOfAdd(h, m, keys, vals, j);
      }
    }
  }

  /** Batched put. For every interleaving of the parallel section the map ends up
      as after putting the keys one by one in index order, and the check on the
      number of new keys never fires. isFounds tells which keys were there at
      entry exactly when key 0 is not in the batch or its probe stops at a richer
      bucket. An unknown update code changes nothing. The conditions: key 0 leaves
      the table well formed, and no put has to grow at 2^31 buckets. */
  method PutN(h: Q.HashMap, updateType: int, keys: seq<nat>, locs: seq<nat>, tids: seq<nat>, nT: nat,
              vals: seq<Val>, isFounds: array<bool>, seeds: seq<nat>)
    returns (status: int)
    requires h.Valid() && Prepared(JobOf(h, updateType, keys, locs, tids, nT, vals))
    requires |seeds| == |keys| == isFounds.Length
    requires ZeroHarmless(JobOf(h, updateType, keys, locs, tids, nT, vals), h.buckets[..])
    requires h.nitems + |keys| <= Headroom(h.size) + 1
    modifies h, h.buckets, isFounds
    ensures h.Valid()
    ensures updateType != Q.Q_RHM_SET && updateType != Q.Q_RHM_ADD ==>
      status == -1 && h.View() == old(h.View()) && isFounds[..] == old(isFounds[..])
    ensures updateType == Q.Q_RHM_SET || updateType == Q.Q_RHM_ADD ==>
      && status == 0
      && Model(h.View()) == SeqPuts(h.Cfg(), old(Model(h.View())), keys, vals, updateType, |keys|)
      && (forall k :: k in Model(h.View()) <==> k in old(Model(h.View())) || (k != 0 && k in keys))
      && (forall k :: k in old(Model(h.View())) && k !in keys ==> Model(h.View())[k] == old(Model(h.View()))[k])
      && (forall j :: 0 <= j < |keys| && keys[j] != 0 ==> (isFounds[j] <==> keys[j] in old(Model(h.View()))))
    ensures updateType == Q.Q_RHM_SET ==>
      forall j :: 0 <= j < |keys| && keys[j] != 0 && keys[j] !in keys[j + 1..] ==>
        Model(h.View())[keys[j]] == vals[j]
    ensures updateType == Q.Q_RHM_ADD ==>
      forall j :: 0 <= j < |keys| && keys[j] != 0 && keys[j] !in keys[..j] && keys[j] !in keys[j + 1..] ==>
        Model(h.View())[keys[j]] ==
          if keys[j] in old(Model(h.View())) then h.add(old(Model(h.View()))[keys[j]], vals[j]) else vals[j]
    ensures updateType == Q.Q_RHM_SET || updateType == Q.Q_RHM_ADD ==>
      (FlagsRight(keys, isFounds[..], old(Model(h.View())).Keys) <==>
        0 !in keys || !old(ReachesEmpty(h.buckets[..], Geo(h.Cfg(), h.View()).Home(0))))
  {
    ghost var m := Model(h.View());
    if updateType != Q.Q_RHM_SET && updateType != Q.Q_RHM_ADD {
      status := -1;
    } else {
      status := PutKnown(h, updateType, keys, locs, tids, nT, vals, isFounds, seeds, m);
      BatchMeans(h, m, Model(h.View()), keys, vals, updateType);
      forall j | 0 <= j < |keys| && keys[j] != 0
        ensures isFounds[j] <==> keys[j] in m
      {
        assert isFounds[..][j] == isFounds[j];
      }
    }
  }

  /** putn once the update code has passed the check; m is the map at entry. */
  method PutKnown(h: Q.HashMap, updateType: int, keys: seq<nat>, locs: seq<nat>, tids: seq<nat>, nT: nat,
                  vals: seq<Val>, isFounds: array<bool>, seeds: seq<nat>, ghost m: map<nat, Val>)
    returns (status: int)
    requires h.Valid() && Prepared(JobOf(h, updateType, keys, locs, tids, nT, vals)) && m == Model(h.View())
    requires |seeds| == |keys| == isFounds.Length && KnownCode(updateType)
    requires ZeroHarmless(JobOf(h, updateType, keys, locs, tids, nT, vals), h.buckets[..])
    requires h.nitems + |keys| <= Headroom(h.size) + 1
    modifies h, h.buckets, isFounds
    ensures h.Valid() && status == 0 && Model(h.View()) == SeqPuts(h.Cfg(), m, keys, vals, updateType, |keys|)
    ensures RealFlagsRight(keys, isFounds[..], m.Keys)
    ensures FlagsRight(keys, isFounds[..], m.Keys) <==>
      0 !in keys || !old(ReachesEmpty(h.buckets[..], Geo(h.Cfg(), h.View()).Home(0)))
  {
    ghost var job := JobOf(h, updateType, keys, locs, tids, nT, vals);
    var isNew := new bool[nT](_ => false);
    UpdatePresent(h, updateType, keys, locs, tids, nT, vals, isFounds, isNew, job);
    status := PutNew(h, updateType, keys, vals, isFounds[..], isNew[..], seeds, job, m);
  }

  lemma {:induction false} NothingLate(c: Config, m: map<nat, Val>, present: set<nat>, keys: seq<nat>,
      vals: seq<Val>, founds: seq<bool>, code: int, n: nat)
    requires n <= |keys| == |vals| && RealFlagsRight(keys, founds, present) && !AnyFalse(founds)
    ensures LatePuts(c, m, present, keys, vals, code, n) == m
  {
    if n > 0 {
      NothingLate(c, m, present, keys, vals, founds, code, n - 1);
      assert founds[n - 1];
    }
  }

  /** The parallel section on a map between calls. */
  method UpdatePresent(h: Q.HashMap, updateType: int, keys: seq<nat>, locs: seq<nat>, tids: seq<nat>, nT: nat,
                       vals: seq<Val>, isFounds: array<bool>, isNew: array<bool>, ghost job: Job)
    requires h.Valid() && job == JobOf(h, updateType, keys, locs, tids, nT, vals) && Prepared(job)
    requires isFounds != isNew && isFounds.Length == |keys| && isNew.Length == nT
    requires (forall a :: 0 <= a < nT ==> !isNew[a]) && ZeroHarmless(job, h.buckets[..])
    modifies h.buckets, isFounds, isNew
    ensures h.Valid() && Model(h.View()) == Folded(job, old(Model(h.View())))
    ensures RealFlagsRight(keys, isFounds[..], old(Model(h.View())).Keys)
    ensures FlagsRight(keys, isFounds[..], old(Model(h.View())).Keys) <==>
      0 !in keys || !old(ReachesEmpty(h.buckets[..], job.geo.Home(0)))
    ensures AnyTrue(isNew[..]) <==> AnyFalse(isFounds[..])
  {
    ghost var before := h.View();
    InvHasEmpty(h.Cfg(), before);
    ghost var last := ParallelUpdate(h, updateType, keys, locs, tids, nT, vals, isFounds, isNew, job,
        AnEmpty(before.buckets));
    OutcomeKeepsInv(h.Cfg(), job, before, last, h.View());
  }

  ghost function Folded(job: Job, m: map<nat, Val>): map<nat, Val>
    requires |job.keys| == |job.vals|
  {
    map k | k in m :: Fold(job, m[k], k, |job.keys|)
  }

  lemma OutcomeKeepsInv(c: Config, job: Job, s: State, p: Phase, s': State)
    requires Inv(c, s) && job.geo == Geo(c, s) && Outcome(job, s.buckets, p) && s' == s.(buckets := p.buckets)
    requires ZeroHarmless(job, s.buckets)
    ensures Inv(c, s') && Model(s') == Folded(job, Model(s))
    ensures RealFlagsRight(job.keys, p.founds, Model(s).Keys)
    ensures FlagsRight(job.keys, p.founds, Model(s).Keys) <==>
      0 !in job.keys || !ReachesEmpty(s.buckets, job.geo.Home(0))
  {
    assert Model(s).Keys == Keys(s.buckets);
    SameSize(Model(s), Model(s'));
    StaysRobinHoodIff(job, s.buckets, p);
    FlagsRightIff(job, s.buckets, p);
    RealFlags(job, s.buckets, p);
  }

  lemma RealFlags(job: Job, t: seq<Bucket>, p: Phase)
    requires Outcome(job, t, p)
    ensures RealFlagsRight(job.keys, p.founds, Keys(t))
  {
    forall j | 0 <= j < |job.keys| && job.keys[j] != 0
      ensures p.founds[j] <==> job.keys[j] in Keys(t)
    {
      assert FlagAsProbed(job, t, p.founds, j);
    }
  }

  lemma SameSize(m: map<nat, Val>, m': map<nat, Val>)
    ensures m.Keys == m'.Keys ==> |m| == |m'|
  {
    assert |m| == |m.Keys| && |m'| == |m'.Keys|;
  }

  /** The sequential half: it completes the map to what in-order puts give. */
  method PutNew(h: Q.HashMap, updateType: int, keys: seq<nat>, vals: seq<Val>, isFounds: seq<bool>, isNew: seq<bool>,
                seeds: seq<nat>, ghost job: Job, ghost m: map<nat, Val>)
    returns (status: int)
    requires h.Valid() && KnownCode(updateType) && Prepared(job) && |keys| == |seeds|
    requires job.keys == keys && job.vals == vals && job.update == UpdateOf(h.add, updateType)
    requires h.nitems + |keys| <= Headroom(h.size) + 1
    requires Model(h.View()) == Folded(job, m) && RealFlagsRight(keys, isFounds, m.Keys)
    requires AnyTrue(isNew) <==> AnyFalse(isFounds)
    modifies h, h.buckets
    ensures h.Valid() && status == 0
    ensures Model(h.View()) == SeqPuts(h.Cfg(), m, keys, vals, updateType, |keys|)
  {
    KnownCodeCombines(h, updateType);
    BatchIsSequential(h.Cfg(), job, m, Folded(job, m), updateType);
    status := 0;
    var needSequentialPut := AnyNew(isNew);
    if needSequentialPut {
      var numNew;
      status, numNew := PutMissing(h, updateType, keys, vals, isFounds, seeds, m.Keys);
      SomeUnset(isFounds, |keys|);
      if numNew == 0 {
        status := -1;
      }
    } else {
      NothingLate(h.Cfg(), Folded(job, m), m.Keys, keys, vals, isFounds, updateType, |keys|);
    }
  }

  method AnyNew(isNew: seq<bool>) returns (any: bool)
    ensures any <==> AnyTrue(isNew)
  {
    any := false;
    for i := 0 to |isNew|
      invariant any <==> exists k :: 0 <= k < i && isNew[k]
    {
      if isNew[i] {
        any := true;
      }
    }
  }
}
