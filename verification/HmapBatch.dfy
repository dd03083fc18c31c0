// Batched get over blocks of keys, and the run-time checker for holes.
module HmapBatch {
  import opened Words
  import opened Ring
  import opened Table
  import opened Lookup
  import opened Layout
  import opened LoadPolicy
  import opened Machine
  import H = Hmap

  // ---- getn ----

  /** First key of the block of thread tid. */
  function BlockLow(nkeys: nat, nT: nat, tid: nat): nat
    requires 0 < nT
  {
    nkeys / nT * tid
  }

  function BlockHigh(nkeys: nat, nT: nat, tid: nat): nat
    requires 0 < nT
  {
    if tid == nT - 1 then nkeys else BlockLow(nkeys, nT, tid) + nkeys / nT
  }

  ghost predicate InBlock(nkeys: nat, nT: nat, tid: nat, j: nat)
    requires 0 < nT
  {
    BlockLow(nkeys, nT, tid) <= j < BlockHigh(nkeys, nT, tid)
  }

  lemma BlockStep(b: nat, tid: nat)
    ensures b * (tid + 1) == b * tid + b && b * tid >= 0
  {
  }

  lemma {:induction false} BlocksAscend(b: nat, tid: nat, tid': nat)
    requires tid <= tid'
    ensures b * tid <= b * tid'
    decreases tid' - tid
  {
    if tid < tid' {
      BlocksAscend(b, tid, tid' - 1);
      BlockStep(b, tid' - 1);
    }
  }

  lemma BlocksFit(nkeys: nat, nT: nat)
    requires 0 < nT
    ensures nkeys / nT * nT <= nkeys
  {
    assert nkeys == nT * (nkeys / nT) + nkeys % nT;
  }

  lemma BlockBounds(nkeys: nat, nT: nat, tid: nat)
    requires 0 < nT && tid < nT
    ensures BlockLow(nkeys, nT, tid) <= BlockHigh(nkeys, nT, tid) <= nkeys
    ensures tid + 1 < nT ==> BlockHigh(nkeys, nT, tid) == BlockLow(nkeys, nT, tid + 1)
    ensures BlockLow(nkeys, nT, 0) == 0
  {
    BlocksFit(nkeys, nT);
    BlockStep(nkeys / nT, tid);
    BlocksAscend(nkeys / nT, tid + 1, nT);
    BlocksAscend(nkeys / nT, tid, nT);
  }

  /** The block a key falls in, looking at the threads from tid on. */
  lemma {:induction false} FindBlock(nkeys: nat, nT: nat, tid: nat, j: nat) returns (owner: nat)
    requires 0 < nT && tid < nT && BlockLow(nkeys, nT, tid) <= j < nkeys
    ensures owner < nT && InBlock(nkeys, nT, owner, j)
    decreases nT - tid
  {
    BlockBounds(nkeys, nT, tid);
    if j < BlockHigh(nkeys, nT, tid) {
      owner := tid;
    } else {
      owner := FindBlock(nkeys, nT, tid + 1, j);
    }
  }

  /** The blocks partition the keys: each is in exactly one. */
  lemma BlocksPartition(nkeys: nat, nT: nat, j: nat)
    requires 0 < nT && j < nkeys
    ensures exists tid: nat :: tid < nT && InBlock(nkeys, nT, tid, j)
    ensures forall a: nat, b: nat :: a < nT && b < nT && InBlock(nkeys, nT, a, j) && InBlock(nkeys, nT, b, j) ==> a == b
  {
    var owner := FindBlock(nkeys, nT, 0, j);
    forall a: nat, b: nat | a < b < nT && InBlock(nkeys, nT, a, j)
      ensures !InBlock(nkeys, nT, b, j)
    {
      BlockBounds(nkeys, nT, a);
      BlocksAscend(nkeys / nT, a + 1, b);
    }
  }

  ghost predicate IsBlock(nkeys: nat, nT: nat, tid: nat, lb: nat, ub: nat)
    requires 0 < nT
  {
    lb == BlockLow(nkeys, nT, tid) && ub == BlockHigh(nkeys, nT, tid)
  }

  ghost predicate Within(lows: seq<nat>, highs: seq<nat>, tid: nat, j: nat)
    requires tid < |lows| == |highs|
  {
    lows[tid] <= j < highs[tid]
  }

  ghost predicate Covers(lows: seq<nat>, highs: seq<nat>, j: nat)
    requires |lows| == |highs|
  {
    exists tid: nat :: tid < |lows| && Within(lows, highs, tid, j)
  }

  /** The bounds of all blocks, which cover all keys. */
  lemma AllBlocks(nkeys: nat, nT: nat) returns (lows: seq<nat>, highs: seq<nat>)
    requires 0 < nT
    ensures |lows| == |highs| == nT
    ensures forall tid :: 0 <= tid < nT ==> IsBlock(nkeys, nT, tid, lows[tid], highs[tid])
    ensures forall j: nat :: j < nkeys ==> Covers(lows, highs, j)
  {
    lows := seq(nT, tid requires 0 <= tid < nT => BlockLow(nkeys, nT, tid));
    highs := seq(nT, tid requires 0 <= tid < nT => BlockHigh(nkeys, nT, tid));
    forall j: nat | j < nkeys
      ensures Covers(lows, highs, j)
    {
      var owner := FindBlock(nkeys, nT, 0, j);
      assert Within(lows, highs, owner, j);
    }
  }

  method BlockBoundsOf(nkeys: nat, nT: nat, tid: nat) returns (lb: nat, ub: nat)
    requires 0 < nT && tid < nT
    ensures lb <= ub <= nkeys && IsBlock(nkeys, nT, tid, lb, ub)
  {
    BlockBounds(nkeys, nT, tid);
    var blockSize := nkeys / nT;
    BlockStep(blockSize, tid);
    lb := blockSize * tid;
    ub := lb + blockSize;
    if tid == 0 {
      lb := 0;
    }
    if tid == nT - 1 {
      ub := nkeys;
    }
  }

  /** found and val are what get answers for key. */
  ghost predicate Answered(c: Config, s: State, key: nat, found: bool, val: Val) {
    GetStep(c, s, key, Reply(0, found, val), s)
  }

  /** Look up every key. order is the order in which the threads get to run. */
  method GetN(h: H.Map, nT: nat, order: seq<nat>, keys: seq<nat>, locs: seq<nat>, vals: array<Val>, fnds: array<bool>)
    requires h.Valid() && 0 < nT && |keys| == |locs| == vals.Length == fnds.Length
    requires (forall tid: nat :: tid < nT ==> tid in order) && (forall i :: 0 <= i < |order| ==> order[i] < nT)
    requires forall j :: 0 <= j < |keys| ==> locs[j] == Geo(h.Cfg(), h.View()).Home(keys[j])
    modifies vals, fnds
    ensures forall j :: 0 <= j < |keys| ==> Answered(h.Cfg(), h.View(), keys[j], fnds[j], vals[j])
    ensures forall j :: 0 <= j < |keys| && keys[j] != 0 ==>
      && (fnds[j] <==> keys[j] in Model(h.View()))
      && vals[j] == if keys[j] in Model(h.View()) then Model(h.View())[keys[j]] else 0
  {
    InvHasEmpty(h.Cfg(), h.View());
    ghost var lows, highs := AllBlocks(|keys|, nT);
    GetBlocks(h, nT, order, keys, locs, vals, fnds, AnEmpty(h.bkts[..]), lows, highs);
    forall j: nat | j < |keys|
      ensures Answered(h.Cfg(), h.View(), keys[j], fnds[j], vals[j])
    {
      var k := TurnOf(order, lows, highs, j);
    }
    forall j: nat | j < |keys| && keys[j] != 0
      ensures fnds[j] <==> keys[j] in Model(h.View())
      ensures vals[j] == if keys[j] in Model(h.View()) then Model(h.View())[keys[j]] else 0
    {
      AnswerMeans(h.Cfg(), h.View(), keys[j], fnds[j], vals[j]);
    }
  }

  lemma AnswerMeans(c: Config, s: State, key: nat, found: bool, val: Val)
    requires Inv(c, s) && key != 0 && Answered(c, s, key, found, val)
    ensures (found <==> key in Model(s)) && val == if key in Model(s) then Model(s)[key] else 0
  {
    GetStepInv(c, s, Op.Get(key), Reply(0, found, val), s);
  }

  /** The turn at which key j is looked up. */
  lemma TurnOf(order: seq<nat>, lows: seq<nat>, highs: seq<nat>, j: nat) returns (k: nat)
    requires |lows| == |highs| && Covers(lows, highs, j) && forall tid: nat :: tid < |lows| ==> tid in order
    ensures k < |order| && order[k] < |lows| && Within(lows, highs, order[k], j)
  {
    var owner: nat :| owner < |lows| && Within(lows, highs, owner, j);
    assert owner in order;
    k :| k < |order| && order[k] == owner;
  }

  method GetBlocks(h: H.Map, nT: nat, order: seq<nat>, keys: seq<nat>, locs: seq<nat>, vals: array<Val>,
      fnds: array<bool>,
                   ghost e: nat, ghost lows: seq<nat>, ghost highs: seq<nat>)
    requires h.Shaped() && 0 < nT && |keys| == |locs| == vals.Length == fnds.Length
    requires HasEmpty(h.bkts[..]) && e == AnEmpty(h.bkts[..])
    requires forall i :: 0 <= i < |order| ==> order[i] < nT
    requires forall j :: 0 <= j < |keys| ==> locs[j] == Geo(h.Cfg(), h.View()).Home(keys[j])
    requires |lows| == |highs| == nT && forall tid :: 0 <= tid < nT ==> IsBlock(|keys|, nT, tid, lows[tid], highs[tid])
    modifies vals, fnds
    ensures forall j, k :: 0 <= j < |keys| && 0 <= k < |order| && Within(lows, highs, order[k], j) ==>
      Answered(h.Cfg(), h.View(), keys[j], fnds[j], vals[j])
  {
    for i := 0 to |order|
      invariant forall j, k :: 0 <= j < |keys| && 0 <= k < i && Within(lows, highs, order[k], j) ==>
        Answered(h.Cfg(), h.View(), keys[j], fnds[j], vals[j])
    {
      var lb, ub := BlockBoundsOf(|keys|, nT, order[i]);
      assert IsBlock(|keys|, nT, order[i], lows[order[i]], highs[order[i]]);
      GetRange(h, lb, ub, keys, locs, vals, fnds, e);
    }
  }

  method GetRange(h: H.Map, lb: nat, ub: nat, keys: seq<nat>, locs: seq<nat>, vals: array<Val>, fnds: array<bool>,
      ghost e: nat)
    requires h.Shaped() && lb <= ub <= |keys| == |locs| == vals.Length == fnds.Length
    requires HasEmpty(h.bkts[..]) && e == AnEmpty(h.bkts[..])
    requires forall j :: 0 <= j < |keys| ==> locs[j] == Geo(h.Cfg(), h.View()).Home(keys[j])
    modifies vals, fnds
    ensures forall j :: lb <= j < ub ==> Answered(h.Cfg(), h.View(), keys[j], fnds[j], vals[j])
    ensures forall j :: 0 <= j < |keys| && !(lb <= j < ub) ==> vals[j] == old(vals[j]) && fnds[j] == old(fnds[j])
  {
    for j := lb to ub
      invariant forall k :: lb <= k < j ==> Answered(h.Cfg(), h.View(), keys[k], fnds[k], vals[k])
      invariant forall k :: 0 <= k < |keys| && !(lb <= k < j) ==> vals[k] == old(vals[k]) && fnds[k] == old(fnds[k])
    {
      vals[j], fnds[j] := GetOne(h, keys[j], locs[j], e);
    }
  }

  method GetOne(h: H.Map, key: nat, loc: nat, ghost e: nat) returns (val: Val, found: bool)
    requires h.Shaped() && HasEmpty(h.bkts[..]) && e == AnEmpty(h.bkts[..])
    requires loc == Geo(h.Cfg(), h.View()).Home(key)
    ensures GetStep(h.Cfg(), h.View(), key, Reply(0, found, val), h.View())
  {
    val, found := 0, false;
    var numProbes: nat := 0;
    var probeLoc: nat := loc;
    while true
      invariant probeLoc < h.size && !found && val == 0
      invariant Probe(h.bkts[..], key, probeLoc, numProbes, e) == Probe(h.bkts[..], key, loc, 0, e)
      decreases Dist(probeLoc, e, h.size)
    {
      if h.bkts[probeLoc].key == key {
        val := h.bkts[probeLoc].val;
        found := true;
        break;
      }
      if h.bkts[probeLoc].key == 0 || numProbes > h.bkts[probeLoc].psl {
        break;
      }
      numProbes := numProbes + 1;
      probeLoc := probeLoc + 1;
      if probeLoc == h.size {
        probeLoc := 0;
      }
    }
  }

  // ---- hmap_chk_no_holes ----

  /** Bucket i is occupied, and not the first occupied bucket of the array. */
  ghost predicate Later(t: seq<Bucket>, i: nat)
    requires i < |t|
  {
    t[i].key != 0 && exists p: nat :: p < i && t[p].key != 0
  }

  /** What the checker accepts. It copies the count to a signed register, and it
      never looks at the first occupied bucket. */
  ghost predicate CheckPasses(t: seq<Bucket>, g: Geometry, nitems: nat)
    requires |t| == g.size
  {
    var n := I32(nitems);
    n <= 1 || (n == |Occupied(t)| && LaterPathsFull(t, g))
  }

  /** Every occupied bucket but the first has a full probe path. */
  ghost predicate LaterPathsFull(t: seq<Bucket>, g: Geometry)
    requires |t| == g.size
  {
    forall i: nat :: i < |t| && Later(t, i) ==> PathFull(t, g, i)
  }

  datatype CheckRec = CheckRec(key: nat, loc: nat, ploc: nat)

  ghost predicate Right(t: seq<Bucket>, g: Geometry, rec: CheckRec, upTo: nat)
    requires upTo <= |t| == g.size
  {
    rec.loc < upTo && t[rec.loc].key != 0 && rec.ploc == g.Home(t[rec.loc].key)
  }

  /** The records are those of the occupied buckets, in order of location, so
      that sorting them by location changes nothing. */
  ghost predicate Collected(t: seq<Bucket>, g: Geometry, recs: seq<CheckRec>, upTo: nat)
    requires upTo <= |t| == g.size
  {
    && |recs| == |OccupiedUpTo(t, upTo)|
    && (forall k :: 0 <= k < |recs| ==> Right(t, g, recs[k], upTo))
    && (forall a, b :: 0 <= a < b < |recs| ==> recs[a].loc < recs[b].loc)
    && (forall p: nat :: p < upTo && t[p].key != 0 ==> Recorded(recs, p))
  }

  ghost predicate Recorded(recs: seq<CheckRec>, p: nat) {
    exists k :: 0 <= k < |recs| && recs[k].loc == p
  }

  lemma RecordedStays(recs: seq<CheckRec>, rec: CheckRec, p: nat)
    requires Recorded(recs, p)
    ensures Recorded(recs + [rec], p)
  {
    var k :| 0 <= k < |recs| && recs[k].loc == p;
    assert (recs + [rec])[k].loc == p;
  }

  lemma CollectStep(t: seq<Bucket>, g: Geometry, recs: seq<CheckRec>, i: nat, key: nat)
    requires i < |t| == g.size && t[i].key != 0 && Collected(t, g, recs, i)
    ensures Collected(t, g, recs + [CheckRec(key, i, g.Home(t[i].key))], i + 1)
  {
    var rec := CheckRec(key, i, g.Home(t[i].key));
    OccupiedStep(t, i + 1);
    forall k | 0 <= k < |recs + [rec]|
      ensures Right(t, g, (recs + [rec])[k], i + 1)
    {
      assert k < |recs| ==> Right(t, g, recs[k], i);
    }
    forall p: nat | p < i + 1 && t[p].key != 0
      ensures Recorded(recs + [rec], p)
    {
      if p == i {
        assert (recs + [rec])[|recs|].loc == p;
      } else {
        RecordedStays(recs, rec, p);
      }
    }
  }

  lemma CollectSkip(t: seq<Bucket>, g: Geometry, recs: seq<CheckRec>, i: nat)
    requires i < |t| == g.size && t[i].key == 0 && Collected(t, g, recs, i)
    ensures Collected(t, g, recs, i + 1)
  {
    OccupiedStep(t, i + 1);
    forall k | 0 <= k < |recs|
      ensures Right(t, g, recs[k], i + 1)
    {
      assert Right(t, g, recs[k], i);
    }
  }

  /** Too many occupied buckets already among the first i + 1. */
  lemma CollectOverflow(t: seq<Bucket>, g: Geometry, recs: seq<CheckRec>, i: nat)
    requires i < |t| == g.size && t[i].key != 0 && Collected(t, g, recs, i)
    ensures |recs| < |Occupied(t)|
  {
    OccupiedStep(t, i + 1);
    SubsetSize(OccupiedUpTo(t, i + 1), Occupied(t));
  }

  /** The records after the first are those of the later buckets. */
  lemma LaterRecords(t: seq<Bucket>, g: Geometry, recs: seq<CheckRec>)
    requires |t| == g.size && Collected(t, g, recs, |t|)
    requires forall k :: 1 <= k < |recs| ==> ArcFull(t, recs[k].ploc, recs[k].loc)
    ensures forall i: nat :: i < |t| && Later(t, i) ==> PathFull(t, g, i)
  {
    forall i: nat | i < |t| && Later(t, i)
      ensures PathFull(t, g, i)
    {
      var p: nat :| p < i && t[p].key != 0;
      assert Recorded(recs, i) && Recorded(recs, p);
      var k :| 0 <= k < |recs| && recs[k].loc == i;
      var k' :| 0 <= k' < |recs| && recs[k'].loc == p;
      assert Right(t, g, recs[k], |t|);
    }
  }

  lemma RecordIsLater(t: seq<Bucket>, g: Geometry, recs: seq<CheckRec>, k: nat)
    requires |t| == g.size && Collected(t, g, recs, |t|) && 1 <= k < |recs|
    ensures recs[k].loc < |t| && Later(t, recs[k].loc) && recs[k].ploc == g.Home(t[recs[k].loc].key)
  {
    assert Right(t, g, recs[k], |t|) && Right(t, g, recs[0], |t|);
  }

  /** hmap_chk_no_holes, on any table whatever. */
  method ChkNoHoles(h: H.Map) returns (status: int)
    requires h.Shaped()
    ensures status == 0 || status == -1
    ensures status == 0 <==> CheckPasses(h.bkts[..], Geo(h.Cfg(), h.View()), h.nitems)
    ensures h.nitems <= 1 || 0x8000_0000 <= h.nitems < 0x1_0000_0000 ==> status == 0
    ensures 1 < h.nitems < 0x8000_0000 && h.nitems != |Occupied(h.bkts[..])| ==> status == -1
  {
    var n := I32(h.nitems);
    if n <= 1 {
      return 0;
    }
    status := CheckRecords(h, n);
  }

  /** The checker once it has more than one item to check. */
  method CheckRecords(h: H.Map, n: nat) returns (status: int)
    requires h.Shaped() && n > 1
    ensures status == 0 || status == -1
    ensures status == 0 <==> n == |Occupied(h.bkts[..])| && LaterPathsFull(h.bkts[..], Geo(h.Cfg(), h.View()))
  {
    ghost var t, g := h.bkts[..], Geo(h.Cfg(), h.View());
    var recs;
    status, recs := CollectRecords(h, n);
    assert OccupiedUpTo(t, |t|) == Occupied(t);
    if status != 0 {
      return;
    }
    if n != |recs| {
      return -1;
    }
    for i := 1 to n
      invariant status == 0
      invariant forall k :: 1 <= k < i ==> ArcFull(t, recs[k].ploc, recs[k].loc)
    {
      RecordIsLater(t, g, recs, i);
      var full := CheckPath(h, recs[i].ploc, recs[i].loc);
      if !full {
        return -1;
      }
    }
    LaterRecords(t, g, recs);
  }

  method CollectRecords(h: H.Map, n: nat) returns (status: int, recs: seq<CheckRec>)
    requires h.Shaped()
    ensures status == 0 ==> Collected(h.bkts[..], Geo(h.Cfg(), h.View()), recs, h.size)
    ensures status == 0 || (status == -1 && n < |Occupied(h.bkts[..])|)
  {
    ghost var t, g := h.bkts[..], Geo(h.Cfg(), h.View());
    status, recs := 0, [];
    assert OccupiedUpTo(t, 0) == {};
    for i := 0 to h.size
      invariant status == 0 && Collected(t, g, recs, i)
    {
      if h.bkts[i].key == 0 {
        CollectSkip(t, g, recs, i);
        continue;
      }
      if |recs| >= n {
        CollectOverflow(t, g, recs, i);
        return -1, recs;
      }
      var home := h.HomeOf(h.bkts[i].key);
      CollectStep(t, g, recs, i, h.bkts[i].key);
      recs := recs + [CheckRec(h.bkts[i].key, i, home)];
    }
  }

  /** The three scan loops of the checker for one record. */
  method CheckPath(h: H.Map, ploc: nat, loc: nat) returns (full: bool)
    requires h.Shaped() && ploc < h.size && loc < h.size && h.bkts[loc].key != 0
    ensures full <==> ArcFull(h.bkts[..], ploc, loc)
  {
    full := true;
    if loc == ploc {
      OnlyItself(h.bkts[..], loc);
    } else if ploc < loc {
      full := ScanFull(h, ploc, loc + 1);
    } else {
      full := ScanFull(h, ploc, h.size);
      if full {
        full := ScanFull(h, 0, loc);
      }
    }
  }

  lemma OnlyItself(t: seq<Bucket>, i: nat)
    requires i < |t| && t[i].key != 0
    ensures ArcFull(t, i, i)
  {
    forall q: nat | q < |t| && Dist(i, q, |t|) <= 0
      ensures q == i
    {
    }
  }

  method ScanFull(h: H.Map, lo: nat, hi: nat) returns (full: bool)
    requires h.Shaped() && lo <= hi <= h.size
    ensures full <==> forall j :: lo <= j < hi ==> h.bkts[..][j].key != 0
  {
    full := true;
    for j := lo to hi
      invariant forall k :: lo <= k < j ==> h.bkts[..][k].key != 0
    {
      if h.bkts[j].key == 0 {
        assert h.bkts[..][j].key == 0;
        return false;
      }
    }
  }

  /** The checker accepts every state between calls. */
  lemma CheckerAcceptsReachable(c: Config, s: State)
    requires Inv(c, s)
    ensures CheckPasses(s.buckets, Geo(c, s), s.nitems)
  {
    RobinHoodHasNoHoles(s.buckets, Geo(c, s));
    ItemCount(s.buckets);
    LoadLeavesRoom(s.nitems, s.minsize, |s.buckets|);
  }

  /** On correctly labelled tables with the right count, below 2^31, what the
      checker misses is exactly a hole in front of the first occupied bucket; from
      2^31 items on it accepts anything. */
  lemma CheckerIsExactIff(t: seq<Bucket>, g: Geometry, nitems: uint32, first: nat)
    requires |t| == g.size > 0 && Unique(t) && 1 < nitems == |Occupied(t)|
    requires forall i :: 0 <= i < |t| ==> Placed(t, g, i)
    requires first < |t| && t[first].key != 0 && forall p :: 0 <= p < first ==> t[p].key == 0
    ensures nitems < 0x8000_0000 ==> (NoHoles(t, g) <==> CheckPasses(t, g, nitems) && PathFull(t, g, first))
    ensures nitems >= 0x8000_0000 ==> CheckPasses(t, g, nitems)
  {
    if nitems < 0x8000_0000 && CheckPasses(t, g, nitems) && PathFull(t, g, first) {
      forall i: nat | i < |t|
        ensures PathFull(t, g, i)
      {
        assert t[i].key != 0 ==> i == first || Later(t, i);
      }
    }
  }

  /** Such a hole: key 1 has home 2 and sits in bucket 0 of 4, past two empty
      buckets; the checker accepts the table. */
  lemma CheckerMissesHole()
    ensures var t := [Bucket(1, 0, 2), Bucket(2, 0, 0), EMPTY, EMPTY];
      var g := Geometry((k, s) => if k == 1 then 2 else 1, 0, 4);
      CheckPasses(t, g, 2) && !NoHoles(t, g)
  {
    var t := [Bucket(1, 0, 2), Bucket(2, 0, 0), EMPTY, EMPTY];
    var g := Geometry((k, s) => if k == 1 then 2 else 1, 0, 4);
    assert Occupied(t) == {0, 1};
    assert g.Home(1) == 2 && g.Home(2) == 1;
    OnlyItself(t, 1);
    assert t[2].key == 0 && !PathFull(t, g, 0);
  }
}
