// Running a sequence of calls on an actual map: the class only ever takes the
// steps of the transition system.
module Driver {
  import opened Words
  import opened Table
  import opened LoadPolicy
  import opened Machine
  import opened Runs
  import Q = QRhashmap
  import H = Hmap

  lemma EmptyMapIsCreated(c: Config, s: State)
    requires Sound(c, s) && Model(s) == map[] && s.minsize == |s.buckets|
    requires HASH_INIT_SIZE <= s.minsize < UINT_MAX
    ensures Created(c, s, s.minsize)
  {
    forall i | 0 <= i < |s.buckets|
      ensures s.buckets[i] == EMPTY
    {
      assert Clean(s.buckets, i);
      if s.buckets[i].key != 0 {
        ContentsAt(s.buckets, i);
      }
    }
  }

  /** Every sequence of calls short enough that no put grows from 2^31 buckets or more
      runs to completion on an actual map and is a run of the transition system; so
      everything proved about runs holds of it. */
  method Execute(hash: (nat, nat) -> uint32, add: (Val, Val) -> Val, request: nat, seed: nat, ops: seq<Op>)
    returns (hmap: Q.HashMap, replies: seq<Reply>, ghost states: seq<State>)
    requires request < UINT_MAX && |ops| <= Headroom(StoredMinsize(request)) + 1
    ensures hmap.hash == hash && hmap.add == add && hmap.Valid()
    ensures Run(hmap.Cfg(), states, ops, replies) && hmap.View() == states[|ops|]
  {
    var created := Q.HashMap.Create(hash, add, request, seed);
    hmap := created;
    EmptyMapIsCreated(hmap.Cfg(), hmap.View());
    replies, states := Drive(hmap, ops);
    assert ops[..|ops|] == ops;
  }

  /** The calls made before index i form a run that ends in state s. */
  ghost predicate Driven(c: Config, s: State, states: seq<State>, ops: seq<Op>, replies: seq<Reply>, i: nat,
      minsize: nat)
    requires i <= |ops|
  {
    match s
    case State(_, nitems, m, _) =>
      && Inv(c, s) && nitems <= i && m == minsize
      && Run(c, states, ops[..i], replies) && s == states[i]
  }

  method Drive(hmap: Q.HashMap, ops: seq<Op>) returns (replies: seq<Reply>, ghost states: seq<State>)
    requires hmap.Valid() && Created(hmap.Cfg(), hmap.View(), hmap.minsize)
    requires |ops| <= Headroom(hmap.minsize) + 1
    modifies hmap, hmap.buckets
    ensures hmap.Shaped() && Driven(hmap.Cfg(), hmap.View(), states, ops, replies, |ops|, hmap.minsize)
  {
    ghost var c, minsize := hmap.Cfg(), hmap.minsize;
    states, replies := [hmap.View()], [];
    StartRun(c, states[0], ops);
    for i := 0 to |ops|
      invariant hmap.Shaped() && (hmap.buckets == old(hmap.buckets) || fresh(hmap.buckets))
      invariant Driven(c, hmap.View(), states, ops, replies, i, minsize)
    {
      var r := Perform(hmap, ops[i]);
      ExtendRun(c, states, ops, replies, i, r, hmap.View());
      states := states + [hmap.View()];
      replies := replies + [r];
    }
  }

  lemma StartRun(c: Config, s: State, ops: seq<Op>)
    requires Created(c, s, s.minsize)
    ensures Run(c, [s], ops[..0], [])
  {
    assert ops[..0] == [];
    assert [s][0] == s;
  }

  lemma ExtendRun(c: Config, states: seq<State>, ops: seq<Op>, replies: seq<Reply>, i: nat, r: Reply, s': State)
    requires i < |ops| && Run(c, states, ops[..i], replies) && Step(c, states[i], ops[i], r, s')
    ensures Run(c, states + [s'], ops[..i + 1], replies + [r])
  {
    var more, after := states + [s'], ops[..i + 1];
    assert more[0] == states[0];
    forall k | 0 <= k < i + 1
      ensures Step(c, more[k], after[k], (replies + [r])[k], more[k + 1])
    {
      if k < i {
        assert ops[..i][k] == after[k];
        assert Step(c, states[k], ops[..i][k], replies[k], states[k + 1]);
      }
    }
  }

  method Perform(hmap: Q.HashMap, op: Op) returns (r: Reply)
    requires hmap.Valid() && hmap.nitems <= Headroom(hmap.minsize)
    modifies hmap, hmap.buckets
    ensures hmap.Valid() && (hmap.buckets == old(hmap.buckets) || fresh(hmap.buckets))
    ensures hmap.nitems <= old(hmap.nitems) + 1 && hmap.minsize == old(hmap.minsize)
    ensures Step(hmap.Cfg(), old(hmap.View()), op, r, hmap.View())
  {
    match op
    case Put(key, val, code, seed) =>
      GrowsBelow2to31(hmap.nitems, hmap.minsize, hmap.size);
      MarksInNumbers(hmap.nitems, hmap.minsize, hmap.size);
      var status, oldval, keyUpdated := hmap.Put(key, val, code, seed);
      r := Reply(status, keyUpdated, oldval);
    case Del(key, seed) =>
      var status, oldval, found := hmap.Del(key, seed);
      r := Reply(status, found, oldval);
    case Get(key) =>
      var status, val, found := hmap.Get(key);
      r := Reply(status, found, val);
  }

  /** The same for the generated table, whose puts have no update code. */
  method ExecuteGenerated(hash: (nat, nat) -> uint32, merge: (Val, Val) -> Val, request: nat, seed: nat, ops: seq<Op>)
    returns (hmap: H.Map, replies: seq<Reply>, ghost states: seq<State>)
    requires request < UINT_MAX && |ops| <= Headroom(StoredMinsize(request)) + 1
    requires forall i :: 0 <= i < |ops| && ops[i].Put? ==> ops[i].code == 0
    ensures hmap.hash == hash && hmap.merge == merge && hmap.Valid()
    ensures Run(hmap.Cfg(), states, ops, replies) && hmap.View() == states[|ops|]
    ensures forall i :: 0 <= i < |ops| ==> replies[i].status == 0
  {
    hmap := new H.Map.Create(hash, merge, request, seed);
    EmptyMapIsCreated(hmap.Cfg(), hmap.View());
    replies, states := DriveGenerated(hmap, ops);
    assert ops[..|ops|] == ops;
    StatusIsZero(hmap.Cfg(), states, ops, replies);
  }

  method DriveGenerated(hmap: H.Map, ops: seq<Op>) returns (replies: seq<Reply>, ghost states: seq<State>)
    requires hmap.Valid() && Created(hmap.Cfg(), hmap.View(), hmap.minsize)
    requires |ops| <= Headroom(hmap.minsize) + 1
    requires forall i :: 0 <= i < |ops| && ops[i].Put? ==> ops[i].code == 0
    modifies hmap, hmap.bkts
    ensures hmap.Shaped() && Driven(hmap.Cfg(), hmap.View(), states, ops, replies, |ops|, hmap.minsize)
  {
    ghost var c, minsize := hmap.Cfg(), hmap.minsize;
    states, replies := [hmap.View()], [];
    StartRun(c, states[0], ops);
    for i := 0 to |ops|
      invariant hmap.Shaped() && (hmap.bkts == old(hmap.bkts) || fresh(hmap.bkts))
      invariant Driven(c, hmap.View(), states, ops, replies, i, minsize)
    {
      var r := PerformGenerated(hmap, ops[i]);
      ExtendRun(c, states, ops, replies, i, r, hmap.View());
      states := states + [hmap.View()];
      replies := replies + [r];
    }
  }

  method PerformGenerated(hmap: H.Map, op: Op) returns (r: Reply)
    requires hmap.Valid() && hmap.nitems <= Headroom(hmap.minsize) && (op.Put? ==> op.code == 0)
    modifies hmap, hmap.bkts
    ensures hmap.Valid() && (hmap.bkts == old(hmap.bkts) || fresh(hmap.bkts))
    ensures hmap.nitems <= old(hmap.nitems) + 1 && hmap.minsize == old(hmap.minsize)
    ensures Step(hmap.Cfg(), old(hmap.View()), op, r, hmap.View())
  {
    match op
    case Put(key, val, code, seed) =>
      GrowsBelow2to31(hmap.nitems, hmap.minsize, hmap.size);
      MarksInNumbers(hmap.nitems, hmap.minsize, hmap.size);
      var status, oldval, updated := hmap.Put(key, val, seed);
      r := Reply(status, updated, oldval);
    case Del(key, seed) =>
      var status, found, val := hmap.Del(key, seed);
      r := Reply(status, found, val);
    case Get(key) =>
      var status, val, found := hmap.Get(key);
      r := Reply(status, found, val);
  }
}
