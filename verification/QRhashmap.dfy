// The single-value table: get, put and del over an array of buckets updated in
// place, with resizing under a fresh seed.
module QRhashmap {
  import opened Words
  import opened FastDiv
  import opened Ring
  import opened Table
  import opened Lookup
  import opened Insertion
  import opened Deletion
  import opened LoadPolicy
  import opened Machine
  import opened Rehash

  const Q_RHM_SET := 1

  const Q_RHM_ADD := 2

  /** What each update code does; add is the value type's own addition. */
  function UpdateBy(add: (Val, Val) -> Val): (int, Val, Val) -> Option<Val> {
    (code, stored, val) =>
      if code == Q_RHM_SET then Some(val)
      else if code == Q_RHM_ADD then Some(add(stored, val))
      else None
  }

  /** What a put promises, without reference to the steps or the update function. */
  lemma PutMeans(c: Config, add: (Val, Val) -> Val, s: State, key: nat, val: Val, code: int, seed: nat, r: Reply,
                 s': State)
    requires c.combine == UpdateBy(add) && PutDone(c, s, Op.Put(key, val, code, seed), r, s')
    ensures key == 0 ==> r.status == 0 && Model(s') == Model(s)
    ensures key != 0 && (key !in Model(s) || code == Q_RHM_SET) ==> r.status == 0 && Model(s') == Model(s)[key := val]
    ensures key in Model(s) && key != 0 && code == Q_RHM_ADD ==>
      r.status == 0 && Model(s') == Model(s)[key := add(Model(s)[key], val)]
    ensures key in Model(s) && key != 0 && code != Q_RHM_SET && code != Q_RHM_ADD ==>
      r.status == -1 && Model(s') == Model(s)
    ensures key != 0 ==> (r.found <==> key in Model(s)) && r.val == if key in Model(s) then Model(s)[key] else 0
  {
  }

  class HashMap {
    const hash: (nat, nat) -> uint32
    const add: (Val, Val) -> Val
    var size: uint32
    var nitems: nat
    var divinfo: uint64
    var buckets: array<Bucket>
    var hashkey: nat
    var minsize: nat

    ghost function Cfg(): Config {
      Config(hash, UpdateBy(add))
    }

    ghost function View(): State
      reads this, buckets
    {
      State(buckets[..], nitems, minsize, hashkey)
    }

    /** The header agrees with the bucket array, and division by size is exact. */
    ghost predicate Shaped()
      reads this
    {
      size == buckets.Length && ExactFor(divinfo, size)
    }

    ghost predicate Valid()
      reads this, buckets
    {
      Shaped() && Inv(Cfg(), View())
    }

    /** calloc: a header with no buckets yet. */
    constructor (hash: (nat, nat) -> uint32, add: (Val, Val) -> Val, minsize: nat)
      ensures this.hash == hash && this.add == add && this.minsize == minsize
      ensures size == 0 == buckets.Length && nitems == 0 && fresh(buckets)
    {
      this.hash := hash;
      this.add := add;
      this.minsize := minsize;
      size, nitems, divinfo, hashkey := 0, 0, 0, 0;
      buckets := new Bucket[0];
    }

    method HomeOf(key: nat) returns (i: nat)
      requires Shaped()
      ensures i == Geo(Cfg(), View()).Home(key)
    {
      i := FastRem32(hash(key, hashkey), size, divinfo);
    }

    method StepFrom(i: nat) returns (j: nat)
      requires Shaped() && i < size
      ensures j == Next(i, size)
    {
      j := FastRem32(i + 1, size, divinfo);
      NextIsRemainder(i, size);
    }

    /** A present key's value; 0 and not found for an absent one. */
    method Get(key: nat) returns (status: int, val: Val, found: bool)
      requires Valid()
      ensures GetStep(Cfg(), View(), key, Reply(status, found, val), View())
      ensures status == 0
      ensures key != 0 ==> (found <==> key in Model(View()))
      ensures key != 0 ==> val == if found then Model(View())[key] else 0
    {
      InvHasEmpty(Cfg(), View());
      var i;
      i, found := ProbeForGet(key, AnEmpty(buckets[..]));
      status, val := 0, if found then buckets[i].val else 0;
      GetStepInv(Cfg(), View(), Op.Get(key), Reply(status, found, val), View());
    }

    /** The probe loop of get. */
    method ProbeForGet(key: nat, ghost e: nat) returns (i: nat, found: bool)
      requires Shaped() && e < size && buckets[e].key == 0
      ensures found ==> i < size
      ensures Probe(buckets[..], key, Geo(Cfg(), View()).Home(key), 0, e) == if found then Found(i) else Absent
    {
      found := false;
      var n := 0;
      i := HomeOf(key);
      ghost var home := i;
      while true
        invariant i < size && n >= 0 && !found
        invariant Probe(buckets[..], key, i, n, e) == Probe(buckets[..], key, home, 0, e)
        decreases Dist(i, e, size)
      {
        if buckets[i].key == key {
          found := true;
          break;
        }
        if buckets[i].key == 0 || n > buckets[i].psl {
          break;
        }
        n := n + 1;
        i := StepFrom(i);
      }
    }

    /** Robin Hood insertion without resizing. keyUpdated is the flag the code keeps
        to tell whether the key was already there; oldval is left alone when the key is 0. */
    method Insert(key: nat, val: Val, updateType: int)
      returns (status: int, oldval: Val, keyUpdated: bool)
      requires Shaped() && 0 < size && (key != 0 ==> HasEmpty(buckets[..]))
      modifies this`nitems, buckets
      ensures buckets == old(buckets) && Shaped()
      ensures InsertStep(Cfg(), old(View()), key, val, updateType, Reply(status, keyUpdated, oldval), View())
    {
      if key == 0 {
        status, keyUpdated, oldval := 0, false, *;
      } else {
        status, oldval, keyUpdated := InsertWalk(key, val, updateType, AnEmpty(buckets[..]));
      }
    }

    /** The probe-and-swap loop of insert. */
    method InsertWalk(key: nat, val: Val, updateType: int, ghost e: nat)
      returns (status: int, oldval: Val, keyUpdated: bool)
      requires Shaped() && e < size && buckets[e].key == 0
      modifies this`nitems, buckets
      ensures match Insertion.Insert(old(buckets[..]), Geo(Cfg(), old(View())), key, val, MergeOf(Cfg(), updateType), e)
        case Inserted(u) => buckets[..] == u && nitems == old(nitems) + 1 && status == 0 && !keyUpdated && oldval == 0
        case Updated(u, previous) =>
          && buckets[..] == u && nitems == old(nitems)
          && status == 0 && keyUpdated && oldval == previous
        case Rejected(u, previous) =>
          && buckets[..] == u && nitems == old(nitems)
          && status == -1 && keyUpdated && oldval == previous
    {
      status, oldval, keyUpdated := 0, 0, false;
      ghost var merge := MergeOf(Cfg(), updateType);
      var entry := Bucket(key, val, 0);
      var i: nat := HomeOf(key);
      ghost var goal := Walk(buckets[..], i, entry, key, val, merge, e);
      while buckets[i].key != 0
        invariant i < size && buckets[e].key == 0 && nitems == old(nitems)
        invariant Walk(buckets[..], i, entry, key, val, merge, e) == goal
        decreases Dist(i, e, size)
      {
        ghost var t := buckets[..];
        if buckets[i].key == key {
          keyUpdated := true;
          oldval := buckets[i].val;
          if updateType == Q_RHM_SET {
            buckets[i] := buckets[i].(val := val);
          } else if updateType == Q_RHM_ADD {
            buckets[i] := buckets[i].(val := add(buckets[i].val, val));
          } else {
            status := -1;
          }
          return;
        }
        if entry.psl > buckets[i].psl {
          var tmp := entry;
          entry := buckets[i];
          buckets[i] := tmp;
          assert buckets[..] == t[i := tmp];
        }
        entry := entry.(psl := entry.psl + 1);
        i := StepFrom(i);
      }
      buckets[i] := entry;
      nitems := nitems + 1;
    }

    /** Move every record to newsize new buckets under a new seed. */
    method Resize(newsize: nat, seed: nat) returns (status: int)
      requires size == buckets.Length && Unique(buckets[..]) && nitems == |Contents(buckets[..])|
      modifies this`nitems, this`size, this`divinfo, this`hashkey, this`buckets
      ensures status == 0 || status == -1
      ensures status == 0 <==> 0 < newsize < 0xffff_ffff && old(nitems) <= newsize
      ensures status == 0 ==>
        Shaped() && fresh(buckets) && Resized(Cfg(), old(View()), newsize, seed, View())
      ensures status == 0 ==> size == newsize && hashkey == seed && Model(View()) == old(Model(View()))
      ensures status != 0 ==>
        buckets == old(buckets) && View() == old(View()) && size == old(size) && divinfo == old(divinfo)
    {
      status := 0;
      if newsize <= 0 || newsize >= UINT_MAX {
        return -1;
      }
      if newsize < nitems {
        return -1;
      }
      status := Rebuild(newsize, seed, buckets[..]);
    }

    /** resize once newsize has passed the checks. */
    method Rebuild(newsize: nat, seed: nat, ghost t: seq<Bucket>) returns (status: int)
      requires size == buckets.Length && t == buckets[..] && Unique(t) && 0 < newsize < UINT_MAX
      requires |Contents(t)| <= newsize
      modifies this`nitems, this`size, this`divinfo, this`hashkey, this`buckets
      ensures status == 0 && Shaped() && fresh(buckets) && size == newsize && hashkey == seed
      ensures Sound(Cfg(), View()) && Model(View()) == Contents(t)
    {
      var oldbuckets := buckets;
      buckets := new Bucket[newsize](_ => EMPTY);
      assert oldbuckets[..] == t;
      size := newsize;
      nitems := 0;
      divinfo := FastDiv32Init(size);
      hashkey := seed;
      Refill(oldbuckets, t);
      status := 0;
    }

    /** The loop of resize, over the old buckets. */
    method Refill(oldbuckets: array<Bucket>, ghost t: seq<Bucket>)
      requires Shaped() && 0 < size && oldbuckets != buckets && oldbuckets[..] == t && Unique(t)
      requires nitems == 0 && (forall i :: 0 <= i < buckets.Length ==> buckets[i] == EMPTY) && |Contents(t)| <= size
      modifies this`nitems, buckets
      ensures buckets == old(buckets) && Shaped() && Sound(Cfg(), View()) && Model(View()) == Contents(t)
    {
      EmptyTableSound(Cfg(), View());
      assert Contents(t[..0]) == map[];
      var i := 0;
      while i < oldbuckets.Length
        invariant i <= oldbuckets.Length && oldbuckets[..] == t
        invariant Sound(Cfg(), View()) && Model(View()) == Contents(t[..i])
      {
        ReinsertBucket(oldbuckets, i, t);
        i := i + 1;
      }
      assert t[..i] == t;
    }

    method ReinsertBucket(oldbuckets: array<Bucket>, i: nat, ghost t: seq<Bucket>)
      requires Shaped() && 0 < size && oldbuckets != buckets && i < oldbuckets.Length && oldbuckets[..] == t
      requires Sound(Cfg(), View()) && Unique(t) && Model(View()) == Contents(t[..i]) && |Contents(t)| <= size
      modifies this`nitems, buckets
      ensures Sound(Cfg(), View()) && Model(View()) == Contents(t[..i + 1])
    {
      PrefixStep(t, i);
      var bucket := oldbuckets[i];
      if bucket.key != 0 {
        RoomForNext(Cfg(), View(), t, i);
        ghost var before := View();
        var status, oldval, keyUpdated;
        status, oldval, keyUpdated := Insert(bucket.key, bucket.val, Q_RHM_SET);
        Reinserted(Cfg(), before, t, i, Q_RHM_SET, Reply(status, keyUpdated, oldval), View());
      }
    }

    /** Insert or merge, growing first when the load is above the high mark. The
        precondition is what the grow loop needs to end. */
    method Put(key: nat, val: Val, updateType: int, seed: nat)
      returns (status: int, oldval: Val, keyUpdated: bool)
      requires Valid() && (20 * nitems > 17 * size ==> size < 0x8000_0000)
      modifies this, buckets
      ensures Valid() && (buckets == old(buckets) || fresh(buckets))
      ensures minsize == old(minsize) && nitems <= old(nitems) + 1
      ensures size == if 20 * old(nitems) <= 17 * old(size) then old(size)
                      else if old(size) <= 0x10_0000 then 2 * old(size) else old(size) + 0x10_0000
      ensures key == 0 ==> status == 0 && Model(View()) == old(Model(View()))
      ensures key != 0 && (key !in old(Model(View())) || updateType == Q_RHM_SET) ==>
        status == 0 && Model(View()) == old(Model(View()))[key := val]
      ensures key != 0 && key in old(Model(View())) && updateType == Q_RHM_ADD ==>
        status == 0 && Model(View()) == old(Model(View()))[key := add(old(Model(View()))[key], val)]
      ensures key != 0 && key in old(Model(View())) && updateType != Q_RHM_SET && updateType != Q_RHM_ADD ==>
        status == -1 && Model(View()) == old(Model(View()))
      ensures key != 0 ==> (keyUpdated <==> key in old(Model(View())))
      ensures key != 0 ==> oldval == if key in old(Model(View())) then old(Model(View()))[key] else 0
      ensures PutStep(Cfg(), old(View()), Op.Put(key, val, updateType, seed), Reply(status, keyUpdated, oldval), View())
      ensures Model(View()) == MapApply(Cfg(), old(Model(View())), Op.Put(key, val, updateType, seed))
      ensures Answers(Cfg(), old(Model(View())), Op.Put(key, val, updateType, seed), Reply(status, keyUpdated, oldval))
    {
      ghost var before := View();
      MarksInNumbers(nitems, minsize, size);
      status := GrowIfFull(seed);
      status, oldval, keyUpdated := InsertGrown(key, val, updateType, seed, before);
      ghost var op, r := Op.Put(key, val, updateType, seed), Reply(status, keyUpdated, oldval);
      PutSizes(Cfg(), before, op, r, View());
      PutMeans(Cfg(), add, before, key, val, updateType, seed, r, View());
    }

    /** The insertion half of put; before is the state put was called in. */
    method InsertGrown(key: nat, val: Val, updateType: int, seed: nat, ghost before: State)
      returns (status: int, oldval: Val, keyUpdated: bool)
      requires Shaped() && HasEmpty(buckets[..]) && Inv(Cfg(), before)
      requires GrowTo(before.nitems, |before.buckets|).Some? ==> |before.buckets| < 0x8000_0000
      requires MaybeResized(Cfg(), before, GrowTo(before.nitems, |before.buckets|), seed, View())
      modifies this`nitems, buckets
      ensures Shaped() && buckets == old(buckets)
      ensures PutDone(Cfg(), before, Op.Put(key, val, updateType, seed), Reply(status, keyUpdated, oldval), View())
    {
      ghost var mid := View();
      status, oldval, keyUpdated := Insert(key, val, updateType);
      PutStepFrom(Cfg(), before, Op.Put(key, val, updateType, seed), mid, Reply(status, keyUpdated, oldval), View());
    }

    method GrowIfFull(seed: nat) returns (status: int)
      requires Valid() && (GrowTo(nitems, size).Some? ==> size < 0x8000_0000)
      modifies this
      ensures status == 0 && Shaped() && (buckets == old(buckets) || fresh(buckets))
      ensures MaybeResized(Cfg(), old(View()), GrowTo(old(nitems), old(size)), seed, View())
      ensures HasEmpty(buckets[..])
    {
      ghost var before := View();
      LoadLeavesRoom(nitems, minsize, size);
      if GrowTo(nitems, size).Some? {
        GrowKeepsLoad(nitems, minsize, size);
      }
      GrowLoopEndsIff(nitems, size);
      var newsize, resize;
      status, newsize, resize := CalcNewSize(nitems, minsize, size, false);
      if resize {
        status := Resize(newsize, seed);
      }
      GrownHasEmpty(Cfg(), before, seed, View());
    }

    /** Remove a key by backward shift and return its value, shrinking afterwards
        when the load is below the low mark. */
    method Del(key: nat, seed: nat) returns (status: int, oldval: Val, found: bool)
      requires Valid()
      modifies this, buckets
      ensures Valid() && (buckets == old(buckets) || fresh(buckets))
      ensures minsize == old(minsize) && nitems <= old(nitems)
      ensures status == 0 && Model(View()) == old(Model(View())) - {key}
      ensures found <==> key in old(Model(View()))
      ensures oldval == if key in old(Model(View())) then old(Model(View()))[key] else 0
      ensures size == if found && nitems > minsize && 5 * (nitems + 1) <= 2 * old(size) then old(size) / 2
                      else old(size)
      ensures DelStep(Cfg(), old(View()), Op.Del(key, seed), Reply(status, found, oldval), View())
    {
      ghost var before := View();
      InvHasEmpty(Cfg(), before);
      oldval, found := Remove(key, AnEmpty(buckets[..]));
      status := FinishDel(key, seed, before, found, oldval);
      DelMeans(Cfg(), before, key, seed, Reply(status, found, oldval), View());
    }

    /** The resizing half of del; before is the state del was called in. */
    method FinishDel(key: nat, seed: nat, ghost before: State, found: bool, ghost oldval: Val) returns (status: int)
      requires Shaped() && Inv(Cfg(), before)
      requires RemoveStep(Cfg(), before, key, Reply(0, found, oldval), View())
      modifies this
      ensures Shaped() && (buckets == old(buckets) || fresh(buckets))
      ensures DelDone(Cfg(), before, Op.Del(key, seed), Reply(status, found, oldval), View())
    {
      ghost var op, mid, r := Op.Del(key, seed), View(), Reply(0, found, oldval);
      RemoveStepSound(Cfg(), before, op, r, mid);
      status := 0;
      if found {
        status := ShrinkIfSparse(seed, before, r);
      }
      DelStepFrom(Cfg(), before, op, mid, r, View());
    }

    method ShrinkIfSparse(seed: nat, ghost before: State, ghost r: Reply) returns (status: int)
      requires Shaped() && Inv(Cfg(), before) && Sound(Cfg(), View())
      requires |before.buckets| == size && before.minsize == minsize
      requires r.found && before.nitems > 0 && nitems == before.nitems - 1
      modifies this
      ensures status == 0 && Shaped() && (buckets == old(buckets) || fresh(buckets))
      ensures MaybeResized(Cfg(), old(View()), ShrinkTarget(old(View()), r), seed, View())
    {
      LoadLeavesRoom(before.nitems, minsize, size);
      if ShrinkTo(nitems, minsize, size).Some? {
        ShrinkKeepsLoad(before.nitems, minsize, size);
      }
      var newsize, resize;
      status, newsize, resize := CalcNewSize(nitems, minsize, size, true);
      if resize {
        status := Resize(newsize, seed);
      }
    }

    /** del without the shrinking. */
    method Remove(key: nat, ghost e: nat) returns (oldval: Val, found: bool)
      requires Shaped() && Sound(Cfg(), View()) && HasEmpty(buckets[..]) && e == AnEmpty(buckets[..])
      modifies this`nitems, buckets
      ensures buckets == old(buckets) && Shaped()
      ensures RemoveStep(Cfg(), old(View()), key, Reply(0, found, oldval), View())
    {
      oldval := 0;
      var i: nat;
      i, found := ProbeForDel(key, e);
      if found {
        ghost var t := buckets[..];
        CountPositive(Cfg(), View(), i);
        oldval := buckets[i].val;
        buckets[i] := EMPTY;
        nitems := nitems - 1;
        assert buckets[..] == t[i := EMPTY];
        BackwardShift(i, e);
      }
    }

    /** The probe loop of del. It looks for an empty or a richer bucket before it
        compares keys, which makes no difference in a Robin Hood table. */
    method ProbeForDel(key: nat, ghost e: nat) returns (i: nat, found: bool)
      requires Shaped() && RobinHood(buckets[..], Geo(Cfg(), View())) && e < size && buckets[e].key == 0
      ensures found ==> i < size && buckets[i].key == key != 0
      ensures key == 0 ==> !found
      ensures key != 0 ==>
        Probe(buckets[..], key, Geo(Cfg(), View()).Home(key), 0, e) == if found then Found(i) else Absent
    {
      found := false;
      var n: nat := 0;
      i := HomeOf(key);
      ghost var home: nat := i;
      while true
        invariant i < size && !found && n == Dist(home, i, size) <= Dist(home, e, size)
        invariant Probe(buckets[..], key, i, n, e) == Probe(buckets[..], key, home, 0, e)
        decreases Dist(i, e, size)
      {
        assert Placed(buckets[..], Geo(Cfg(), View()), i);
        if buckets[i].key == 0 {
          break;
        }
        if n > buckets[i].psl {
          break;
        }
        if buckets[i].key == key {
          found := true;
          break;
        }
        AdvanceDist(home, i, size);
        AdvanceDist(home, e, size);
        DistNext(home, i, size);
        i := StepFrom(i);
        n := n + 1;
      }
    }

    /** Copy each displaced follower back and clear what it leaves. */
    method BackwardShift(start: nat, ghost e: nat)
      requires Shaped() && start < size && e < size && start != e
      requires buckets[start] == EMPTY && buckets[e].key == 0
      modifies buckets
      ensures buckets[..] == Shift(old(buckets[..]), start, e)
    {
      ghost var goal := Shift(buckets[..], start, e);
      var i, bucket := start, start;
      assert buckets[..][bucket := EMPTY] == buckets[..];
      while true
        invariant i == bucket < size && bucket != e && buckets[e].key == 0
        invariant Shift(buckets[..][bucket := EMPTY], bucket, e) == goal
        decreases Dist(i, e, size)
      {
        ghost var t := buckets[..][bucket := EMPTY];
        buckets[bucket] := EMPTY;
        assert buckets[..] == t;
        i := StepFrom(i);
        if buckets[i].key == 0 || buckets[i].psl == 0 {
          break;
        }
        buckets[i] := buckets[i].(psl := buckets[i].psl - 1);
        buckets[bucket] := buckets[i];
        assert buckets[..][i := EMPTY] == Pulled(t, bucket);
        bucket := i;
      }
    }

    /** A new map with at least size buckets; null when the request does not give
        a usable 32-bit size. */
    static method Create(hash: (nat, nat) -> uint32, add: (Val, Val) -> Val, request: nat, seed: nat)
      returns (hmap: HashMap?)
      ensures hmap == null <==>
        request >= 0xffff_ffff && (request % 0x1_0000_0000 == 0 || request % 0x1_0000_0000 == 0xffff_ffff)
      ensures hmap != null ==> fresh(hmap) && fresh(hmap.buckets) && hmap.hash == hash && hmap.add == add
      ensures hmap != null ==> hmap.Shaped() && Sound(hmap.Cfg(), hmap.View()) && Model(hmap.View()) == map[]
      ensures hmap != null ==> hmap.size == hmap.minsize == StoredMinsize(request)
      ensures hmap != null ==> hmap.size == if request < 65536 then 65536 else request % 0x1_0000_0000
      ensures request < 0xffff_ffff ==> hmap != null && hmap.Valid()
    {
      hmap := new HashMap(hash, add, StoredMinsize(request));
      assert hmap.View().buckets == [];
      var status := hmap.Resize(hmap.minsize, seed);
      if status != 0 {
        return null;
      }
    }
  }
}
