// The generated table: one fixed merge per value type, wrap-around by
// comparison, explicit limits on every loop, deletion by swapping.
module Hmap {
  import opened Words
  import opened FastDiv
  import opened Ring
  import opened Table
  import opened Lookup
  import opened Insertion
  import opened Deletion
  import opened LoadPolicy
  import opened Machine
  import opened Rehash

  function MergeAlways(merge: (Val, Val) -> Val): (int, Val, Val) -> Option<Val> {
    (code, stored, val) => Some(merge(stored, val))
  }

  /** What a put promises, without reference to the steps or the update function. */
  lemma PutMeans(c: Config, merge: (Val, Val) -> Val, s: State, key: nat, val: Val, seed: nat, r: Reply, s': State)
    requires c.combine == MergeAlways(merge) && PutDone(c, s, Op.Put(key, val, 0, seed), r, s')
    ensures r.status == 0 && (key == 0 ==> Model(s') == Model(s))
    ensures key != 0 ==>
      Model(s') == Model(s)[key := if key in Model(s) then merge(Model(s)[key], val) else val]
    ensures key != 0 ==> (r.found <==> key in Model(s)) && r.val == if key in Model(s) then Model(s)[key] else 0
  {
  }

  class Map {
    const hash: (nat, nat) -> uint32
    const merge: (Val, Val) -> Val
    var size: uint32
    var nitems: nat
    var divinfo: uint64
    var bkts: array<Bucket>
    var hashkey: nat
    var minsize: nat

    ghost function Cfg(): Config {
      Config(hash, MergeAlways(merge))
    }

    ghost function View(): State
      reads this, bkts
    {
      State(bkts[..], nitems, minsize, hashkey)
    }

    ghost predicate Shaped()
      reads this
    {
      size == bkts.Length > 0 && ExactFor(divinfo, size)
    }

    ghost predicate Valid()
      reads this, bkts
    {
      Shaped() && Inv(Cfg(), View())
    }

    /** A new map; the stored minimum must not wrap to zero. */
    constructor Create(hash: (nat, nat) -> uint32, merge: (Val, Val) -> Val, request: nat, seed: nat)
      requires request == 0 || request % 0x1_0000_0000 != 0
      ensures this.hash == hash && this.merge == merge && fresh(bkts)
      ensures Shaped() && Sound(Cfg(), View()) && Model(View()) == map[]
      ensures size == minsize == StoredMinsize(request)
      ensures size == if request < 65536 then 65536 else request % 0x1_0000_0000
      ensures request < 0xffff_ffff ==> Valid()
    {
      var minimum := StoredMinsize(request);
      this.hash := hash;
      this.merge := merge;
      size, minsize, nitems := minimum, minimum, 0;
      bkts := new Bucket[minimum](_ => EMPTY);
      hashkey := seed;
      new;
      divinfo := FastDiv32Init(minimum);
      EmptyTableSound(Cfg(), View());
    }

    method HomeOf(key: nat) returns (i: nat)
      requires Shaped()
      ensures i == Geo(Cfg(), View()).Home(key)
    {
      i := FastRem32(hash(key, hashkey), size, divinfo);
    }

    /** A present key's value; 0 and not found for an absent one. The probe limit
        is never reached. */
    method Get(key: nat) returns (status: int, val: Val, found: bool)
      requires Valid()
      ensures GetStep(Cfg(), View(), key, Reply(status, found, val), View())
      ensures status == 0
      ensures key != 0 ==> (found <==> key in Model(View()))
      ensures key != 0 ==> val == if found then Model(View())[key] else 0
    {
      InvHasEmpty(Cfg(), View());
      var i;
      status, i, found := ProbeForGet(key, AnEmpty(bkts[..]));
      val := if found then bkts[i].val else 0;
      GetStepInv(Cfg(), View(), Op.Get(key), Reply(status, found, val), View());
    }

    method ProbeForGet(key: nat, ghost e: nat) returns (status: int, probeLoc: nat, found: bool)
      requires Shaped() && e < size && bkts[e].key == 0
      ensures status == 0 && (found ==> probeLoc < size)
      ensures Probe(bkts[..], key, Geo(Cfg(), View()).Home(key), 0, e) == if found then Found(probeLoc) else Absent
    {
      status, found := 0, false;
      var numProbes: nat := 0;
      probeLoc := HomeOf(key);
      ghost var home := probeLoc;
      while true
        invariant probeLoc < size && status == 0 && !found
        invariant numProbes + Dist(probeLoc, e, size) == Dist(home, e, size)
        invariant Probe(bkts[..], key, probeLoc, numProbes, e) == Probe(bkts[..], key, home, 0, e)
        decreases Dist(probeLoc, e, size)
      {
        if numProbes >= size {
          status := -1;
          break;
        }
        var thisKey := bkts[probeLoc].key;
        if thisKey == key {
          found := true;
          break;
        }
        if thisKey == 0 || numProbes > bkts[probeLoc].psl {
          break;
        }
        numProbes := numProbes + 1;
        probeLoc := probeLoc + 1;
        if probeLoc == size {
          probeLoc := 0;
        }
      }
    }

    /** Insertion on any table whatever, even a full one, where an absent key ends
        in status -1. */
    method InsertLimited(key: nat, val: Val) returns (status: int, oldval: Val, updated: bool)
      requires Shaped() && key != 0
      modifies this`nitems, bkts
      ensures Shows(WalkLimited(old(bkts[..]), Geo(Cfg(), old(View())).Home(key), Bucket(key, val, 0),
                                key, val, MergeOf(Cfg(), 0), 0),
                    bkts[..], nitems - old(nitems), status, updated, oldval)
    {
      status, oldval, updated := 0, 0, false;
      ghost var merger := MergeOf(Cfg(), 0);
      var entry := Bucket(key, val, 0);
      var numProbes: nat := 0;
      var probeLoc: nat := HomeOf(key);
      ghost var goal := WalkLimited(bkts[..], probeLoc, entry, key, val, merger, 0);
      while true
        invariant probeLoc < size && numProbes <= size && nitems == old(nitems)
        invariant WalkLimited(bkts[..], probeLoc, entry, key, val, merger, numProbes) == goal
        decreases size - numProbes
      {
        ghost var t := bkts[..];
        if numProbes >= size {
          return -1, 0, false;
        }
        var thisKey := bkts[probeLoc].key;
        if thisKey != 0 {
          if thisKey == key {
            oldval := bkts[probeLoc].val;
            bkts[probeLoc] := bkts[probeLoc].(val := merge(bkts[probeLoc].val, val));
            updated := true;
            break;
          }
          if entry.psl > bkts[probeLoc].psl {
            var tmp := entry;
            entry := bkts[probeLoc];
            bkts[probeLoc] := tmp;
            assert bkts[..] == t[probeLoc := tmp];
          }
          entry := entry.(psl := entry.psl + 1);
          numProbes := numProbes + 1;
          probeLoc := probeLoc + 1;
          if probeLoc == size {
            probeLoc := 0;
          }
        } else {
          bkts[probeLoc] := entry;
          nitems := nitems + 1;
          break;
        }
      }
    }

    /** Insertion. While a bucket is empty the probe limit is never reached; an
        absent key never comes back as updated, whatever the table. */
    method Insert(key: nat, val: Val) returns (status: int, oldval: Val, updated: bool)
      requires Shaped()
      modifies this`nitems, bkts
      ensures bkts == old(bkts) && Shaped()
      ensures old(HasEmpty(bkts[..])) ==>
        status == 0 && InsertStep(Cfg(), old(View()), key, val, 0, Reply(status, updated, oldval), View())
      ensures key != 0 && Unique(old(bkts[..])) && key !in Keys(old(bkts[..])) ==>
        !updated && AddsIfRoom(old(bkts[..]), key, val, bkts[..], nitems - old(nitems))
    {
      if key == 0 {
        return 0, 0, false;
      }
      ghost var s := View();
      status, oldval, updated := InsertLimited(key, val);
      if HasEmpty(s.buckets) {
        LimitedInsertStep(Cfg(), s, key, val, 0, Reply(status, updated, oldval), View());
      }
      if Unique(s.buckets) && key !in Keys(s.buckets) {
        InsertAddsIfRoom(s.buckets, Geo(Cfg(), s).Home(key), key, val, MergeOf(Cfg(), 0), bkts[..],
            nitems - s.nitems, status, updated, oldval);
      }
    }

    /** Move every record to newsize new buckets under a new seed. The check on
        newsize admits sizes below nitems; the status is then still 0, and only as
        many records are left as there are buckets. */
    method Resize(newsize: nat, seed: nat) returns (status: int)
      requires size == bkts.Length && Unique(bkts[..]) && nitems == |Contents(bkts[..])|
      modifies this`nitems, this`size, this`divinfo, this`hashkey, this`bkts
      ensures status == 0 || status == -1
      ensures status == 0 <==> 0 < newsize < 0xffff_ffff && newsize >= 17 * old(nitems) / 20
      ensures status == 0 && old(nitems) <= newsize ==>
        Shaped() && fresh(bkts) && Resized(Cfg(), old(View()), newsize, seed, View())
      ensures status == 0 ==> Shaped() && size == newsize && hashkey == seed
      ensures status == 0 ==> SubMap(Model(View()), old(Model(View())))
      ensures status == 0 ==> nitems == |Model(View())| == Min(old(nitems), newsize)
      ensures status == 0 && old(nitems) <= newsize ==> Model(View()) == old(Model(View()))
      ensures status != 0 ==> bkts == old(bkts) && View() == old(View())
    {
      status := 0;
      if newsize <= 0 || newsize >= UINT_MAX {
        return -1;
      }
      if newsize < 17 * nitems / 20 {
        return -1;
      }
      status := Rebuild(newsize, seed, bkts[..], nitems <= newsize);
    }

    /** resize once newsize has passed the checks. */
    method Rebuild(newsize: nat, seed: nat, ghost t: seq<Bucket>, ghost fits: bool) returns (status: int)
      requires size == bkts.Length && t == bkts[..] && Unique(t) && 0 < newsize < UINT_MAX
      requires fits ==> |Contents(t)| <= newsize
      modifies this`nitems, this`size, this`divinfo, this`hashkey, this`bkts
      ensures status == 0 && Shaped() && fresh(bkts) && size == newsize && hashkey == seed
      ensures Refilled(Cfg(), t, View(), fits)
    {
      var oldbkts := bkts;
      bkts := new Bucket[newsize](_ => EMPTY);
      assert oldbkts[..] == t;
      size := newsize;
      nitems := 0;
      divinfo := FastDiv32Init(size);
      hashkey := seed;
      status := Refill(oldbkts, t, fits);
    }

    /** The loop of resize, over the old buckets. */
    method Refill(oldbkts: array<Bucket>, ghost t: seq<Bucket>, ghost fits: bool) returns (status: int)
      requires Shaped() && oldbkts != bkts && oldbkts[..] == t && Unique(t)
      requires nitems == 0 && forall i :: 0 <= i < bkts.Length ==> bkts[i] == EMPTY
      requires fits ==> |Contents(t)| <= size
      modifies this`nitems, bkts
      ensures status == 0 && bkts == old(bkts) && Shaped() && Refilled(Cfg(), t, View(), fits)
    {
      status := 0;
      EmptyTableSound(Cfg(), View());
      StartsCarried(t, bkts[..]);
      var i := 0;
      while i < oldbkts.Length
        invariant i <= oldbkts.Length && oldbkts[..] == t && CarriedOver(t, i, bkts[..], nitems)
        invariant fits ==> Sound(Cfg(), View()) && Model(View()) == Contents(t[..i])
      {
        var updated := ReinsertBucket(oldbkts, i, t, fits);
        if updated {
          return -1;
        }
        i := i + 1;
      }
      assert t[..i] == t;
    }

    method ReinsertBucket(oldbkts: array<Bucket>, i: nat, ghost t: seq<Bucket>, ghost fits: bool)
      returns (updated: bool)
      requires Shaped() && oldbkts != bkts && i < oldbkts.Length && oldbkts[..] == t && Unique(t)
      requires CarriedOver(t, i, bkts[..], nitems)
      requires fits ==> Sound(Cfg(), View()) && Model(View()) == Contents(t[..i]) && |Contents(t)| <= size
      modifies this`nitems, bkts
      ensures !updated && CarriedOver(t, i + 1, bkts[..], nitems)
      ensures fits ==> Sound(Cfg(), View()) && Model(View()) == Contents(t[..i + 1])
    {
      updated := false;
      PrefixStep(t, i);
      ghost var before := View();
      if oldbkts[i].key != 0 {
        NotCarriedYet(t, i, bkts[..], nitems);
        if fits {
          RoomForNext(Cfg(), View(), t, i);
        }
        var status, oldval;
        status, oldval, updated := Insert(oldbkts[i].key, oldbkts[i].val);
        if fits {
          Reinserted(Cfg(), before, t, i, 0, Reply(status, updated, oldval), View());
        }
      }
      CarriedNext(t, i, before.buckets, before.nitems, bkts[..], nitems);
    }

    /** Insert or merge, growing first when the load is above the high mark. */
    method Put(key: nat, val: Val, seed: nat) returns (status: int, oldval: Val, updated: bool)
      requires Valid() && (20 * nitems > 17 * size ==> size < 0x8000_0000)
      modifies this, bkts
      ensures Valid() && (bkts == old(bkts) || fresh(bkts)) && status == 0
      ensures minsize == old(minsize) && nitems <= old(nitems) + 1
      ensures size == if 20 * old(nitems) <= 17 * old(size) then old(size)
                      else if old(size) <= 0x10_0000 then 2 * old(size) else old(size) + 0x10_0000
      ensures key == 0 ==> Model(View()) == old(Model(View()))
      ensures key != 0 ==> Model(View()) == old(Model(View()))[
        key := if key in old(Model(View())) then merge(old(Model(View()))[key], val) else val]
      ensures key != 0 ==> (updated <==> key in old(Model(View())))
      ensures key != 0 ==> oldval == if key in old(Model(View())) then old(Model(View()))[key] else 0
      ensures PutStep(Cfg(), old(View()), Op.Put(key, val, 0, seed), Reply(status, updated, oldval), View())
      ensures Model(View()) == MapApply(Cfg(), old(Model(View())), Op.Put(key, val, 0, seed))
      ensures Answers(Cfg(), old(Model(View())), Op.Put(key, val, 0, seed), Reply(status, updated, oldval))
    {
      ghost var before := View();
      MarksInNumbers(nitems, minsize, size);
      status := GrowIfFull(seed);
      status, oldval, updated := InsertGrown(key, val, seed, before);
      ghost var op, r := Op.Put(key, val, 0, seed), Reply(status, updated, oldval);
      PutSizes(Cfg(), before, op, r, View());
      PutMeans(Cfg(), merge, before, key, val, seed, r, View());
    }

    /** The insertion half of put; before is the state put was called in. */
    method InsertGrown(key: nat, val: Val, seed: nat, ghost before: State)
      returns (status: int, oldval: Val, updated: bool)
      requires Shaped() && HasEmpty(bkts[..]) && Inv(Cfg(), before)
      requires GrowTo(before.nitems, |before.buckets|).Some? ==> |before.buckets| < 0x8000_0000
      requires MaybeResized(Cfg(), before, GrowTo(before.nitems, |before.buckets|), seed, View())
      modifies this`nitems, bkts
      ensures Shaped() && status == 0 && bkts == old(bkts)
      ensures PutDone(Cfg(), before, Op.Put(key, val, 0, seed), Reply(status, updated, oldval), View())
    {
      ghost var mid := View();
      status, oldval, updated := Insert(key, val);
      PutStepFrom(Cfg(), before, Op.Put(key, val, 0, seed), mid, Reply(status, updated, oldval), View());
    }

    method GrowIfFull(seed: nat) returns (status: int)
      requires Valid() && (GrowTo(nitems, size).Some? ==> size < 0x8000_0000)
      modifies this
      ensures status == 0 && Shaped() && (bkts == old(bkts) || fresh(bkts))
      ensures MaybeResized(Cfg(), old(View()), GrowTo(old(nitems), old(size)), seed, View())
      ensures HasEmpty(bkts[..])
    {
      ghost var before := View();
      LoadLeavesRoom(nitems, minsize, size);
      if GrowTo(nitems, size).Some? {
        GrowKeepsLoad(nitems, minsize, size);
      }
      GrowLoopEndsIff(nitems, size);
      status := 0;
      var newsize, resize := 0, false;
      if 20 * nitems > 17 * size {
        status, newsize, resize := CalcNewSize(nitems, minsize, size, false);
      }
      if resize {
        status := Resize(newsize, seed);
      }
      GrownHasEmpty(Cfg(), before, seed, View());
    }

    /** Remove a key and return its value, shrinking afterwards when the load is
        below the low mark. The limit on moves is never reached. */
    method Del(key: nat, seed: nat) returns (status: int, found: bool, val: Val)
      requires Valid()
      modifies this, bkts
      ensures Valid() && (bkts == old(bkts) || fresh(bkts)) && status == 0
      ensures minsize == old(minsize) && nitems <= old(nitems)
      ensures Model(View()) == old(Model(View())) - {key}
      ensures found <==> key in old(Model(View()))
      ensures val == if key in old(Model(View())) then old(Model(View()))[key] else 0
      ensures size == if found && nitems > minsize && 5 * (nitems + 1) <= 2 * old(size) then old(size) / 2
                      else old(size)
      ensures DelStep(Cfg(), old(View()), Op.Del(key, seed), Reply(status, found, val), View())
    {
      ghost var before := View();
      InvHasEmpty(Cfg(), before);
      status, found, val := Remove(key, AnEmpty(bkts[..]));
      status := FinishDel(key, seed, before, found, val);
      DelMeans(Cfg(), before, key, seed, Reply(status, found, val), View());
    }

    /** The resizing half of del; before is the state del was called in. */
    method FinishDel(key: nat, seed: nat, ghost before: State, found: bool, ghost val: Val) returns (status: int)
      requires Shaped() && Inv(Cfg(), before)
      requires RemoveStep(Cfg(), before, key, Reply(0, found, val), View())
      modifies this
      ensures Shaped() && (bkts == old(bkts) || fresh(bkts)) && status == 0
      ensures DelDone(Cfg(), before, Op.Del(key, seed), Reply(status, found, val), View())
    {
      ghost var op, mid, r := Op.Del(key, seed), View(), Reply(0, found, val);
      RemoveStepSound(Cfg(), before, op, r, mid);
      status := 0;
      if found {
        status := ShrinkIfSparse(seed, before, r);
      }
      DelStepFrom(Cfg(), before, op, mid, r, View());
    }

    method ShrinkIfSparse(seed: nat, ghost before: State, ghost r: Reply) returns (status: int)
      requires Shaped() && Inv(Cfg(), before) && Sound(Cfg(), View())
      requires |before.buckets| == size && before.minsize == minsize
      requires r.found && before.nitems > 0 && nitems == before.nitems - 1
      modifies this
      ensures status == 0 && Shaped() && (bkts == old(bkts) || fresh(bkts))
      ensures MaybeResized(Cfg(), old(View()), ShrinkTarget(old(View()), r), seed, View())
    {
      LoadLeavesRoom(before.nitems, minsize, size);
      if ShrinkTo(nitems, minsize, size).Some? {
        ShrinkKeepsLoad(before.nitems, minsize, size);
      }
      status := 0;
      if 5 * nitems < 2 * size {
        var newsize, resize;
        status, newsize, resize := CalcNewSize(nitems, minsize, size, true);
        if resize {
          status := Resize(newsize, seed);
        }
      }
    }

    /** del without the shrinking. */
    method Remove(key: nat, ghost e: nat) returns (status: int, found: bool, val: Val)
      requires Shaped() && Sound(Cfg(), View()) && HasEmpty(bkts[..]) && e == AnEmpty(bkts[..])
      modifies this`nitems, bkts
      ensures bkts == old(bkts) && Shaped()
      ensures status == 0 && RemoveStep(Cfg(), old(View()), key, Reply(0, found, val), View())
    {
      status, val := 0, 0;
      var probeLoc: nat;
      probeLoc, found := ProbeForDel(key, e);
      if found {
        ghost var t := bkts[..];
        CountPositive(Cfg(), View(), probeLoc);
        val := bkts[probeLoc].val;
        bkts[probeLoc] := EMPTY;
        nitems := nitems - 1;
        assert bkts[..] == t[probeLoc := EMPTY];
        status := SwapBack(probeLoc, e);
      }
    }

    method ProbeForDel(key: nat, ghost e: nat) returns (probeLoc: nat, found: bool)
      requires Shaped() && RobinHood(bkts[..], Geo(Cfg(), View())) && e < size && bkts[e].key == 0
      ensures found ==> probeLoc < size && bkts[probeLoc].key == key != 0
      ensures key == 0 ==> !found
      ensures key != 0 ==>
        Probe(bkts[..], key, Geo(Cfg(), View()).Home(key), 0, e) == if found then Found(probeLoc) else Absent
    {
      found := false;
      var numProbes: nat := 0;
      probeLoc := HomeOf(key);
      ghost var home: nat := probeLoc;
      while true
        invariant probeLoc < size && !found && numProbes == Dist(home, probeLoc, size) <= Dist(home, e, size)
        invariant Probe(bkts[..], key, probeLoc, numProbes, e) == Probe(bkts[..], key, home, 0, e)
        decreases Dist(probeLoc, e, size)
      {
        assert Placed(bkts[..], Geo(Cfg(), View()), probeLoc);
        if bkts[probeLoc].key == 0 {
          break;
        }
        if numProbes > bkts[probeLoc].psl {
          break;
        }
        if bkts[probeLoc].key == key {
          found := true;
          break;
        }
        AdvanceDist(home, probeLoc, size);
        AdvanceDist(home, e, size);
        DistNext(home, probeLoc, size);
        probeLoc := probeLoc + 1;
        if probeLoc == size {
          probeLoc := 0;
        }
        numProbes := numProbes + 1;
      }
    }

    /** Swap the zeroed bucket forward past each displaced follower: the same
        final table as copying and clearing. */
    method SwapBack(start: nat, ghost e: nat) returns (status: int)
      requires Shaped() && start < size && e < size && start != e
      requires bkts[start] == EMPTY && bkts[e].key == 0
      modifies bkts
      ensures status == 0 && bkts[..] == Shift(old(bkts[..]), start, e)
    {
      status := 0;
      var probeLoc: nat, numMoves: nat := start, 0;
      while true
        invariant probeLoc < size && probeLoc != e && bkts[probeLoc] == EMPTY && bkts[e].key == 0
        invariant numMoves + Dist(probeLoc, e, size) == Dist(start, e, size)
        invariant status == 0 && Shift(bkts[..], probeLoc, e) == Shift(old(bkts[..]), start, e)
        decreases Dist(probeLoc, e, size)
      {
        ghost var t := bkts[..];
        if numMoves == size {
          status := -1;
          break;
        }
        var nextProbeLoc: nat := probeLoc + 1;
        if nextProbeLoc == size {
          nextProbeLoc := 0;
        }
        if bkts[nextProbeLoc].key == 0 || bkts[nextProbeLoc].psl == 0 {
          break;
        }
        bkts[nextProbeLoc] := bkts[nextProbeLoc].(psl := bkts[nextProbeLoc].psl - 1);
        var tmp := bkts[probeLoc];
        bkts[probeLoc] := bkts[nextProbeLoc];
        bkts[nextProbeLoc] := tmp;
        assert bkts[..] == Pulled(t, probeLoc);
        probeLoc := probeLoc + 1;
        if probeLoc == size {
          probeLoc := 0;
        }
        numMoves := numMoves + 1;
      }
    }
  }
}
