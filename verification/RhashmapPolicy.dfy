// The resize policy of the byte-string map, whose marks are 870/1024 and
// 409/1024 of the size, computed in 32-bit arithmetic.
module RhashmapPolicy {
  import opened Words
  import L = LoadPolicy

  const HASH_INIT_SIZE: uint32 := 16

  /** APPROX_85_PERCENT of a 32-bit size. */
  function Approx85(size: uint32): nat {
    U32(870 * size) / 1024
  }

  /** APPROX_40_PERCENT of a 32-bit size. */
  function Approx40(size: uint32): nat {
    U32(409 * size) / 1024
  }

  /** The size put resizes to before inserting, if it does. */
  function GrowTo(nitems: nat, size: uint32): Option<nat> {
    if nitems > Approx85(size) then Some(L.Grown(size)) else None
  }

  /** The size del resizes to after removing, if it does. */
  function ShrinkTo(nitems: nat, minsize: nat, size: uint32): Option<nat> {
    if nitems > minsize && nitems < Approx40(size) then Some(Max(size / 2, minsize)) else None
  }

  /** What holds of the load between calls; it leaves a free bucket. */
  ghost predicate LoadOk(nitems: nat, minsize: nat, size: nat) {
    HASH_INIT_SIZE <= minsize <= size && nitems <= 870 * size / 1024 + 1 < size
  }

  /** The put threshold is the documented share of the size exactly while the
      product fits 32 bits. */
  lemma ThresholdIsRightIff(size: uint32)
    ensures Approx85(size) == 870 * size / 1024 <==> size <= 4936744
    ensures Approx85(size) <= 870 * size / 1024
  {
    var x := 870 * size;
    if size > 4936744 {
      assert x >= 0x1_0000_0000;
      assert U32(x) <= x - 0x1_0000_0000;
    }
  }

  /** The del threshold is the documented share exactly while its product fits. */
  lemma LowThresholdIsRightIff(size: uint32)
    ensures Approx40(size) == 409 * size / 1024 <==> size <= 10501142
    ensures Approx40(size) <= 409 * size / 1024
  {
    var x := 409 * size;
    if size > 10501142 {
      assert x >= 0x1_0000_0000;
      assert U32(x) <= x - 0x1_0000_0000;
    }
  }

  /** While neither product wraps, put grows a table exactly above 870/1024 of its
      size, to twice the size or by 2^20 buckets, and del halves one exactly below
      409/1024 of it, or stops at the minimum. */
  lemma PolicyInNumbers(nitems: nat, minsize: nat, size: uint32)
    requires size <= 4936744
    ensures GrowTo(nitems, size).Some? <==> 1024 * nitems > 870 * size
    ensures GrowTo(nitems, size).Some? ==>
      GrowTo(nitems, size).value == if size <= 0x10_0000 then 2 * size else size + 0x10_0000
    ensures ShrinkTo(nitems, minsize, size).Some? <==> nitems > minsize && 1024 * (nitems + 1) <= 409 * size
    ensures ShrinkTo(nitems, minsize, size).Some? ==>
      ShrinkTo(nitems, minsize, size).value == if size / 2 >= minsize then size / 2 else minsize
  {
    ThresholdIsRightIff(size);
    LowThresholdIsRightIff(size);
    L.GrownIs(size);
  }

  /** The fill does not drop below 409/1024 either, except at the minimum size, for
      tables small enough that neither product wraps. */
  lemma PutKeepsFill(nitems: nat, minsize: nat, size: uint32)
    requires size <= 4936744 && 409 * size < 1024 * ((if nitems > minsize then nitems else minsize + 1) + 1)
    ensures var newsize := (match GrowTo(nitems, size) case None => size as nat case Some(n) => n);
      409 * newsize < 1024 * ((if nitems + 1 > minsize then nitems + 1 else minsize + 1) + 1)
  {
    PolicyInNumbers(nitems, minsize, size);
  }

  lemma DelKeepsFill(nitems: nat, minsize: nat, size: uint32)
    requires 0 < nitems && size <= 4936744 && minsize <= size
    requires 409 * size < 1024 * ((if nitems > minsize then nitems else minsize + 1) + 1)
    ensures var newsize := (match ShrinkTo(nitems - 1, minsize, size) case None => size as nat case Some(n) => n);
      409 * newsize < 1024 * ((if nitems - 1 > minsize then nitems - 1 else minsize + 1) + 1)
  {
    PolicyInNumbers(nitems - 1, minsize, size);
  }

  /** Wrapped or not, put leaves room for the record it adds, and the size it asks
      for exceeds the number of items, as resize asserts. */
  lemma PutKeepsLoad(nitems: nat, minsize: nat, size: uint32)
    requires LoadOk(nitems, minsize, size) && (GrowTo(nitems, size).Some? ==> size < 0x8000_0000)
    ensures var newsize := (match GrowTo(nitems, size) case None => size as nat case Some(n) => n);
      nitems < newsize && LoadOk(nitems + 1, minsize, newsize)
  {
    ThresholdIsRightIff(size);
    if GrowTo(nitems, size).Some? {
      L.GrownIs(size);
    }
  }

  /** Likewise for del; the size asked for exceeds the number of items left. */
  lemma DelKeepsLoad(nitems: nat, minsize: nat, size: uint32)
    requires 0 < nitems && LoadOk(nitems, minsize, size)
    ensures match ShrinkTo(nitems - 1, minsize, size)
      case None => LoadOk(nitems - 1, minsize, size)
      case Some(newsize) => newsize == size / 2 > minsize && LoadOk(nitems - 1, minsize, newsize)
  {
    assert U32(409 * size) <= 409 * size;
  }

  /** At no size is a count of nitems below the put threshold. */
  ghost predicate AlwaysGrows(nitems: nat) {
    forall size: uint32 :: GrowTo(nitems, size).Some?
  }

  /** The wrapped threshold is at most (2^32 - 1)/1024, whatever the size: from
      4194304 records on, every put grows the table, and below that number some
      size is large enough. */
  lemma AlwaysGrowsIff(nitems: nat)
    ensures AlwaysGrows(nitems) <==> nitems >= 0x40_0000
  {
    if nitems < 0x40_0000 {
      AmpleSize();
      assert GrowTo(nitems, AMPLE_SIZE).None?;
    }
  }

  const AMPLE_SIZE: uint32 := 315951616

  lemma AmpleSize()
    ensures Approx85(AMPLE_SIZE) == 0x3f_ffff
  {
    assert 870 * AMPLE_SIZE == 274877905920;
  }

  /** Count and size after k puts of new keys. */
  function AfterPuts(nitems: nat, size: uint32, k: nat): (nat, uint32) {
    if k == 0 then (nitems, size)
    else
      var (n, s) := AfterPuts(nitems, size, k - 1);
      (n + 1, if GrowTo(n, s).Some? then L.Grown(s) else s)
  }

  lemma GrowsByStep(nitems: nat, size: uint32)
    requires nitems >= 0x40_0000 && L.MAX_GROWTH_STEP <= size < 0x8000_0000
    ensures GrowTo(nitems, size) == Some(size + 0x10_0000) && L.Grown(size) == size + 0x10_0000
  {
    L.GrownIs(size);
  }

  /** So the size runs away: each put of a new key adds 2^20 buckets, and the fill
      drops instead of staying near 85%. */
  lemma {:induction false} SizeRunsAway(nitems: nat, size: uint32, k: nat)
    requires nitems >= 0x40_0000 && L.MAX_GROWTH_STEP <= size && size + k * 0x10_0000 < 0x8000_0000
    ensures AfterPuts(nitems, size, k).0 == nitems + k
    ensures AfterPuts(nitems, size, k).1 == size + k * 0x10_0000
  {
    if k > 0 {
      SizeRunsAway(nitems, size, k - 1);
      var before := AfterPuts(nitems, size, k - 1);
      GrowsByStep(before.0, before.1);
    }
  }
}
