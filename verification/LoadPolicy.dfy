// When the table is resized, and to what size.
//
// The water marks 0.85 and 0.4 are the exact fractions 17/20 and 2/5, rounded
// down as the conversion to an integer does.
module LoadPolicy {
  import opened Words

  const HASH_INIT_SIZE: uint32 := 0x1_0000

  const MAX_GROWTH_STEP: uint32 := 0x10_0000

  const UINT_MAX := 0xffff_ffff

  function High(size: nat): nat {
    17 * size / 20
  }

  function Low(size: nat): nat {
    2 * size / 5
  }

  /** MIN(size << 1, size + MAX_GROWTH_STEP) in 32-bit arithmetic. */
  function Grown(size: uint32): uint32 {
    Min(U32(2 * size), U32(size + MAX_GROWTH_STEP))
  }

  /** The size to resize to before a put, if any. */
  function GrowTo(nitems: nat, size: uint32): Option<nat> {
    if nitems > High(size) then Some(Grown(size)) else None
  }

  /** The size to resize to after a successful del, if any. */
  function ShrinkTo(nitems: nat, minsize: nat, size: nat): Option<nat> {
    if nitems > minsize && nitems < Low(size) then Some(Max(size / 2, minsize)) else None
  }

  /** The size after a call that may resize. */
  function SizeAfter(target: Option<nat>, size: nat): nat {
    if target.Some? then target.value else size
  }

  /** The marks are 85% and 40% of the size, and a table doubles until it grows by
      2^20 buckets at a time. */
  lemma MarksInNumbers(nitems: nat, minsize: nat, size: uint32)
    ensures GrowTo(nitems, size).Some? <==> 20 * nitems > 17 * size
    ensures size < 0x8000_0000 && GrowTo(nitems, size).Some? ==>
      GrowTo(nitems, size).value == if size <= 0x10_0000 then 2 * size else size + 0x10_0000
    ensures ShrinkTo(nitems, minsize, size).Some? <==> nitems > minsize && 5 * (nitems + 1) <= 2 * size
    ensures ShrinkTo(nitems, minsize, size).Some? ==>
      ShrinkTo(nitems, minsize, size).value == if size / 2 >= minsize then size / 2 else minsize
  {
  }

  /** The variables of the grow loop. Its body reads size but never changes it. */
  datatype GrowLoop = GrowLoop(newsize: nat, threshold: nat)

  function GrowBody(size: uint32, loop: GrowLoop): GrowLoop {
    GrowLoop(Grown(size), High(Grown(size)))
  }

  function AfterGrowBodies(size: uint32, k: nat): GrowLoop {
    if k == 0 then GrowLoop(0, High(size)) else GrowBody(size, AfterGrowBodies(size, k - 1))
  }

  /** The grow loop ends after some number of iterations. */
  ghost predicate GrowLoopEnds(nitems: nat, size: uint32) {
    exists k: nat :: nitems <= AfterGrowBodies(size, k).threshold
  }

  /** The grow loop ends exactly when one iteration is enough. */
  lemma GrowLoopEndsIff(nitems: nat, size: uint32)
    ensures GrowLoopEnds(nitems, size) <==> nitems <= High(size) || nitems <= High(Grown(size))
  {
    assert AfterGrowBodies(size, 0).threshold == High(size);
    assert AfterGrowBodies(size, 1).threshold == High(Grown(size));
  }

  /** For the load at which put asks to grow, the loop ends exactly when doubling
      does not wrap in 32 bits. */
  lemma GrowLoopEndsBelow2to31(nitems: nat, size: uint32)
    requires 65536 <= size && nitems == 17 * size / 20 + 1
    ensures GrowLoopEnds(nitems, size) <==> size < 0x8000_0000
    ensures size < 0x8000_0000 ==> size < Grown(size) < UINT_MAX && nitems <= High(Grown(size))
  {
    GrowLoopEndsIff(nitems, size);
  }

  method CalcNewSize(nitems: uint32, minsize: uint32, size: uint32, decreasing: bool)
    returns (status: int, newsize: nat, resize: bool)
    requires !decreasing ==> GrowLoopEnds(nitems, size)
    ensures status == 0
    ensures resize <==> (if decreasing then ShrinkTo(nitems, minsize, size) else GrowTo(nitems, size)).Some?
    ensures resize ==>
      newsize == (if decreasing then ShrinkTo(nitems, minsize, size) else GrowTo(nitems, size)).value
    ensures !resize ==> newsize == 0
    ensures !decreasing ==> (resize <==> 20 * nitems > 17 * size)
    ensures !decreasing && resize && size < 0x8000_0000 ==>
      newsize == if size <= 0x10_0000 then 2 * size else size + 0x10_0000
    ensures decreasing ==> (resize <==> nitems > minsize && 5 * (nitems + 1) <= 2 * size)
    ensures decreasing && resize ==> newsize == if size / 2 >= minsize then size / 2 else minsize
  {
    MarksInNumbers(nitems, minsize, size);
    status, resize, newsize := 0, false, 0;
    if decreasing {
      var threshold := 2 * size / 5;
      if nitems > minsize && nitems < threshold {
        resize := true;
        newsize := Max(size / 2, minsize);
      }
    } else {
      GrowLoopEndsIff(nitems, size);
      var threshold := 17 * size / 20;
      if nitems > threshold {
        resize := true;
        while nitems > threshold
          invariant threshold == High(size) || (threshold == High(Grown(size)) && newsize == Grown(size))
          decreases threshold != High(Grown(size))
        {
          var growLimit := U32(size + MAX_GROWTH_STEP);
          newsize := Min(U32(2 * size), growLimit);
          threshold := 17 * newsize / 20;
        }
      }
    }
    if newsize > UINT_MAX {
      status := -1;
    }
  }

  /** minsize as create stores it: the maximum, kept in 32 bits. */
  function StoredMinsize(request: nat): uint32 {
    U32(Max(request, HASH_INIT_SIZE))
  }

  /** The stored minimum honours the documented one exactly for 32-bit requests; it
      is then the request, or 65536 for a smaller one. */
  lemma MinsizeIsHonouredIff(request: nat)
    ensures request < 0x1_0000_0000 ==> StoredMinsize(request) == if request < 65536 then 65536 else request
    ensures StoredMinsize(request) >= request && StoredMinsize(request) >= HASH_INIT_SIZE
       <==> request < 0x1_0000_0000
  {
  }

  /** What holds of the load between any two calls. */
  ghost predicate LoadOk(nitems: nat, minsize: nat, size: nat) {
    && HASH_INIT_SIZE <= minsize <= size < UINT_MAX
    && nitems <= High(size) + 1
    && Low(size) <= Max(nitems, minsize + 1)
  }

  /** There is always a free bucket, even after one more record. */
  lemma LoadLeavesRoom(nitems: nat, minsize: nat, size: nat)
    requires LoadOk(nitems, minsize, size)
    ensures nitems < High(size) + 2 < size
  {
  }

  /** The most items at which no put asks a table of this size, or one grown from
      it, to grow from 2^31 buckets or more. */
  function Headroom(size: nat): nat {
    Max(High(size), High(0x8000_0000))
  }

  /** Up to that count the grow loop always ends. */
  lemma GrowsBelow2to31(nitems: nat, start: nat, size: uint32)
    requires start <= size && nitems <= Headroom(start)
    ensures GrowTo(nitems, size).Some? ==> size < 0x8000_0000
    ensures Headroom(start) == if start <= 0x8000_0000 then 1825361100 else 17 * start / 20
  {
    if start <= 0x8000_0000 {
      HighIsMonotone(start, 0x8000_0000);
    } else {
      HighIsMonotone(0x8000_0000, start);
    }
    if size >= 0x8000_0000 {
      HighIsMonotone(0x8000_0000, size);
      HighIsMonotone(start, size);
    }
  }

  lemma HighIsMonotone(a: nat, b: nat)
    requires a <= b
    ensures High(a) <= High(b)
  {
  }

  lemma NewTableLoad(minsize: nat)
    requires HASH_INIT_SIZE <= minsize < UINT_MAX
    ensures LoadOk(0, minsize, minsize)
  {
  }

  /** A put that does not grow has room for one more record. */
  lemma AddKeepsLoad(nitems: nat, minsize: nat, size: uint32)
    requires LoadOk(nitems, minsize, size) && GrowTo(nitems, size).None?
    ensures LoadOk(nitems + 1, minsize, size)
  {
  }

  ghost function Spacing(size: nat): nat {
    Min(size / 50, 0x8_0000)
  }

  /** Below 2^31 nothing wraps. */
  lemma GrownIs(size: uint32)
    requires size < 0x8000_0000
    ensures Grown(size) == if size < MAX_GROWTH_STEP then 2 * size else size + MAX_GROWTH_STEP
  {
  }

  /** One more than the old high mark fits under the new one. */
  lemma GrownMarks(size: uint32)
    requires HASH_INIT_SIZE <= size < 0x8000_0000
    ensures High(size) + 2 + Spacing(Grown(size)) <= High(Grown(size))
    ensures Low(Grown(size)) + Spacing(Grown(size)) <= High(size) + 1
  {
    GrownIs(size);
    if size < MAX_GROWTH_STEP {
      assert Spacing(2 * size) <= 2 * size / 50;
    } else {
      assert Spacing(size + MAX_GROWTH_STEP) <= 0x8_0000;
    }
  }

  /** Growing keeps the bounds, passes every check of resize, and leaves room for
      the put that asked for it. */
  lemma GrowKeepsLoad(nitems: nat, minsize: nat, size: uint32)
    requires LoadOk(nitems, minsize, size) && GrowTo(nitems, size).Some? && size < 0x8000_0000
    ensures var newsize := Grown(size);
      && size < newsize < UINT_MAX && nitems <= High(newsize)
      && LoadOk(nitems, minsize, newsize) && LoadOk(nitems + 1, minsize, newsize)
  {
    GrownIs(size);
    GrownMarks(size);
  }

  /** A del that does not shrink keeps the bounds. */
  lemma RemoveKeepsLoad(nitems: nat, minsize: nat, size: nat)
    requires 0 < nitems && LoadOk(nitems, minsize, size) && ShrinkTo(nitems - 1, minsize, size).None?
    ensures LoadOk(nitems - 1, minsize, size)
  {
  }

  /** Shrinking always halves: the size asked for exceeds minsize, so the limit
      in the code is never the one that applies. */
  lemma ShrinkKeepsLoad(nitems: nat, minsize: nat, size: nat)
    requires 0 < nitems && LoadOk(nitems, minsize, size) && ShrinkTo(nitems - 1, minsize, size).Some?
    ensures var newsize := ShrinkTo(nitems - 1, minsize, size).value;
      && newsize == size / 2 > minsize && nitems - 1 <= High(newsize)
      && LoadOk(nitems - 1, minsize, newsize)
  {
  }

  /** The distance, in items, from the load right after a resize to both marks. */
  ghost predicate Spaced(nitems: nat, size: nat, gap: nat) {
    nitems + gap <= High(size) && Low(size) + gap <= nitems
  }

  lemma SpacedAfterGrow(nitems: nat, minsize: nat, size: uint32)
    requires LoadOk(nitems, minsize, size) && GrowTo(nitems, size).Some? && size < 0x8000_0000
    ensures Spaced(nitems, Grown(size), Spacing(Grown(size)))
  {
    GrownMarks(size);
  }

  lemma SpacedAfterShrink(nitems: nat, minsize: nat, size: nat)
    requires 0 < nitems && LoadOk(nitems, minsize, size) && ShrinkTo(nitems - 1, minsize, size).Some?
    ensures Spaced(nitems - 1, size / 2, Spacing(size / 2))
  {
  }
}
