/** First fit: which page the allocator's scan settles on, and when it misses one. */
module BootmemFirstFit {
  import opened Words
  import opened Align
  import opened BootmemModel

  /** `r` is the lowest aligned page from `from` on where `area` clear pages start, if there is one. */
  ghost predicate IsFirstFit(bits: seq<bool>, eidx: nat, from: nat, incr: nat, area: nat, r: Option<nat>)
    requires eidx <= |bits| && incr >= 1
  {
    match r
    case Some(p) => from <= p && p % incr == 0 && Fits(bits, eidx, p, area)
                    && forall q :: from <= q < p && q % incr == 0 ==> !Fits(bits, eidx, q, area)
    case None => forall q :: from <= q && q % incr == 0 ==> !Fits(bits, eidx, q, area)
  }

  lemma NothingBetween(i: nat, q: nat, incr: nat)
    requires incr >= 1 && i % incr == 0 && q % incr == 0 && i < q
    ensures q >= i + incr
  {
    MultiplesApart(q, i, incr);
  }

  lemma {:induction false} ScanIsFirstFit(bits: seq<bool>, eidx: nat, i: nat, incr: nat, area: nat)
    requires eidx <= |bits| && incr >= 1 && area >= 1 && i % incr == 0
    requires incr == 1 || area == 1
    ensures IsFirstFit(bits, eidx, i, incr, area, Scan(bits, eidx, i, incr, area))
    decreases if i < eidx then eidx - i else 0
  {
    if i < eidx {
      if bits[i] {
        ModAddMultiple(i, incr);
        ScanIsFirstFit(bits, eidx, i + incr, incr, area);
        forall q | i <= q < i + incr && q % incr == 0 ensures !Fits(bits, eidx, q, area) {
          if q > i {
            NothingBetween(i, q, incr);
          }
        }
      } else {
        var j := RunEnd(bits, eidx, i, area);
        if j != i + area {
          AlignUpLeast(j, incr);
          ModAddMultiple(AlignUp(j, incr), incr);
          ScanIsFirstFit(bits, eidx, AlignUp(j, incr) + incr, incr, area);
          assert incr == 1;
          forall q | i <= q <= j ensures !Fits(bits, eidx, q, area) {
            assert q <= j < q + area;
          }
        }
      }
    }
  }

  /** Page 0 is clear, then nothing up to page `incr`, where `area` clear pages end the node. */
  function Missed(incr: nat, area: nat): seq<bool> {
    seq(incr + area, p => 0 < p < incr)
  }

  lemma MissedIsMissed(incr: nat, area: nat)
    requires incr >= 2 && area >= 2
    ensures Scan(Missed(incr, area), incr + area, 0, incr, area) == None
    ensures Fits(Missed(incr, area), incr + area, incr, area) && incr % incr == 0
  {
    var bits, eidx := Missed(incr, area), incr + area;
    assert RunEnd(bits, eidx, 1, area - 1) == 1;
    assert RunEnd(bits, eidx, 0, area) == 1;
    ModAddMultiple(0, incr);
    AlignUpUnique(1, incr, incr);
    ModAddMultiple(incr, incr);
    ScanFits(bits, eidx, incr + incr, incr, area);
  }

  /**
   * The scan is a first fit on every bitmap exactly when it steps by single pages or looks
   * for a single page.  With a larger step and area, resuming one step past the aligned end
   * of a failed run steps over a candidate.
   */
  lemma FirstFitIff(incr: nat, area: nat)
    requires incr >= 1 && area >= 1
    ensures (forall bits: seq<bool>, eidx: nat, from: nat | eidx <= |bits| && from % incr == 0 ::
               IsFirstFit(bits, eidx, from, incr, area, Scan(bits, eidx, from, incr, area)))
            <==> incr == 1 || area == 1
  {
    if incr == 1 || area == 1 {
      forall bits: seq<bool>, eidx: nat, from: nat | eidx <= |bits| && from % incr == 0
        ensures IsFirstFit(bits, eidx, from, incr, area, Scan(bits, eidx, from, incr, area))
      {
        ScanIsFirstFit(bits, eidx, from, incr, area);
      }
    } else {
      MissedIsMissed(incr, area);
      var bits, eidx := Missed(incr, area), incr + area;
      assert eidx <= |bits| && 0 % incr == 0;
      assert !IsFirstFit(bits, eidx, 0, incr, area, Scan(bits, eidx, 0, incr, area));
    }
  }

  /**
   * Alignment up to a page, or a request of a single page: the lowest run at or above the
   * preferred page is taken, else the lowest of all, and none is reported only if there is none.
   */
  lemma PlaceIsFirstFit(n: Node, size: u32, align: u32, goal: u32)
    requires n.lowPfn <= |n.bits| && IsPow2(align) && 1 <= size <= MAX_REQUEST
    requires align <= PAGE_SIZE || size <= PAGE_SIZE
    ensures var place, area, incr := Place(n, Pages(size), align, goal), Pages(size), Incr(align);
            var preferred := Preferred(n, align, goal);
            && IsFirstFit(n.bits, n.lowPfn,
                 if exists q :: preferred <= q && q % incr == 0 && Fits(n.bits, n.lowPfn, q, area) then preferred else 0,
                 incr, area, place)
            && (place.None? <==> forall q :: q >= 0 && q % incr == 0 ==> !Fits(n.bits, n.lowPfn, q, area))
  {
    PagesCoverIff(size);
    PreferredAligned(n, align, goal);
    ScanIsFirstFit(n.bits, n.lowPfn, Preferred(n, align, goal), Incr(align), Pages(size));
    ScanIsFirstFit(n.bits, n.lowPfn, 0, Incr(align), Pages(size));
  }

  /** The goal, or where the last search succeeded if that is higher. */
  function Wanted(n: Node, goal: u32): nat {
    if n.lastSuccess >= goal then n.lastSuccess else goal
  }

  /**
   * With a goal in the node, the preferred page is less than an alignment above the wanted
   * address and less than a page below it.  It is at or above it exactly when the address is
   * less than one alignment below a page boundary: the address is rounded up to the alignment
   * and then down to a page.  Without such a goal the scan prefers page 0.
   */
  lemma StartRespectsGoalIff(n: Node, align: u32, goal: u32)
    requires IsPow2(align)
    ensures var want, start := Wanted(n, goal), Preferred(n, align, goal) * PAGE_SIZE;
            if 0 < goal < n.lowPfn * PAGE_SIZE then
              && want - PAGE_SIZE < start < want + align
              && (start >= want <==> (PAGE_SIZE - want % PAGE_SIZE) % PAGE_SIZE < align)
            else start == 0
  {
    if 0 < goal < n.lowPfn * PAGE_SIZE {
      var want := Wanted(n, goal);
      var up := AlignUp(want, align);
      AlignUpLeast(want, align);
      RoundedUpReaches(want, up, align, NextBoundary(want));
      RoundedAcross(want, up, NextBoundary(want));
    } else {
      AlignUpUnique(0, align, 0);
    }
  }

  /** The first page boundary at or above the goal. */
  function NextBoundary(goal: nat): (b: nat)
    ensures b % PAGE_SIZE == 0 && goal <= b < goal + PAGE_SIZE
  {
    goal + (PAGE_SIZE - goal % PAGE_SIZE) % PAGE_SIZE
  }

  lemma RoundedUpReaches(goal: nat, up: nat, align: u32, boundary: nat)
    requires IsPow2(align) && up % align == 0 && goal <= up < goal + align
    requires boundary % PAGE_SIZE == 0 && goal <= boundary < goal + PAGE_SIZE
    ensures boundary <= up <==> boundary < goal + align
  {
    if align <= PAGE_SIZE {
      Pow2Divides(align, PAGE_SIZE);
      ReachesBoundary(goal, up, align, boundary);
    } else {
      Pow2Divides(PAGE_SIZE, align);
      PageOfMultiple(up, align);
      MultiplesApart(boundary, up, PAGE_SIZE);
    }
  }

  /** The next multiple of an alignment that divides a page reaches a page boundary that is near enough. */
  lemma ReachesBoundary(goal: nat, up: nat, align: nat, boundary: nat)
    requires align > 0 && PAGE_SIZE % align == 0 && up % align == 0 && goal <= up < goal + align
    requires boundary % PAGE_SIZE == 0 && goal <= boundary
    ensures boundary <= up <==> boundary < goal + align
  {
    BoundaryAligned(boundary, align);
    MultiplesApart(boundary, up, align);
  }

  /** Rounding down to a page stays at or above the goal exactly when a page boundary was reached. */
  lemma RoundedAcross(goal: nat, up: nat, boundary: nat)
    requires goal <= up && goal <= boundary < goal + PAGE_SIZE && boundary % PAGE_SIZE == 0
    ensures up / PAGE_SIZE * PAGE_SIZE >= goal <==> boundary <= up
  {
  }

  lemma BoundaryAligned(x: nat, align: nat)
    requires align > 0 && x % PAGE_SIZE == 0 && PAGE_SIZE % align == 0
    ensures x % align == 0
  {
    var p, k := x / PAGE_SIZE, PAGE_SIZE / align;
    assert x == (p * k) * align by { assert PAGE_SIZE == k * align; }
    MulMod(p * k, align);
  }

  lemma PageOfMultiple(x: nat, align: nat)
    requires align > 0 && x % align == 0 && align % PAGE_SIZE == 0
    ensures x % PAGE_SIZE == 0
  {
    var q, k := x / align, align / PAGE_SIZE;
    assert x == q * align;
    assert x == (q * k) * PAGE_SIZE by { assert align == k * PAGE_SIZE; }
  }
}
