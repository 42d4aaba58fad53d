/** What reserving, freeing and allocating do to the bitmap, in terms of bytes and pages. */
module BootmemUpdates {
  import opened Words
  import opened Align
  import opened BootmemModel
  import opened BootmemFirstFit

  /**
   * Reserving rounds outwards: inside the node exactly the touched pages become reserved,
   * and a range that leaves the node changes nothing.
   */
  ghost predicate ReservesTouched(n: Node, addr: u32, size: u32) {
    var m := Reserve(n, addr, size);
    && m == n.(bits := m.bits) && |m.bits| == |n.bits|
    && forall p :: 0 <= p < |n.bits| ==>
         m.bits[p] == (n.bits[p] || (size > 0 && addr + size <= n.lowPfn * PAGE_SIZE
                                     && Touches(Range(addr, size), p)))
  }

  /**
   * That holds exactly when the rounded end does not wrap past the range's first page, or the
   * page that a wrapped end reserves is outside the node or reserved already.
   */
  lemma ReserveExactIff(n: Node, addr: u32, size: u32)
    requires NodeOk(n)
    ensures ReservesTouched(n, addr, size)
            <==> addr % PAGE_SIZE + size <= TWO_32 || addr / PAGE_SIZE >= n.lowPfn || n.bits[addr / PAGE_SIZE]
    ensures !ReservesTouched(n, addr, size) ==>
              Reserve(n, addr, size) == n.(bits := n.bits[addr / PAGE_SIZE := true])
  {
    var page := addr / PAGE_SIZE;
    if addr % PAGE_SIZE + size > TWO_32 && page < n.lowPfn {
      assert U32(addr + size + PAGE_SIZE - 1) / PAGE_SIZE == page + 1;
      assert Reserve(n, addr, size).bits == n.bits[page := true];
    }
  }

  /** The page lies wholly in the range, and neither it nor an earlier such page is free. */
  ghost predicate Freeable(bits: seq<bool>, r: Range, p: nat)
    requires p < |bits|
  {
    Covers(r, p) && forall q :: 0 <= q <= p && Covers(r, q) ==> bits[q]
  }

  /**
   * Freeing rounds inwards and stops early: a page becomes free exactly when it lies wholly
   * in the range and neither it nor an earlier page of the range was free already.  A range
   * that ends a page or more beyond the node changes nothing.
   */
  ghost predicate FreesCovered(n: Node, addr: u32, size: u32)
    requires NodeOk(n)
  {
    var m, r := Free(n, addr, size), Range(addr, size);
    if addr + size >= (n.lowPfn + 1) * PAGE_SIZE then m == n
    else
      && m == n.(bits := m.bits, lastSuccess := if addr < n.lastSuccess then addr else n.lastSuccess)
      && |m.bits| == |n.bits|
      && forall p :: 0 <= p < |n.bits| ==> (!m.bits[p] <==> (!n.bits[p] || Freeable(n.bits, r, p)))
  }

  /**
   * That holds exactly when the end of the range does not wrap, or wraps to beyond the node,
   * or the range starts behind the last success and, if its start wraps too, frees no page.
   */
  lemma FreeExactIff(n: Node, addr: u32, size: u32)
    requires NodeOk(n)
    ensures FreesCovered(n, addr, size)
            <==> || addr + size < TWO_32 || U32(addr + size) / PAGE_SIZE > n.lowPfn
                 || (addr >= n.lastSuccess
                     && (addr + PAGE_SIZE - 1 < TWO_32 || U32(addr + size) < PAGE_SIZE || !n.bits[0]))
  {
    if addr + size < TWO_32 {
      StraightFree(n, addr, size);
    } else {
      WrappedFree(n, addr, size);
    }
  }

  lemma StraightFree(n: Node, addr: u32, size: u32)
    requires NodeOk(n) && addr + size < TWO_32
    ensures FreesCovered(n, addr, size)
  {
    if addr + size < (n.lowPfn + 1) * PAGE_SIZE {
      FreedPages(n, addr, size);
      forall p | 0 <= p < |n.bits| ensures Frees(n, addr, size, p) <==> Freeable(n.bits, Range(addr, size), p) {
        if p < n.lowPfn {
          FreesIff(n, addr, size, p);
        }
      }
    }
  }

  lemma WrappedFree(n: Node, addr: u32, size: u32)
    requires NodeOk(n) && addr + size >= TWO_32
    ensures var eidx := U32(addr + size) / PAGE_SIZE;
            Free(n, addr, size) == n
            <==> eidx > n.lowPfn
                 || (addr >= n.lastSuccess && (addr + PAGE_SIZE - 1 < TWO_32 || eidx == 0 || !n.bits[0]))
  {
    var m, eidx, sidx := Free(n, addr, size), U32(addr + size) / PAGE_SIZE, U32(addr + PAGE_SIZE - 1) / PAGE_SIZE;
    if eidx <= n.lowPfn {
      if addr + PAGE_SIZE - 1 < TWO_32 {
        assert sidx >= eidx;
        assert m.bits == n.bits;
      } else if eidx > 0 {
        assert sidx == 0;
        assert n.bits[0] ==> !m.bits[0];
        assert !n.bits[0] ==> m.bits == n.bits;
      } else {
        assert m.bits == n.bits;
      }
    }
  }

  /** Freeing the range makes page `p` free, whatever wraps. */
  ghost predicate Frees(n: Node, addr: u32, size: u32, p: nat)
    requires n.lowPfn <= |n.bits|
  {
    var sidx, eidx := U32(addr + PAGE_SIZE - 1) / PAGE_SIZE, U32(addr + size) / PAGE_SIZE;
    eidx <= n.lowPfn && sidx <= p < eidx && forall q :: sidx <= q <= p ==> n.bits[q]
  }

  lemma FreedPages(n: Node, addr: u32, size: u32)
    requires NodeOk(n)
    ensures var m := Free(n, addr, size);
            && NodeOk(m) && m == n.(bits := m.bits, lastSuccess := m.lastSuccess) && |m.bits| == |n.bits|
            && forall p :: 0 <= p < |n.bits| ==> (m.bits[p] <==> n.bits[p] && !Frees(n, addr, size, p))
  {
  }

  /** The last success moves down to a freed range that starts below it, unless the range is refused. */
  lemma FreeSuccess(n: Node, addr: u32, size: u32)
    requires NodeOk(n)
    ensures Free(n, addr, size).lastSuccess
            == if addr < n.lastSuccess && U32(addr + size) < (n.lowPfn + 1) * PAGE_SIZE then addr else n.lastSuccess
  {
  }

  /** Unless its end wraps, a range frees the pages in it that may be freed. */
  lemma FreesIff(n: Node, addr: u32, size: u32, p: nat)
    requires NodeOk(n) && addr + size < TWO_32 && p < n.lowPfn
    ensures Frees(n, addr, size, p)
            <==> addr + size < (n.lowPfn + 1) * PAGE_SIZE && Freeable(n.bits, Range(addr, size), p)
  {
    if addr + size < (n.lowPfn + 1) * PAGE_SIZE {
      assert U32(addr + PAGE_SIZE - 1) == addr + PAGE_SIZE - 1;
    } else {
      assert (addr + size) / PAGE_SIZE > n.lowPfn;
    }
  }

  /** Freeing a range and reserving it again restores every map in which the pages it touches are reserved. */
  lemma FreeThenReserve(n: Node, addr: u32, size: u32)
    requires NodeOk(n) && size > 0 && addr + size <= n.lowPfn * PAGE_SIZE
    requires forall p :: 0 <= p < n.lowPfn && Touches(Range(addr, size), p) ==> n.bits[p]
    ensures Reserve(Free(n, addr, size), addr, size).bits == n.bits
  {
    FreeExactIff(n, addr, size);
    var m := Free(n, addr, size);
    ReserveExactIff(m, addr, size);
    var back := Reserve(m, addr, size);
    forall p | 0 <= p < |n.bits| ensures back.bits[p] == n.bits[p] {
      var r := Range(addr, size);
      assert Covers(r, p) ==> Touches(r, p);
      assert Touches(r, p) ==> p < n.lowPfn;
    }
  }

  /** If the last allocation ended inside a page, that page is reserved. */
  ghost predicate TailReserved(n: Node) {
    n.lastOffset != 0 ==> n.lastPos < n.lowPfn && n.lowPfn <= |n.bits| && n.bits[n.lastPos]
  }

  /** Bytes of the last page that the last allocation left over. */
  function Tail(n: Node): Range {
    if n.lastOffset == 0 then Range(0, 0)
    else Range(n.lastPos * PAGE_SIZE + n.lastOffset, if n.lastOffset <= PAGE_SIZE then PAGE_SIZE - n.lastOffset else 0)
  }

  ghost predicate Disjoint(a: Range, b: Range) {
    a.base + a.len <= b.base || b.base + b.len <= a.base
  }

  /** What a successful allocation of `r` is, in terms of the node before and after. */
  ghost predicate Allocated(n: Node, m: Node, r: Range) {
    && r.len > 0 && NodeOk(m) && m.lowPfn == n.lowPfn && |m.bits| == |n.bits|
    && r.base + r.len <= n.lowPfn * PAGE_SIZE
    // Exactly the touched pages are reserved in addition, and of them only the page of the
    // previous allocation was reserved before; of that page only the tail is used.
    && (forall p :: 0 <= p < |n.bits| ==> m.bits[p] == (n.bits[p] || Touches(r, p)))
    && (forall p :: 0 <= p < n.lowPfn && Touches(r, p) && n.bits[p] ==>
          n.lastOffset != 0 && p == n.lastPos && r.base >= Tail(n).base)
    // The search is remembered to have succeeded at the page boundary at or behind the block's start.
    && m.lastSuccess % PAGE_SIZE == 0 && r.base <= m.lastSuccess < r.base + PAGE_SIZE
    && m.lastPos == (r.base + r.len - 1) / PAGE_SIZE
    // The next allocation may use what is left of the last touched page, and only that.
    && TailReserved(m)
    && (m.lastOffset != 0 ==> Tail(m).base == r.base + r.len)
    && (m.lastOffset == 0 ==> (r.base + r.len) % PAGE_SIZE == 0)
  }

  /** The page the last allocation ended in has been freed since. */
  predicate TailFree(n: Node) {
    n.lastOffset != 0 && n.lastPos < |n.bits| && !n.bits[n.lastPos]
  }

  /** A block found at `start` begins inside the page of the last allocation. */
  predicate Continues(n: Node, start: nat, align: u32) {
    Merges(n, start, align) && AlignUp(n.lastOffset, align) < PAGE_SIZE
  }

  /**
   * The request would be continued in a page that has been freed since: its goal makes the
   * search start right behind that page, and it fits there.
   */
  ghost predicate Stale(n: Node, size: u32, align: u32, goal: u32)
    requires n.lowPfn <= |n.bits|
  {
    && size > 0 && IsPow2(align) && align < PAGE_SIZE
    && TailFree(n) && AlignUp(n.lastOffset, align) < PAGE_SIZE
    && Preferred(n, align, goal) == n.lastPos + 1
    && Fits(n.bits, n.lowPfn, n.lastPos + 1, Pages(size))
  }

  /** That is exactly when the search ends behind the freed page and the block begins in it. */
  lemma StaleIff(n: Node, size: u32, align: u32, goal: u32)
    requires NodeOk(n) && size <= MAX_REQUEST
    ensures var place := Place(n, Pages(size), align, goal);
            Stale(n, size, align, goal)
            <==> size > 0 && IsPow2(align) && TailFree(n) && place.Some? && Continues(n, place.value, align)
  {
    if size > 0 && IsPow2(align) && align < PAGE_SIZE && TailFree(n) {
      var area, preferred := Pages(size), Preferred(n, align, goal);
      PagesCoverIff(size);
      ScanIsFirstFit(n.bits, n.lowPfn, preferred, 1, area);
      ScanIsFirstFit(n.bits, n.lowPfn, 0, 1, area);
      PlaceBehindFree(n, area, preferred, Place(n, area, align, goal));
    }
  }

  /** A first fit that ends right behind a free page started there. */
  lemma PlaceBehindFree(n: Node, area: nat, preferred: nat, place: Option<nat>)
    requires NodeOk(n) && area >= 1 && TailFree(n)
    requires IsFirstFit(n.bits, n.lowPfn, preferred, 1, area, place)
             || ((forall q :: preferred <= q ==> !Fits(n.bits, n.lowPfn, q, area))
                 && IsFirstFit(n.bits, n.lowPfn, 0, 1, area, place))
    ensures place == Some(n.lastPos + 1)
            <==> preferred == n.lastPos + 1 && Fits(n.bits, n.lowPfn, n.lastPos + 1, area)
  {
    if Fits(n.bits, n.lowPfn, n.lastPos + 1, area) {
      assert Fits(n.bits, n.lowPfn, n.lastPos, area);
    }
  }

  /** Without a goal the search starts at page 0. */
  lemma NeverStale(n: Node, size: u32, align: u32, goal: u32)
    requires NodeOk(n) && (goal == 0 || TailReserved(n))
    ensures !Stale(n, size, align, goal)
  {
    ZeroIsAligned(align);
  }

  /** A goal of 0 prefers page 0. */
  lemma ZeroIsAligned(align: u32)
    ensures AlignUp(0, align) == 0
  {
  }

  lemma AllocExact(n: Node, size: u32, align: u32, goal: u32)
    requires NodeOk(n) && IsPow2(align) && 1 <= size <= MAX_REQUEST && !Stale(n, size, align, goal)
    ensures var (r, m) := Alloc(n, size, align, goal);
            && !r.Bug?
            && (r.Null? ==> m == n)
            && (r.Block? ==> r.addr % align == 0 && Allocated(n, m, Range(r.addr, size)))
  {
    PlaceFits(n, Pages(size), align, goal);
    StaleIff(n, size, align, goal);
    var place := Place(n, Pages(size), align, goal);
    if place.Some? {
      CommitExact(n, place.value, size, align);
    }
  }

  lemma CommitExact(n: Node, start: nat, size: u32, align: u32)
    requires NodeOk(n) && IsPow2(align) && 1 <= size <= MAX_REQUEST
    requires Continues(n, start, align) ==> !TailFree(n)
    requires start < n.lowPfn && start % Incr(align) == 0 && Fits(n.bits, n.lowPfn, start, Pages(size))
    ensures var (r, m) := Commit(n, start, size, align);
            r.Block? && r.addr % align == 0 && Allocated(n, m, Range(r.addr, size))
  {
    var plan := PlanFor(n, start, size, align);
    PlanAligned(n, start, size, align);
    PlanFillsPages(n, start, size, align);
    PlanInNode(n, start, size, align);
    FilledIsAllocated(n, start, size, plan);
  }

  /** The plan ends in the pages found, and starts before them only on a page that is reserved. */
  lemma PlanInNode(n: Node, start: nat, size: u32, align: u32)
    requires NodeOk(n) && IsPow2(align) && 1 <= size <= MAX_REQUEST
    requires Continues(n, start, align) ==> !TailFree(n)
    requires start < n.lowPfn && Fits(n.bits, n.lowPfn, start, Pages(size))
    ensures var plan := PlanFor(n, start, size, align);
            && plan.lastOffset < PAGE_SIZE && plan.addr + size <= n.lowPfn * PAGE_SIZE
            && Fits(n.bits, n.lowPfn, start, plan.pages)
            && (TailReserved(n) || (plan.addr >= start * PAGE_SIZE && plan.lastPos >= start))
  {
    PlanBounds(n, start, size, align);
    if !Continues(n, start, align) {
      FreshPlan(n, start, size, align);
    }
  }

  lemma FreshPlan(n: Node, start: nat, size: u32, align: u32)
    requires NodeOk(n) && 1 <= size <= MAX_REQUEST && IsPow2(align) && !Continues(n, start, align)
    ensures var plan := PlanFor(n, start, size, align);
            plan.addr == start * PAGE_SIZE && plan.lastPos >= start
  {
    if Merges(n, start, align) {
      OffsetInPage(n.lastOffset, align);
      assert AlignUp(n.lastOffset, align) == PAGE_SIZE;
      WholePagePlan(n, start, size);
    } else {
      PagesCoverIff(size);
    }
  }

  /** A continuation at the end of the last page starts on the next. */
  lemma WholePagePlan(n: Node, start: nat, size: u32)
    requires n.lastPos + 1 == start && 1 <= size <= MAX_REQUEST
    ensures var plan := Continued(n, start, size, PAGE_SIZE);
            plan.addr == start * PAGE_SIZE && plan.lastPos >= start
  {
    PagesCoverIff(size);
  }

  /** Which pages the planned block touches, and where it ends. */
  ghost predicate Fills(n: Node, start: nat, plan: Plan, r: Range) {
    && r.base == plan.addr
    && r.base <= start * PAGE_SIZE < r.base + PAGE_SIZE
    && (forall p {:trigger Touches(r, p)} :: p >= start ==> (Touches(r, p) <==> p < start + plan.pages))
    && (forall p {:trigger Touches(r, p)} :: 0 <= p < start && Touches(r, p) ==>
          n.lastOffset != 0 && p == n.lastPos && r.base >= n.lastPos * PAGE_SIZE + n.lastOffset)
    && (plan.lastOffset != 0 ==>
          && plan.lastPos * PAGE_SIZE + plan.lastOffset == r.base + r.len
          && (start <= plan.lastPos < start + plan.pages || (n.lastOffset != 0 && plan.lastPos == n.lastPos)))
    && (plan.lastOffset == 0 ==> (r.base + r.len) % PAGE_SIZE == 0)
    && r.base + r.len <= (plan.lastPos + 1) * PAGE_SIZE < r.base + r.len + PAGE_SIZE
  }

  lemma PlanFillsPages(n: Node, start: nat, size: u32, align: u32)
    requires NodeOk(n) && IsPow2(align) && 1 <= size <= MAX_REQUEST
    ensures var plan := PlanFor(n, start, size, align); Fills(n, start, plan, Range(plan.addr, size))
  {
    if Merges(n, start, align) {
      OffsetInPage(n.lastOffset, align);
      ContinuedFills(n, start, size, AlignUp(n.lastOffset, align));
    } else {
      PagesCoverIff(size);
    }
  }

  lemma ContinuedFills(n: Node, start: nat, size: u32, offset: nat)
    requires n.lastPos + 1 == start && 0 < n.lastOffset <= offset <= PAGE_SIZE && 1 <= size <= MAX_REQUEST
    ensures var plan := Continued(n, start, size, offset); Fills(n, start, plan, Range(plan.addr, size))
  {
    var room := PAGE_SIZE - offset;
    if size >= room {
      var over := size - room;
      assert U32(over) == over;
      PagesCoverIff(over);
      OverflowFills(n, start, offset, over, Pages(over));
    }
  }

  /** A block that starts at `offset` of the last page and fills `pages` more with its last `over` bytes. */
  lemma OverflowFills(n: Node, start: nat, offset: nat, over: nat, pages: nat)
    requires n.lastPos + 1 == start && 0 < n.lastOffset <= offset <= PAGE_SIZE
    requires over <= pages * PAGE_SIZE < over + PAGE_SIZE
    ensures Fills(n, start,
                  Plan(n.lastPos * PAGE_SIZE + offset, start + pages - 1, over % PAGE_SIZE, pages),
                  Range(n.lastPos * PAGE_SIZE + offset, PAGE_SIZE - offset + over))
  {
  }

  lemma FilledIsAllocated(n: Node, start: nat, size: u32, plan: Plan)
    requires NodeOk(n) && plan.lastOffset < PAGE_SIZE && size >= 1
    requires TailReserved(n) || (plan.addr >= start * PAGE_SIZE && plan.lastPos >= start)
    requires Fits(n.bits, n.lowPfn, start, plan.pages) && start < n.lowPfn
    requires plan.addr + size <= n.lowPfn * PAGE_SIZE && Fills(n, start, plan, Range(plan.addr, size))
    ensures Allocated(n, n.(lastSuccess := start * PAGE_SIZE, lastPos := plan.lastPos, lastOffset := plan.lastOffset,
                            bits := Marked(n.bits, start, start + plan.pages, true)),
                      Range(plan.addr, size))
  {
    if plan.lastOffset != 0 {
      assert Touches(Range(plan.addr, size), plan.lastPos);
    }
  }

  lemma PlanAligned(n: Node, start: nat, size: u32, align: u32)
    requires IsPow2(align) && start % Incr(align) == 0
    ensures PlanFor(n, start, size, align).addr % align == 0
  {
    if align < PAGE_SIZE {
      Pow2Divides(align, PAGE_SIZE);
      PageMultiple(start, align);
      PageMultiple(n.lastPos, align);
      OffsetAligned(n.lastPos * PAGE_SIZE, n.lastOffset, align);
      PlanStart(n, start, size, align);
    } else {
      WholePagesAligned(start, align);
    }
  }

  lemma PlanStart(n: Node, start: nat, size: u32, align: u32)
    ensures PlanFor(n, start, size, align).addr
            == if Merges(n, start, align) then n.lastPos * PAGE_SIZE + AlignUp(n.lastOffset, align)
               else start * PAGE_SIZE
  {
  }

  lemma OffsetAligned(base: nat, offset: nat, align: nat)
    requires align > 0 && base % align == 0
    ensures (base + AlignUp(offset, align)) % align == 0
  {
    AlignUpShift(offset, align, base);
    AlignUpLeast(base + offset, align);
  }

  lemma WholePagesAligned(start: nat, align: u32)
    requires IsPow2(align) && align >= PAGE_SIZE && start % (align / PAGE_SIZE) == 0
    ensures (start * PAGE_SIZE) % align == 0
  {
    Pow2Divides(PAGE_SIZE, align);
    WholeSteps(start, align / PAGE_SIZE, align);
  }

  /** Page boundaries are aligned to every alignment that divides a page. */
  lemma PageMultiple(page: nat, align: nat)
    requires align > 0 && PAGE_SIZE % align == 0
    ensures (page * PAGE_SIZE) % align == 0
  {
    var k := PAGE_SIZE / align;
    assert page * PAGE_SIZE == (page * k) * align by { assert PAGE_SIZE == k * align; }
    MulMod(page * k, align);
  }
}
