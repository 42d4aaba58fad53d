/**
 * While the free pages form one region, the boot allocator is a bump pointer: page scan,
 * merge test and three kinds of update amount to rounding one cursor up.
 */
module BootmemBump {
  import opened Words
  import opened Align
  import opened BootmemModel
  import opened BootmemUpdates
  import opened BootmemFirstFit
  import opened BootmemRuns
  import opened BootmemPlaced

  /** The next free byte, and the page where the region ends. */
  datatype Bump = Bump(cursor: nat, end: nat)

  function PageUp(x: nat): nat { (x + PAGE_SIZE - 1) / PAGE_SIZE }

  /**
   * The simple allocator.  It asks for whole pages from the next page boundary on, although
   * the block starts before that boundary when there is room.
   */
  function BumpAlloc(b: Bump, size: u32, align: u32): (Outcome, Bump) {
    if PageUp(b.cursor) + Pages(size) > b.end then (Null, b)
    else
      var addr := AlignUp(b.cursor, align);
      (Block(addr), Bump(addr + size, b.end))
  }

  /** The node's free pages are the region from the cursor's next page boundary to the end. */
  ghost predicate Represents(n: Node, b: Bump) {
    RegionAt(n, b.cursor, PageUp(b.cursor), b.end)
  }

  ghost predicate RegionAt(n: Node, cursor: nat, first: nat, end: nat) {
    && NodeOk(n) && first <= end <= n.lowPfn
    && (forall p :: 0 <= p < n.lowPfn ==> (!n.bits[p] <==> first <= p < end))
    && (if n.lastOffset == 0 then cursor == first * PAGE_SIZE
        else n.lastPos + 1 == first && cursor == n.lastPos * PAGE_SIZE + n.lastOffset)
  }

  lemma PageUpIs(x: nat, page: nat)
    ensures x <= page * PAGE_SIZE < x + PAGE_SIZE <==> PageUp(x) == page
  {
  }

  lemma FitsInRegion(n: Node, cursor: nat, first: nat, end: nat, area: nat, q: nat)
    requires RegionAt(n, cursor, first, end) && area >= 1
    ensures Fits(n.bits, n.lowPfn, q, area) <==> first <= q && q + area <= end
  {
    if Fits(n.bits, n.lowPfn, q, area) {
      assert !n.bits[q] && !n.bits[q + area - 1];
    }
  }

  lemma ScanInRegion(n: Node, cursor: nat, first: nat, end: nat, area: nat)
    requires RegionAt(n, cursor, first, end) && area >= 1
    ensures Scan(n.bits, n.lowPfn, 0, 1, area) == if first + area <= end then Some(first) else None
  {
    ScanIsFirstFit(n.bits, n.lowPfn, 0, 1, area);
    var found := Scan(n.bits, n.lowPfn, 0, 1, area);
    FitsInRegion(n, cursor, first, end, area, first);
    assert first % 1 == 0;
    if found.Some? {
      FitsInRegion(n, cursor, first, end, area, found.value);
    }
  }

  /** Without a goal the scan starts at page 0. */
  lemma PlaceWithoutGoal(n: Node, area: nat, align: u32)
    requires n.lowPfn <= |n.bits| && 0 < align <= PAGE_SIZE
    ensures Place(n, area, align, 0) == Scan(n.bits, n.lowPfn, 0, 1, area)
  {
  }

  /** The scan settles on the first page of the region, if the region is large enough. */
  lemma PlaceInRegion(n: Node, cursor: nat, first: nat, end: nat, area: nat, align: u32)
    requires RegionAt(n, cursor, first, end) && 0 < align <= PAGE_SIZE && area >= 1
    ensures Place(n, area, align, 0) == if first + area <= end then Some(first) else None
  {
    PlaceWithoutGoal(n, area, align);
    ScanInRegion(n, cursor, first, end, area);
  }

  function BlockStart(n: Node, start: nat, align: u32): nat {
    if Merges(n, start, align) then n.lastPos * PAGE_SIZE + AlignUp(n.lastOffset, align) else start * PAGE_SIZE
  }

  /** The block starts at the cursor rounded up. */
  lemma StartsAtCursor(n: Node, cursor: nat, first: nat, end: nat, align: u32)
    requires RegionAt(n, cursor, first, end) && IsPow2(align) && align <= PAGE_SIZE
    ensures BlockStart(n, first, align) == AlignUp(cursor, align)
  {
    if n.lastOffset == 0 {
      BoundaryCursor(first, align);
    } else if align < PAGE_SIZE {
      InnerCursor(n.lastPos, n.lastOffset, align);
    } else {
      LastCursor(cursor, first);
    }
  }

  lemma LastCursor(cursor: nat, page: nat)
    requires cursor <= page * PAGE_SIZE < cursor + PAGE_SIZE
    ensures AlignUp(cursor, PAGE_SIZE) == page * PAGE_SIZE
  {
  }

  lemma BoundaryCursor(page: nat, align: u32)
    requires IsPow2(align) && align <= PAGE_SIZE
    ensures AlignUp(page * PAGE_SIZE, align) == page * PAGE_SIZE
  {
    Pow2Divides(align, PAGE_SIZE);
    PageMultiple(page, align);
    AlignUpUnique(page * PAGE_SIZE, align, page * PAGE_SIZE);
  }

  lemma InnerCursor(page: nat, offset: nat, align: u32)
    requires IsPow2(align) && align <= PAGE_SIZE
    ensures AlignUp(page * PAGE_SIZE + offset, align) == page * PAGE_SIZE + AlignUp(offset, align)
  {
    PageDivisible(page, align);
    AlignUpShift(offset, align, page * PAGE_SIZE);
  }

  lemma PageDivisible(page: nat, align: u32)
    requires IsPow2(align) && align <= PAGE_SIZE
    ensures align > 0 && page * PAGE_SIZE % align == 0
  {
    Pow2Divides(align, PAGE_SIZE);
    PageMultiple(page, align);
  }

  lemma AllocPlanned(n: Node, size: u32, align: u32)
    requires NodeOk(n) && IsPow2(align) && size >= 1
    ensures var place := Place(n, Pages(size), align, 0);
            Alloc(n, size, align, 0).0
            == if place.None? then Null else Block(BlockStart(n, place.value, align))
  {
  }

  /** Rounding up to at most a page keeps the cursor at or below its next page boundary. */
  lemma RoundedCursor(cursor: nat, page: nat, align: u32)
    requires IsPow2(align) && align <= PAGE_SIZE && cursor <= page * PAGE_SIZE
    ensures cursor <= AlignUp(cursor, align) <= page * PAGE_SIZE
  {
    AlignUpLeast(cursor, align);
    Pow2Divides(align, PAGE_SIZE);
    PageMultiple(page, align);
    MultiplesApart(AlignUp(cursor, align), page * PAGE_SIZE, align);
  }

  lemma CursorMoves(n: Node, m: Node, cursor: nat, first: nat, end: nat, r: Range, next: nat)
    requires RegionAt(n, cursor, first, end) && r.len > 0
    requires cursor <= r.base <= first * PAGE_SIZE && next <= end
    requires r.base + r.len <= next * PAGE_SIZE < r.base + r.len + PAGE_SIZE
    requires Allocated(n, m, r)
    ensures RegionAt(m, r.base + r.len, next, end)
  {
  }

  lemma RegionStep(n: Node, cursor: nat, first: nat, end: nat, size: u32, align: u32)
    requires RegionAt(n, cursor, first, end) && PageUp(cursor) == first
    requires IsPow2(align) && align <= PAGE_SIZE && 1 <= size <= MAX_REQUEST
    requires first + Pages(size) <= end
    ensures var (o, m) := Alloc(n, size, align, 0);
            && o == Block(AlignUp(cursor, align))
            && RegionAt(m, AlignUp(cursor, align) + size, PageUp(AlignUp(cursor, align) + size), end)
  {
    PlaceInRegion(n, cursor, first, end, Pages(size), align);
    AllocExact(n, size, align, 0);
    AllocPlanned(n, size, align);
    StartsAtCursor(n, cursor, first, end, align);
    PageUpIs(cursor, first);
    RoundedCursor(cursor, first, align);
    RegionAfter(n, Alloc(n, size, align, 0).1, cursor, first, end, Range(AlignUp(cursor, align), size));
  }

  lemma RegionAfter(n: Node, m: Node, cursor: nat, first: nat, end: nat, r: Range)
    requires RegionAt(n, cursor, first, end) && 1 <= r.len <= MAX_REQUEST && first + Pages(r.len) <= end
    requires cursor <= r.base <= first * PAGE_SIZE && Allocated(n, m, r)
    ensures RegionAt(m, r.base + r.len, PageUp(r.base + r.len), end)
  {
    PagesCoverIff(r.len);
    var next := PageUp(r.base + r.len);
    PageUpIs(r.base + r.len, next);
    CursorMoves(n, m, cursor, first, end, r, next);
  }

  lemma BumpStep(n: Node, b: Bump, size: u32, align: u32)
    requires Represents(n, b) && IsPow2(align) && align <= PAGE_SIZE && 1 <= size <= MAX_REQUEST
    ensures var (o, m) := Alloc(n, size, align, 0);
            var (p, c) := BumpAlloc(b, size, align);
            o == p && Represents(m, c)
  {
    var first := PageUp(b.cursor);
    if first + Pages(size) <= b.end {
      RegionStep(n, b.cursor, first, b.end, size, align);
    } else {
      PagesCoverIff(size);
      PlaceInRegion(n, b.cursor, first, b.end, Pages(size), align);
    }
  }

  /** What a sequence of requests, each a size and an alignment, is answered. */
  function AllocAll(n: Node, requests: seq<(u32, u32)>): (r: seq<Outcome>)
    requires n.lowPfn <= |n.bits|
    decreases |requests|
  {
    if requests == [] then [] else
      var (o, m) := Alloc(n, requests[0].0, requests[0].1, 0);
      [o] + AllocAll(m, requests[1..])
  }

  function BumpAll(b: Bump, requests: seq<(u32, u32)>): seq<Outcome>
    decreases |requests|
  {
    if requests == [] then [] else
      var (o, c) := BumpAlloc(b, requests[0].0, requests[0].1);
      [o] + BumpAll(c, requests[1..])
  }

  lemma {:induction false} NodeRefinement(n: Node, b: Bump, requests: seq<(u32, u32)>)
    requires Represents(n, b)
    requires forall r :: r in requests ==> 1 <= r.0 <= MAX_REQUEST && IsPow2(r.1) && r.1 <= PAGE_SIZE
    ensures AllocAll(n, requests) == BumpAll(b, requests)
    decreases |requests|
  {
    if requests != [] {
      var size, align := requests[0].0, requests[0].1;
      assert requests[0] in requests;
      BumpStep(n, b, size, align);
      NodeRefinement(Alloc(n, size, align, 0).1, BumpAlloc(b, size, align).1, requests[1..]);
    }
  }

  /** The answers with the bitmap where it lies, in memory that the blocks are cleared in. */
  ghost function Answers(s: Placed, requests: seq<(u32, u32)>): seq<Outcome>
    requires Shaped(s)
    decreases |requests|
  {
    if requests == [] then [] else
      var size, align := requests[0].0, requests[0].1;
      [Alloc(s.heap.node, size, align, 0).0] + Answers(StepAt(s, AllocOp(size, align, 0)), requests[1..])
  }

  /** A bitmap that no new block can touch makes no difference to the answers. */
  lemma {:induction false} AnswersOfNode(s: Placed, requests: seq<(u32, u32)>)
    requires Guarded(s) && forall r :: r in requests ==> 1 <= r.0 <= MAX_REQUEST && IsPow2(r.1)
    ensures Answers(s, requests) == AllocAll(s.heap.node, requests)
    decreases |requests|
  {
    if requests != [] {
      var size, align := requests[0].0, requests[0].1;
      assert requests[0] in requests;
      GoalFreeLegal(s.heap, size, align, 0);
      GuardedStep(s, s.heap, AllocOp(size, align, 0));
      AnswersOfNode(StepAt(s, AllocOp(size, align, 0)), requests[1..]);
    }
  }

  /**
   * Refinement: on one contiguous region, apart from the bitmap, every sequence of requests
   * without a goal, aligned to at most a page, gets the answers of the bump pointer, failures
   * included.
   */
  lemma BumpRefinement(s: Placed, b: Bump, requests: seq<(u32, u32)>)
    requires Guarded(s) && Represents(s.heap.node, b)
    requires forall r :: r in requests ==> 1 <= r.0 <= MAX_REQUEST && IsPow2(r.1) && r.1 <= PAGE_SIZE
    ensures Answers(s, requests) == BumpAll(b, requests)
  {
    AnswersOfNode(s, requests);
    NodeRefinement(s.heap.node, b, requests);
  }

  /** Each block starts at the end of the one before, rounded up to its own alignment. */
  ghost predicate Successive(answers: seq<Outcome>, requests: seq<(u32, u32)>) {
    && |answers| == |requests|
    && forall i :: 0 <= i && i + 1 < |answers| && answers[i].Block? && answers[i + 1].Block? ==>
         answers[i + 1].addr == AlignUp(answers[i].addr + requests[i].0, requests[i + 1].1)
  }

  lemma {:induction false} SuccessiveBumps(b: Bump, requests: seq<(u32, u32)>)
    ensures Successive(BumpAll(b, requests), requests)
    decreases |requests|
  {
    BumpAnswers(b, requests);
    if requests != [] {
      var c := BumpAlloc(b, requests[0].0, requests[0].1).1;
      SuccessiveBumps(c, requests[1..]);
      var answers, rest := BumpAll(b, requests), BumpAll(c, requests[1..]);
      forall i | 0 <= i && i + 1 < |answers| && answers[i].Block? && answers[i + 1].Block?
        ensures answers[i + 1].addr == AlignUp(answers[i].addr + requests[i].0, requests[i + 1].1)
      {
        if i > 0 {
          assert rest[i - 1] == answers[i] && rest[i] == answers[i + 1];
        }
      }
    }
  }

  lemma {:induction false} BumpAnswers(b: Bump, requests: seq<(u32, u32)>)
    ensures |BumpAll(b, requests)| == |requests|
    decreases |requests|
  {
    if requests != [] {
      BumpAnswers(BumpAlloc(b, requests[0].0, requests[0].1).1, requests[1..]);
    }
  }

  const SMP_CACHE_BYTES := 64

  /** What `alloc_bootmem` asks for, call by call. */
  predicate CacheLineRequests(requests: seq<(u32, u32)>) {
    forall r :: r in requests ==> 1 <= r.0 <= MAX_REQUEST && r.1 == SMP_CACHE_BYTES
  }

  /**
   * `alloc_bootmem` calls in a row: as long as they succeed, each block starts at the end of
   * the one before, rounded up to a cache line.
   */
  lemma SuccessiveBlocks(s: Placed, b: Bump, requests: seq<(u32, u32)>)
    requires Guarded(s) && Represents(s.heap.node, b) && CacheLineRequests(requests)
    ensures Successive(Answers(s, requests), requests)
  {
    assert IsPow2(SMP_CACHE_BYTES);
    BumpRefinement(s, b, requests);
    SuccessiveBumps(b, requests);
  }
}
