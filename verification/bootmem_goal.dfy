/** Where a request with a goal is answered: at or above the goal, or below it and when. */
module BootmemGoal {
  import opened Words
  import opened Align
  import opened BootmemModel
  import opened BootmemFirstFit
  import opened BootmemUpdates

  /** The address at which a block that is continued in the last page begins. */
  function ContinuedAddr(n: Node, align: u32): nat {
    n.lastPos * PAGE_SIZE + AlignUp(n.lastOffset, align)
  }

  /** Where the block of a search that ended at page `start` begins. */
  lemma BlockAddress(n: Node, size: u32, align: u32, goal: u32, start: nat)
    requires NodeOk(n) && IsPow2(align) && 1 <= size <= MAX_REQUEST
    requires Place(n, Pages(size), align, goal) == Some(start)
    ensures Alloc(n, size, align, goal).0
            == Block(if Continues(n, start, align) then ContinuedAddr(n, align) else start * PAGE_SIZE)
    ensures Continues(n, start, align) ==> ContinuedAddr(n, align) < start * PAGE_SIZE
  {
    if Merges(n, start, align) {
      OffsetInPage(n.lastOffset, align);
    }
  }

  /** A block is at or above the goal exactly when the page found is, and so is what it is continued from. */
  lemma BlockMeetsGoalIff(n: Node, size: u32, align: u32, goal: u32)
    requires NodeOk(n) && IsPow2(align) && 1 <= size <= MAX_REQUEST
    requires Place(n, Pages(size), align, goal).Some?
    ensures var o, start := Alloc(n, size, align, goal).0, Place(n, Pages(size), align, goal).value;
            o.Block? && (o.addr >= goal <==> start * PAGE_SIZE >= goal
                                             && (Continues(n, start, align) ==> ContinuedAddr(n, align) >= goal))
  {
    BlockAddress(n, size, align, goal, Place(n, Pages(size), align, goal).value);
  }

  /** An aligned run of clear pages fits at page `from` or above. */
  ghost predicate FitsFrom(n: Node, from: nat, incr: nat, area: nat)
    requires n.lowPfn <= |n.bits| && incr >= 1
  {
    exists q :: from <= q && q % incr == 0 && Fits(n.bits, n.lowPfn, q, area)
  }

  /** One fits at a page that starts below `addr`. */
  ghost predicate FitsBelow(n: Node, addr: nat, incr: nat, area: nat)
    requires n.lowPfn <= |n.bits| && incr >= 1
  {
    exists q :: 0 <= q && q * PAGE_SIZE < addr && q % incr == 0 && Fits(n.bits, n.lowPfn, q, area)
  }

  /**
   * The search reaches the goal: something fits from its start page on, and that page is not
   * below the goal or does not fit itself; or nothing fits there, and then nothing below the goal.
   */
  ghost predicate SearchMeetsGoal(n: Node, size: u32, align: u32, goal: u32)
    requires n.lowPfn <= |n.bits|
  {
    var start, incr, area := Preferred(n, align, goal), Incr(align), Pages(size);
    if FitsFrom(n, start, incr, area) then start * PAGE_SIZE >= goal || !Fits(n.bits, n.lowPfn, start, area)
    else !FitsBelow(n, goal, incr, area)
  }

  /**
   * The lowest run that the search looks at is right behind the page of the last allocation,
   * and the block is merged into that page, to begin below the goal.
   */
  ghost predicate MergesBelowGoal(n: Node, size: u32, align: u32, goal: u32)
    requires n.lowPfn <= |n.bits|
  {
    var start, incr, area := Preferred(n, align, goal), Incr(align), Pages(size);
    var from := if FitsFrom(n, start, incr, area) then start else 0;
    && Continues(n, n.lastPos + 1, align) && ContinuedAddr(n, align) < goal
    && IsFirstFit(n.bits, n.lowPfn, from, incr, area, Some(n.lastPos + 1))
  }

  /**
   * A request with any goal, for alignments or requests up to a page: a block is found exactly
   * when an aligned run fits in the node, and it is at or above the goal exactly when the goal
   * is in the node, the search reaches it and the block is not merged in below it.
   */
  lemma GoalMetIff(n: Node, size: u32, align: u32, goal: u32)
    requires NodeOk(n) && IsPow2(align) && 1 <= size <= MAX_REQUEST && (align <= PAGE_SIZE || size <= PAGE_SIZE)
    ensures var o := Alloc(n, size, align, goal).0;
            && (o.Block? <==> FitsFrom(n, 0, Incr(align), Pages(size)))
            && (o.Block? ==>
                  (o.addr >= goal
                   <==> goal == 0
                        || (goal < n.lowPfn * PAGE_SIZE && SearchMeetsGoal(n, size, align, goal)
                            && !MergesBelowGoal(n, size, align, goal))))
  {
    PlaceIsFirstFit(n, size, align, goal);
    var place := Place(n, Pages(size), align, goal);
    if place.Some? && goal > 0 {
      var start := place.value;
      BlockAddress(n, size, align, goal, start);
      if goal < n.lowPfn * PAGE_SIZE {
        SearchMeetsGoalIff(n, size, align, goal, start);
        MergedStart(n, size, align, goal, start);
      } else {
        PlaceFits(n, Pages(size), align, goal);
      }
    }
  }

  /**
   * For wider alignments, where nothing is merged but the search may miss runs: the block is at
   * or above the goal exactly when the goal is in the node and the search from its start page
   * succeeds, not right there if that is below the goal, or the search from page 0 gets that far.
   */
  lemma WideGoalMetIff(n: Node, size: u32, align: u32, goal: u32)
    requires NodeOk(n) && IsPow2(align) && align > PAGE_SIZE && 1 <= size <= MAX_REQUEST
    ensures var o, start := Alloc(n, size, align, goal).0, Preferred(n, align, goal);
            var incr, area := Incr(align), Pages(size);
            var first, again := Scan(n.bits, n.lowPfn, start, incr, area), Scan(n.bits, n.lowPfn, 0, incr, area);
            && (o.Block? <==> first.Some? || again.Some?)
            && (o.Block? ==>
                  (o.addr >= goal
                   <==> goal == 0
                        || (goal < n.lowPfn * PAGE_SIZE
                            && if first.Some? then start * PAGE_SIZE >= goal || !Fits(n.bits, n.lowPfn, start, area)
                               else again.value * PAGE_SIZE >= goal)))
  {
    var place := Place(n, Pages(size), align, goal);
    if place.Some? {
      PlaceFits(n, Pages(size), align, goal);
      BlockAddress(n, size, align, goal, place.value);
      if 0 < goal < n.lowPfn * PAGE_SIZE {
        WideStart(n, size, align, goal);
      }
    }
  }

  lemma WideStart(n: Node, size: u32, align: u32, goal: u32)
    requires NodeOk(n) && IsPow2(align) && 1 <= size <= MAX_REQUEST && 0 < goal < n.lowPfn * PAGE_SIZE
    ensures var start, incr, area := Preferred(n, align, goal), Incr(align), Pages(size);
            var first := Scan(n.bits, n.lowPfn, start, incr, area);
            first.Some? ==> (first.value * PAGE_SIZE >= goal
                             <==> start * PAGE_SIZE >= goal || !Fits(n.bits, n.lowPfn, start, area))
  {
    var start, incr, area := Preferred(n, align, goal), Incr(align), Pages(size);
    PreferredAligned(n, align, goal);
    ScanFits(n.bits, n.lowPfn, start, incr, area);
    StartRespectsGoalIff(n, align, goal);
    if Fits(n.bits, n.lowPfn, start, area) {
      PlaceAtStart(n, size, align, goal);
    }
    assert (start + 1) * PAGE_SIZE >= goal;
  }

  /** The page found starts at or above the goal exactly when the search reaches the goal. */
  lemma SearchMeetsGoalIff(n: Node, size: u32, align: u32, goal: u32, start: nat)
    requires NodeOk(n) && IsPow2(align) && 1 <= size <= MAX_REQUEST && (align <= PAGE_SIZE || size <= PAGE_SIZE)
    requires 0 < goal < n.lowPfn * PAGE_SIZE && Place(n, Pages(size), align, goal) == Some(start)
    ensures SearchMeetsGoal(n, size, align, goal) <==> start * PAGE_SIZE >= goal
  {
    PlaceIsFirstFit(n, size, align, goal);
    PreferredAligned(n, align, goal);
    StartRespectsGoalIff(n, align, goal);
    var from, incr, area := Preferred(n, align, goal), Incr(align), Pages(size);
    if FitsFrom(n, from, incr, area) {
      assert IsFirstFit(n.bits, n.lowPfn, from, incr, area, Some(start));
      assert Fits(n.bits, n.lowPfn, from, area) ==> start == from;
      assert (from + 1) * PAGE_SIZE >= goal;
    } else {
      assert IsFirstFit(n.bits, n.lowPfn, 0, incr, area, Some(start));
    }
  }

  /** The block is continued from below the goal exactly when the page found is the one behind the last. */
  lemma MergedStart(n: Node, size: u32, align: u32, goal: u32, start: nat)
    requires NodeOk(n) && IsPow2(align) && 1 <= size <= MAX_REQUEST && (align <= PAGE_SIZE || size <= PAGE_SIZE)
    requires Place(n, Pages(size), align, goal) == Some(start)
    ensures MergesBelowGoal(n, size, align, goal) <==> Continues(n, start, align) && ContinuedAddr(n, align) < goal
  {
    PlaceIsFirstFit(n, size, align, goal);
    var pref, incr, area := Preferred(n, align, goal), Incr(align), Pages(size);
    var from := if FitsFrom(n, pref, incr, area) then pref else 0;
    assert IsFirstFit(n.bits, n.lowPfn, from, incr, area, Some(start));
    if IsFirstFit(n.bits, n.lowPfn, from, incr, area, Some(n.lastPos + 1)) {
      assert start == n.lastPos + 1;
    }
  }

  /**
   * Even for an aligned goal on a page boundary with room right there, the block may be below
   * it: exactly when the last success lies above the goal, nothing fits from there on and
   * something fits below the goal, or when the block is merged into the page before the goal.
   */
  lemma AlignedGoalIff(n: Node, size: u32, align: u32, goal: u32)
    requires NodeOk(n) && IsPow2(align) && 1 <= size <= MAX_REQUEST
    requires n.lastSuccess <= goal || align <= PAGE_SIZE || size <= PAGE_SIZE
    requires 0 < goal < n.lowPfn * PAGE_SIZE && goal % PAGE_SIZE == 0 && goal % align == 0
    requires Fits(n.bits, n.lowPfn, goal / PAGE_SIZE, Pages(size))
    ensures var o, start := Alloc(n, size, align, goal).0, Preferred(n, align, goal);
            var incr, area := Incr(align), Pages(size);
            && o.Block?
            && (o.addr >= goal <==> (FitsFrom(n, start, incr, area) || !FitsBelow(n, goal, incr, area))
                                    && !MergesBelowGoal(n, size, align, goal))
            && (n.lastSuccess <= goal ==>
                  (o.addr >= goal <==> !Continues(n, goal / PAGE_SIZE, align)) && (o.addr >= goal ==> o.addr == goal))
  {
    var page := goal / PAGE_SIZE;
    GoalPageAligned(goal, align);
    if n.lastSuccess <= goal {
      AlignUpUnique(goal, align, goal);
      PlaceAtStart(n, size, align, goal);
      BlockAddress(n, size, align, goal, page);
      FirstAtStart(n, page, Incr(align), Pages(size));
    } else {
      GoalMetIff(n, size, align, goal);
      StartBehindGoal(n, align, goal);
    }
  }

  lemma FirstAtStart(n: Node, page: nat, incr: nat, area: nat)
    requires n.lowPfn <= |n.bits| && incr >= 1 && page % incr == 0 && Fits(n.bits, n.lowPfn, page, area)
    ensures FitsFrom(n, page, incr, area)
    ensures forall p :: IsFirstFit(n.bits, n.lowPfn, page, incr, area, Some(p)) <==> p == page
  {
  }

  lemma GoalPageAligned(goal: u32, align: u32)
    requires IsPow2(align) && goal % PAGE_SIZE == 0 && goal % align == 0
    ensures (goal / PAGE_SIZE) % Incr(align) == 0
  {
    if align >= PAGE_SIZE {
      AlignUpUnique(goal, align, goal);
      AlignedPage(goal, align);
    }
  }

  /** An aligned goal on a page boundary is never above the start of the search. */
  lemma StartBehindGoal(n: Node, align: u32, goal: u32)
    requires IsPow2(align) && 0 < goal < n.lowPfn * PAGE_SIZE && goal % PAGE_SIZE == 0
    ensures Preferred(n, align, goal) * PAGE_SIZE >= goal
  {
    AlignUpLeast(Wanted(n, goal), align);
  }

  /** A run that fits where the search starts is what it finds. */
  lemma PlaceAtStart(n: Node, size: u32, align: u32, goal: u32)
    requires NodeOk(n) && 1 <= size <= MAX_REQUEST
    requires Fits(n.bits, n.lowPfn, Preferred(n, align, goal), Pages(size))
    ensures Place(n, Pages(size), align, goal) == Some(Preferred(n, align, goal))
  {
    var start, area := Preferred(n, align, goal), Pages(size);
    PagesCoverIff(size);
    assert RunEnd(n.bits, n.lowPfn, start, area) == start + area;
  }

  /** Page 0 is used up to byte 64 and page 1 is free: a request at page 1 is answered in page 0. */
  lemma MergedBelowGoal()
    ensures Alloc(Node(2, [true, false], 64, 0, 0), 64, 64, PAGE_SIZE).0 == Block(64)
  {
    var n := Node(2, [true, false], 64, 0, 0);
    assert IsPow2(64) && AlignUp(64, 64) == 64;
    assert Preferred(n, 64, PAGE_SIZE) == 1;
    PlaceAtStart(n, 64, 64, PAGE_SIZE);
    BlockAddress(n, 64, 64, PAGE_SIZE, 1);
  }

  /** A free node of four pages after a page was given out at a goal of page 3. */
  const LAST_PAGE_GIVEN := Node(4, [false, false, false, true], 0, 3, 3 * PAGE_SIZE)

  lemma PageIsPow2()
    ensures IsPow2(PAGE_SIZE)
  {
    assert IsPow2(16) && IsPow2(256);
  }

  lemma LastPageGiven()
    ensures Alloc(Node(4, [false, false, false, false], 0, 0, 0), PAGE_SIZE, PAGE_SIZE, 3 * PAGE_SIZE)
            == (Block(3 * PAGE_SIZE), LAST_PAGE_GIVEN)
  {
    PageIsPow2();
    var n := Node(4, [false, false, false, false], 0, 0, 0);
    assert Preferred(n, PAGE_SIZE, 3 * PAGE_SIZE) == 3;
    PlaceAtStart(n, PAGE_SIZE, PAGE_SIZE, 3 * PAGE_SIZE);
    assert Marked(n.bits, 3, 4, true) == LAST_PAGE_GIVEN.bits;
  }

  /**
   * A request at the free page 1 is then answered at page 0: the search starts at the last
   * success, finds nothing, and starts over below the goal.
   */
  lemma PassedOverGoal()
    ensures NodeOk(LAST_PAGE_GIVEN) && Fits(LAST_PAGE_GIVEN.bits, 4, 1, 1)
    ensures Alloc(LAST_PAGE_GIVEN, PAGE_SIZE, PAGE_SIZE, PAGE_SIZE).0 == Block(0)
  {
    PageIsPow2();
    var n := LAST_PAGE_GIVEN;
    assert Preferred(n, PAGE_SIZE, PAGE_SIZE) == 3;
    assert Scan(n.bits, 4, 3, 1, 1) == None;
    assert RunEnd(n.bits, 4, 0, 1) == 1;
    assert Scan(n.bits, 4, 0, 1, 1) == Some(0);
    BlockAddress(n, PAGE_SIZE, PAGE_SIZE, PAGE_SIZE, 0);
  }
}
