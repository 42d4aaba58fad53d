/**
 * The allocator with its bitmap where it lies: in the memory that it hands out and clears.
 * `BootmemRuns` reasons as if the bitmap were elsewhere; here is when that is right.
 */
module BootmemPlaced {
  import opened Words
  import opened Align
  import opened Bitmap
  import opened BootmemModel
  import opened BootmemUpdates
  import opened BootmemRuns

  /** A heap, and the page of its memory that the bitmap starts on. */
  datatype Placed = Placed(heap: Heap, mapstart: nat)

  function At(s: Placed): nat { s.mapstart * PAGE_SIZE }

  /** The bytes of the bitmap. */
  function MapRange(s: Placed): Range { Range(At(s), |s.heap.node.bits| / 8) }

  ghost predicate Shaped(s: Placed) {
    var n := s.heap.node;
    && n.lowPfn <= LOWMEM_PAGES && |n.bits| == 8 * BitmapBytes(n.lowPfn)
    && |s.heap.memory| == LOWMEM_PAGES * PAGE_SIZE && At(s) + |n.bits| / 8 <= |s.heap.memory|
  }

  /** The node's bits are those that lie in memory. */
  ghost predicate Laid(s: Placed) {
    Shaped(s) && Encoded(s.heap.memory, At(s), s.heap.node.bits)
  }

  ghost function StepAt(s: Placed, op: Op): (t: Placed)
    requires Shaped(s)
    ensures Shaped(t) && t.mapstart == s.mapstart && |t.heap.node.bits| == |s.heap.node.bits|
  {
    match op
    case AllocOp(size, align, goal) =>
      var (o, m, memory) := AllocAt(s.heap.node, s.heap.memory, At(s), size, align, goal);
      Placed(Heap(m, if o.Block? then s.heap.live + [Granted(o, size)] else s.heap.live, memory), s.mapstart)
    case _ =>
      var t := Step(s.heap, op);
      s.(heap := t.(memory := Store(s.heap.memory, At(s), t.node.bits)))
  }

  lemma StepLaid(s: Placed, op: Op)
    requires Shaped(s)
    ensures Laid(StepAt(s, op))
  {
    if op.AllocOp? {
      AllocAtEncoded(s.heap.node, s.heap.memory, At(s), op.size, op.align, op.goal);
    } else {
      StoreEncodes(s.heap.memory, At(s), Step(s.heap, op).node.bits);
    }
  }

  /** Callers respect what they must on any heap, and do not free the pages of the bitmap. */
  ghost predicate LegalAt(s: Placed, op: Op)
    requires Shaped(s)
  {
    && Legal(s.heap, op)
    && (op.FreeOp? ==> forall p :: 0 <= p < s.heap.node.lowPfn && Touches(MapRange(s), p) ==>
                         !Frees(s.heap.node, op.addr, op.size, p))
  }

  ghost predicate LegalRunAt(s: Placed, ops: seq<Op>)
    requires Shaped(s)
    decreases |ops|
  {
    ops == [] || (LegalAt(s, ops[0]) && LegalRunAt(StepAt(s, ops[0]), ops[1..]))
  }

  ghost function RunAt(s: Placed, ops: seq<Op>): (t: Placed)
    requires Shaped(s)
    ensures Shaped(t) && t.mapstart == s.mapstart && |t.heap.node.bits| == |s.heap.node.bits|
    decreases |ops|
  {
    if ops == [] then s else RunAt(StepAt(s, ops[0]), ops[1..])
  }

  // ---------- a bitmap on reserved pages ----------

  /** A sound heap whose bitmap is spared by every new block. */
  ghost predicate Guarded(s: Placed) {
    Laid(s) && Sound(s.heap) && Spared(s.heap.node, MapRange(s))
  }

  /** The placed heap is the one that `BootmemRuns` reasons about, but for the bytes of the bitmap. */
  ghost predicate Agrees(s: Placed, h: Heap) {
    && s.heap.node == h.node && s.heap.live == h.live && |s.heap.memory| == |h.memory|
    && forall b :: 0 <= b < |h.memory| && !(At(s) <= b < At(s) + MapRange(s).len) ==> s.heap.memory[b] == h.memory[b]
  }

  /** A new block does not touch a bitmap that is spared. */
  lemma AllocSparesMap(s: Placed, size: u32, align: u32, goal: u32)
    requires Guarded(s) && LegalAt(s, AllocOp(size, align, goal))
    ensures var (o, m) := Alloc(s.heap.node, size, align, goal);
            Spared(m, MapRange(s)) && AllocAt(s.heap.node, s.heap.memory, At(s), size, align, goal).1 == m
  {
    var n := s.heap.node;
    var (o, m) := Alloc(n, size, align, goal);
    if o.Block? {
      AllocExact(n, size, align, goal);
      BlockInNode(n, size, align, goal);
      NewSpares(n, m, Granted(o, size), MapRange(s));
    }
    WipedApart(m.bits, At(s), Granted(o, size));
  }

  /** A node that hands out a block has pages, and so a bitmap. */
  lemma BlockInNode(n: Node, size: u32, align: u32, goal: u32)
    requires n.lowPfn <= |n.bits| && Alloc(n, size, align, goal).0.Block?
    ensures n.lowPfn > 0
  {
    PlaceFits(n, Pages(size), align, goal);
  }

  lemma GuardedAlloc(s: Placed, h: Heap, size: u32, align: u32, goal: u32)
    requires Guarded(s) && LegalAt(s, AllocOp(size, align, goal)) && Agrees(s, h)
    ensures var op := AllocOp(size, align, goal);
            Guarded(StepAt(s, op)) && Agrees(StepAt(s, op), Step(h, op)) && Legal(h, op)
  {
    var op := AllocOp(size, align, goal);
    StepLaid(s, op);
    AllocKeeps(s.heap, size, align, goal);
    AllocSparesMap(s, size, align, goal);
    AgreesAfterStore(s, h, Alloc(s.heap.node, size, align, goal).1.bits);
    SameButMemory(Step(s.heap, op), StepAt(s, op).heap);
  }

  /** Whether a heap is sound does not depend on what the bytes are. */
  lemma SameButMemory(h: Heap, k: Heap)
    requires k.node == h.node && k.live == h.live && |k.memory| == |h.memory|
    ensures Sound(k) <==> Sound(h)
  {
  }

  lemma GuardedUpdate(s: Placed, h: Heap, op: Op)
    requires Guarded(s) && LegalAt(s, op) && Agrees(s, h) && !op.AllocOp?
    ensures Guarded(StepAt(s, op)) && Agrees(StepAt(s, op), Step(h, op)) && Legal(h, op)
  {
    StepLaid(s, op);
    LegalIff(s.heap, op);
    UpdateSpares(s, op);
    AgreesAfterStore(s, h, StepAt(s, op).heap.node.bits);
    SameButMemory(Step(s.heap, op), StepAt(s, op).heap);
  }

  lemma UpdateSpares(s: Placed, op: Op)
    requires Guarded(s) && LegalAt(s, op) && !op.AllocOp?
    ensures Spared(Step(s.heap, op).node, MapRange(s))
  {
    if op.FreeOp? {
      FreedPages(s.heap.node, op.addr, op.size);
    }
  }

  /** As long as the bitmap is spared, every legal step does what it does with the bitmap elsewhere. */
  lemma GuardedStep(s: Placed, h: Heap, op: Op)
    requires Guarded(s) && LegalAt(s, op) && Agrees(s, h)
    ensures Guarded(StepAt(s, op)) && Agrees(StepAt(s, op), Step(h, op)) && Legal(h, op)
  {
    if op.AllocOp? {
      GuardedAlloc(s, h, op.size, op.align, op.goal);
    } else {
      GuardedUpdate(s, h, op);
    }
  }

  /**
   * The callers' obligations are exact here too: a step keeps a guarded heap guarded if and
   * only if it is legal, for every free and reserve and every request that does not wrap.
   */
  lemma LegalAtIff(s: Placed, op: Op)
    requires Guarded(s) && (op.AllocOp? ==> op.align != 0 && op.size <= MAX_REQUEST)
    ensures Guarded(StepAt(s, op)) <==> LegalAt(s, op)
  {
    var t := StepAt(s, op);
    if LegalAt(s, op) {
      GuardedStep(s, s.heap, op);
    } else if op.AllocOp? {
      StaleBlock(s.heap.node, op.size, op.align, op.goal);
      assert !Secure(t.heap.node, t.heap.live[|s.heap.live|]);
    } else {
      LegalIff(s.heap, op);
      if Sound(t.heap) {
        SameButMemory(t.heap, Step(s.heap, op));
        FreedMapPage(s, op);
      }
    }
  }

  lemma FreedMapPage(s: Placed, op: Op)
    requires Guarded(s) && Legal(s.heap, op) && !LegalAt(s, op)
    ensures !Spared(Step(s.heap, op).node, MapRange(s))
  {
    FreedPages(s.heap.node, op.addr, op.size);
  }

  lemma AgreesAfterStore(s: Placed, h: Heap, bits: seq<bool>)
    requires Shaped(s) && Agrees(s, h) && |bits| == |s.heap.node.bits|
    ensures forall b :: 0 <= b < |h.memory| && !(At(s) <= b < At(s) + |bits| / 8) ==>
              Store(s.heap.memory, At(s), bits)[b] == h.memory[b]
  {
    StoreElsewhere(s.heap.memory, At(s), bits);
  }

  /**
   * Refinement: while the bitmap is spared at the start, a legal run is a legal run of the
   * heap with its bitmap elsewhere, with the same node, the same holders and the same bytes
   * but for those of the bitmap, which are the node's bits throughout.
   */
  lemma {:induction false} PlacedRefines(s: Placed, h: Heap, ops: seq<Op>)
    requires Guarded(s) && LegalRunAt(s, ops) && Agrees(s, h)
    ensures LegalRun(h, ops) && Guarded(RunAt(s, ops)) && Agrees(RunAt(s, ops), Run(h, ops))
    decreases |ops|
  {
    if ops != [] {
      GuardedStep(s, h, ops[0]);
      PlacedRefines(StepAt(s, ops[0]), Step(h, ops[0]), ops[1..]);
    }
  }

  /** So a byte that is held throughout and is none of the bitmap's is never changed by the allocator. */
  lemma PlacedBytesKept(s: Placed, ops: seq<Op>, r: Range, b: nat)
    requires Guarded(s) && LegalRunAt(s, ops) && HeldThroughout(s.heap, ops, r)
    requires r.base <= b < r.base + r.len && !(At(s) <= b < At(s) + MapRange(s).len)
    ensures b < |s.heap.memory| && RunAt(s, ops).heap.memory[b] == s.heap.memory[b]
  {
    PlacedRefines(s, s.heap, ops);
    HeldBytesKept(s.heap, ops, r);
  }

  // ---------- a bitmap on free pages ----------

  lemma RunAtCons(s: Placed, op: Op, rest: seq<Op>)
    requires Shaped(s)
    ensures LegalRunAt(s, [op] + rest) <==> LegalAt(s, op) && LegalRunAt(StepAt(s, op), rest)
    ensures RunAt(s, [op] + rest) == RunAt(StepAt(s, op), rest)
  {
    assert ([op] + rest)[1..] == rest;
  }

  /** The block of one page at page `p`. */
  function PageRange(p: nat): Range { Range(p * PAGE_SIZE, PAGE_SIZE) }

  /** Page `p` was handed out, and the bits that lie on it are clear. */
  ghost predicate Grabbed(s: Placed, t: Placed, p: nat) {
    && Laid(s) && Laid(t) && t.mapstart == s.mapstart && t.heap.node.lowPfn == s.heap.node.lowPfn
    && t.heap.node.lastOffset == 0 && t.heap.live == s.heap.live + [PageRange(p)]
    && forall i :: 0 <= i < |s.heap.node.bits| ==>
         t.heap.node.bits[i]
         == ((s.heap.node.bits[i] || i == p) && !(p * PAGE_SIZE <= At(s) + i / 8 < (p + 1) * PAGE_SIZE))
  }

  /** Forgets where the last search succeeded. */
  const REWIND := FreeOp(0, 0)

  function Take(p: nat): Op
    requires p < LOWMEM_PAGES
  {
    AllocOp(PAGE_SIZE, PAGE_SIZE, p * PAGE_SIZE)
  }

  lemma TakeFreePage(n: Node, p: nat)
    requires NodeOk(n) && p < n.lowPfn && !n.bits[p] && n.lastSuccess == 0
    ensures Alloc(n, PAGE_SIZE, PAGE_SIZE, p * PAGE_SIZE)
            == (Block(p * PAGE_SIZE),
                n.(lastSuccess := p * PAGE_SIZE, lastPos := p, lastOffset := 0, bits := Marked(n.bits, p, p + 1, true)))
  {
    assert IsPow2(16) && IsPow2(256) && IsPow2(PAGE_SIZE);
    assert RunEnd(n.bits, n.lowPfn, p + 1, 0) == p + 1;
    assert RunEnd(n.bits, n.lowPfn, p, 1) == p + 1;
    assert Preferred(n, PAGE_SIZE, p * PAGE_SIZE) == p;
    assert Scan(n.bits, n.lowPfn, p, 1, 1) == Some(p);
  }

  /** With a goal, any free page may be had. */
  lemma GrabFreePage(s: Placed, p: nat)
    requires Laid(s) && NodeOk(s.heap.node) && s.heap.node.lastSuccess == 0 && s.heap.node.lastOffset == 0
    requires p < s.heap.node.lowPfn && !s.heap.node.bits[p]
    ensures LegalAt(s, Take(p)) && Grabbed(s, StepAt(s, Take(p)), p) && NodeOk(StepAt(s, Take(p)).heap.node)
  {
    var n := s.heap.node;
    TakeFreePage(n, p);
    StepLaid(s, Take(p));
  }

  lemma {:induction false} NothingGivenBack(live: seq<Range>)
    requires forall i :: 0 <= i < |live| ==> live[i].len > 0
    ensures Kept(live, Range(0, 0)) == live
  {
    if live != [] {
      NothingGivenBack(live[1..]);
    }
  }

  lemma FreeNothing(n: Node)
    requires NodeOk(n)
    ensures Free(n, 0, 0) == n.(lastSuccess := 0) && forall p :: 0 <= p < n.lowPfn ==> !Frees(n, 0, 0, p)
  {
    assert Marked(n.bits, 0, 0, false) == n.bits;
  }

  lemma RewindOnly(s: Placed)
    requires Laid(s) && NodeOk(s.heap.node) && forall i :: 0 <= i < |s.heap.live| ==> s.heap.live[i].len > 0
    ensures LegalAt(s, REWIND) && StepAt(s, REWIND) == s.(heap := s.heap.(node := s.heap.node.(lastSuccess := 0)))
  {
    FreeNothing(s.heap.node);
    NothingGivenBack(s.heap.live);
    StoreUnique(s.heap.memory, s.heap.memory, At(s), s.heap.node.bits);
  }

  ghost function AfterGrab(s: Placed, p: nat): (t: Placed)
    requires Shaped(s) && p < LOWMEM_PAGES
    ensures Shaped(t)
  {
    StepAt(StepAt(s, REWIND), Take(p))
  }

  lemma Grab(s: Placed, p: nat)
    requires Laid(s) && NodeOk(s.heap.node) && s.heap.node.lastOffset == 0
    requires forall i :: 0 <= i < |s.heap.live| ==> s.heap.live[i].len > 0
    requires p < s.heap.node.lowPfn && !s.heap.node.bits[p]
    ensures LegalAt(s, REWIND) && LegalAt(StepAt(s, REWIND), Take(p))
    ensures Grabbed(s, AfterGrab(s, p), p) && NodeOk(AfterGrab(s, p).heap.node)
  {
    RewindOnly(s);
    GrabFreePage(StepAt(s, REWIND), p);
  }

  lemma GrabThen(s: Placed, p: nat, rest: seq<Op>)
    requires Shaped(s) && p < LOWMEM_PAGES && LegalAt(s, REWIND) && LegalAt(StepAt(s, REWIND), Take(p))
    requires LegalRunAt(AfterGrab(s, p), rest)
    ensures var ops := [REWIND] + ([Take(p)] + rest);
            LegalRunAt(s, ops) && RunAt(s, ops) == RunAt(AfterGrab(s, p), rest)
  {
    RunAtCons(s, REWIND, [Take(p)] + rest);
    RunAtCons(StepAt(s, REWIND), Take(p), rest);
  }

  /** Nothing is held yet, and no block has ended inside a page. */
  ghost predicate Fresh(s: Placed) {
    Laid(s) && NodeOk(s.heap.node) && s.heap.live == [] && s.heap.node.lastOffset == 0
  }

  /** Every page of the node that the bitmap lies on is reserved. */
  ghost predicate MapReserved(s: Placed)
    requires Shaped(s)
  {
    forall p :: 0 <= p < s.heap.node.lowPfn && Touches(MapRange(s), p) ==> s.heap.node.bits[p]
  }

  /** A word that starts in the bitmap starts with the bit of a page. */
  lemma WordsFit(pages: nat, offset: nat)
    requires offset % 4 == 0 && offset < BitmapBytes(pages)
    ensures 8 * offset < pages
  {
  }

  /** A page of the node whose bit lies on page `q`. */
  lemma BitOnPage(s: Placed, q: nat) returns (x: nat)
    requires Shaped(s) && Touches(MapRange(s), q)
    ensures x < s.heap.node.lowPfn && q * PAGE_SIZE <= At(s) + x / 8 < (q + 1) * PAGE_SIZE
  {
    var first := if q * PAGE_SIZE < At(s) then At(s) else q * PAGE_SIZE;
    x := 8 * (first - At(s));
    assert x / 8 == first - At(s);
    WordsFit(s.heap.node.lowPfn, first - At(s));
  }

  lemma ReserveOne(n: Node, x: nat)
    requires NodeOk(n) && x < n.lowPfn
    ensures Reserve(n, x * PAGE_SIZE, PAGE_SIZE) == n.(bits := n.bits[x := true])
    ensures Reserves(n, x * PAGE_SIZE, PAGE_SIZE)
  {
    assert Marked(n.bits, x, x + 1, true) == n.bits[x := true];
  }

  /** A caller reserves a page for itself. */
  lemma HoldPage(s: Placed, x: nat)
    requires Fresh(s) && x < s.heap.node.lowPfn
    ensures LegalAt(s, ReserveOp(x * PAGE_SIZE, PAGE_SIZE))
    ensures var t := StepAt(s, ReserveOp(x * PAGE_SIZE, PAGE_SIZE));
            && Laid(t) && NodeOk(t.heap.node) && t.heap.node.lastOffset == 0 && t.heap.live == [PageRange(x)]
            && t.mapstart == s.mapstart && t.heap.node.lowPfn == s.heap.node.lowPfn
            && t.heap.node.bits == s.heap.node.bits[x := true]
  {
    ReserveOne(s.heap.node, x);
    StepLaid(s, ReserveOp(x * PAGE_SIZE, PAGE_SIZE));
  }

  /** Taking the bitmap's page `q` frees every page whose bit lies on it. */
  lemma GrabBoth(s: Placed, q: nat, x: nat) returns (ops: seq<Op>)
    requires Laid(s) && NodeOk(s.heap.node) && s.heap.node.lastOffset == 0
    requires forall i :: 0 <= i < |s.heap.live| ==> s.heap.live[i].len > 0
    requires q < s.heap.node.lowPfn && !s.heap.node.bits[q]
    requires x < s.heap.node.lowPfn && q * PAGE_SIZE <= At(s) + x / 8 < (q + 1) * PAGE_SIZE
    ensures LegalRunAt(s, ops) && RunAt(s, ops).heap.live == s.heap.live + [PageRange(q)] + [PageRange(x)]
  {
    Grab(s, q);
    var t := AfterGrab(s, q);
    assert !t.heap.node.bits[x];
    assert forall i :: 0 <= i < |t.heap.live| ==> t.heap.live[i].len > 0;
    Grab(t, x);
    GrabThen(t, x, []);
    GrabThen(s, q, [REWIND] + ([Take(x)] + []));
    ops := [REWIND] + ([Take(q)] + ([REWIND] + ([Take(x)] + [])));
  }

  /** A run that takes the bitmap's page `q` and by that gets some page twice. */
  lemma TakenTwice(s: Placed, q: nat) returns (ops: seq<Op>)
    requires Fresh(s) && q < s.heap.node.lowPfn && Touches(MapRange(s), q) && !s.heap.node.bits[q]
    ensures LegalRunAt(s, ops) && !PairwiseDisjoint(RunAt(s, ops).heap.live)
  {
    var x := BitOnPage(s, q);
    if x == q {
      ops := GrabBoth(s, q, x);
      assert !Disjoint(RunAt(s, ops).heap.live[0], RunAt(s, ops).heap.live[1]);
    } else {
      var hold := ReserveOp(x * PAGE_SIZE, PAGE_SIZE);
      HoldPage(s, x);
      var rest := GrabBoth(StepAt(s, hold), q, x);
      RunAtCons(s, hold, rest);
      ops := [hold] + rest;
      assert !Disjoint(RunAt(s, ops).heap.live[0], RunAt(s, ops).heap.live[2]);
    }
  }

  /** Every legal run leaves callers with ranges that are secure and pairwise disjoint. */
  ghost predicate Safe(s: Placed)
    requires Shaped(s)
  {
    forall ops | LegalRunAt(s, ops) :: Sound(RunAt(s, ops).heap)
  }

  lemma GuardedIsSafe(s: Placed)
    requires Guarded(s)
    ensures Safe(s)
  {
    forall ops | LegalRunAt(s, ops) ensures Sound(RunAt(s, ops).heap) {
      PlacedRefines(s, s.heap, ops);
    }
  }

  /**
   * From a fresh heap all legal runs are safe if and only if the pages of the bitmap are
   * reserved; if one is not, there is a legal run in which two holders share bytes.
   */
  lemma SafeIff(s: Placed)
    requires Fresh(s)
    ensures Safe(s) <==> MapReserved(s)
    ensures (forall ops | LegalRunAt(s, ops) :: PairwiseDisjoint(RunAt(s, ops).heap.live)) <==> MapReserved(s)
  {
    if MapReserved(s) {
      GuardedIsSafe(s);
    } else {
      var q :| 0 <= q < s.heap.node.lowPfn && Touches(MapRange(s), q) && !s.heap.node.bits[q];
      var ops := TakenTwice(s, q);
      assert LegalRunAt(s, ops) && !Sound(RunAt(s, ops).heap);
    }
  }

  /** The call that holds the bitmap for the allocator. */
  function HoldMap(s: Placed): Op
    requires At(s) < TWO_32 && |s.heap.node.bits| / 8 < TWO_32
  {
    ReserveOp(At(s), |s.heap.node.bits| / 8)
  }

  /**
   * If the bitmap's bytes are reserved first, all legal runs are safe, provided they all lie
   * in the node: otherwise the reserve does nothing.
   */
  lemma SafeOnceHeldIff(s: Placed)
    requires Fresh(s)
    ensures LegalAt(s, HoldMap(s))
    ensures Safe(StepAt(s, HoldMap(s)))
            <==> MapReserved(s) || At(s) + MapRange(s).len <= s.heap.node.lowPfn * PAGE_SIZE
  {
    var n, r, t := s.heap.node, MapRange(s), StepAt(s, HoldMap(s));
    StepLaid(s, HoldMap(s));
    if Reserves(n, r.base, r.len) {
      ReserveExactIff(n, r.base, r.len);
      LegalIff(s.heap, HoldMap(s));
      assert t.heap.live == [r] && Secure(t.heap.node, t.heap.live[0]);
      GuardedIsSafe(t);
    } else {
      ReserveExactIff(n, r.base, r.len);
      assert Reserve(n, r.base, r.len).bits == n.bits;
      StoreUnique(s.heap.memory, s.heap.memory, At(s), n.bits);
      assert t == s;
      SafeIff(s);
    }
  }

  // ---------- other ranges that nobody asked for ----------

  /** The call neither frees a page that `keep` touches nor reserves bytes of it. */
  ghost predicate LeavesAlone(s: Placed, op: Op, keep: Range)
    requires Shaped(s)
  {
    match op
    case AllocOp(_, _, _) => true
    case FreeOp(addr, size) =>
      forall p :: 0 <= p < s.heap.node.lowPfn && Touches(keep, p) ==> !Frees(s.heap.node, addr, size, p)
    case ReserveOp(addr, size) => Reserves(s.heap.node, addr, size) ==> Disjoint(Range(addr, size), keep)
  }

  ghost predicate LeavingRun(s: Placed, ops: seq<Op>, keep: Range)
    requires Shaped(s)
    decreases |ops|
  {
    ops == [] || (LegalAt(s, ops[0]) && LeavesAlone(s, ops[0], keep) && LeavingRun(StepAt(s, ops[0]), ops[1..], keep))
  }

  /** No legal run that leaves the range alone ends with a block on it. */
  ghost predicate Keeps(s: Placed, keep: Range)
    requires Shaped(s)
  {
    forall ops | LeavingRun(s, ops, keep) :: Apart(RunAt(s, ops).heap.live, keep)
  }

  ghost predicate Apart(live: seq<Range>, keep: Range) {
    forall i :: 0 <= i < |live| ==> Disjoint(live[i], keep)
  }

  lemma KeepStep(s: Placed, op: Op, keep: Range)
    requires Guarded(s) && keep.len > 0 && Spared(s.heap.node, keep) && Apart(s.heap.live, keep)
    requires LegalAt(s, op) && LeavesAlone(s, op, keep)
    ensures var t := StepAt(s, op); Guarded(t) && Spared(t.heap.node, keep) && Apart(t.heap.live, keep)
    ensures forall b :: keep.base <= b < keep.base + keep.len && b < |s.heap.memory|
                        && !(At(s) <= b < At(s) + MapRange(s).len)
              ==> StepAt(s, op).heap.memory[b] == s.heap.memory[b]
  {
    GuardedStep(s, s.heap, op);
    KeepBytes(s, op, keep);
    if op.AllocOp? {
      KeepAlloc(s, op.size, op.align, op.goal, keep);
    } else if op.FreeOp? {
      FreedPages(s.heap.node, op.addr, op.size);
    }
  }

  lemma KeepBytes(s: Placed, op: Op, keep: Range)
    requires Guarded(s) && keep.len > 0 && Spared(s.heap.node, keep) && LegalAt(s, op)
    ensures forall b :: keep.base <= b < keep.base + keep.len && b < |s.heap.memory|
                        && !(At(s) <= b < At(s) + MapRange(s).len)
              ==> StepAt(s, op).heap.memory[b] == s.heap.memory[b]
  {
    GuardedStep(s, s.heap, op);
    if op.AllocOp? {
      KeepAlloc(s, op.size, op.align, op.goal, keep);
    }
  }

  lemma KeepAlloc(s: Placed, size: u32, align: u32, goal: u32, keep: Range)
    requires Guarded(s) && keep.len > 0 && Spared(s.heap.node, keep)
    requires LegalAt(s, AllocOp(size, align, goal))
    ensures var (o, m) := Alloc(s.heap.node, size, align, goal);
            Spared(m, keep) && (o.Block? ==> Disjoint(Granted(o, size), keep))
  {
    var (o, m) := Alloc(s.heap.node, size, align, goal);
    if o.Block? {
      AllocExact(s.heap.node, size, align, goal);
      NewSpares(s.heap.node, m, Granted(o, size), keep);
    }
  }

  /** A range on reserved pages is never handed out, and its bytes are never cleared. */
  lemma {:induction false} KeptThroughout(s: Placed, ops: seq<Op>, keep: Range)
    requires Guarded(s) && keep.len > 0 && Spared(s.heap.node, keep) && Apart(s.heap.live, keep)
    requires LeavingRun(s, ops, keep)
    ensures Apart(RunAt(s, ops).heap.live, keep)
    ensures forall b :: keep.base <= b < keep.base + keep.len && b < |s.heap.memory|
                        && !(At(s) <= b < At(s) + MapRange(s).len)
              ==> RunAt(s, ops).heap.memory[b] == s.heap.memory[b]
    decreases |ops|
  {
    if ops != [] {
      KeepStep(s, ops[0], keep);
      KeptThroughout(StepAt(s, ops[0]), ops[1..], keep);
    }
  }

  lemma PageTaken(s: Placed, q: nat, keep: Range)
    requires Fresh(s) && q < s.heap.node.lowPfn && !s.heap.node.bits[q] && Touches(keep, q)
    ensures LeavingRun(s, [REWIND] + ([Take(q)] + []), keep)
    ensures !Apart(RunAt(s, [REWIND] + ([Take(q)] + [])).heap.live, keep)
  {
    Grab(s, q);
    GrabThen(s, q, []);
    FreeNothing(s.heap.node);
    var ops: seq<Op> := [REWIND] + ([Take(q)] + []);
    assert ops[1..] == [Take(q)] && ops[1..][1..] == [];
    assert RunAt(s, ops).heap.live[0] == PageRange(q);
  }

  /**
   * With the bitmap on reserved pages, any other range is kept if and only if the pages of
   * the node that it touches are reserved.
   */
  lemma KeepsIff(s: Placed, keep: Range)
    requires Fresh(s) && MapReserved(s) && keep.len > 0
    ensures Keeps(s, keep) <==> forall p :: 0 <= p < s.heap.node.lowPfn && Touches(keep, p) ==> s.heap.node.bits[p]
  {
    if q :| 0 <= q < s.heap.node.lowPfn && Touches(keep, q) && !s.heap.node.bits[q] {
      PageTaken(s, q, keep);
    } else {
      forall ops | LeavingRun(s, ops, keep) ensures Apart(RunAt(s, ops).heap.live, keep) {
        KeptThroughout(s, ops, keep);
      }
    }
  }
}
