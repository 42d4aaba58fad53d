/**
 * Whole runs of the boot allocator: what callers hold stays theirs.  Blocks are cleared here
 * as if the bitmap lay elsewhere; `BootmemPlaced` puts it where it is.
 */
module BootmemRuns {
  import opened Words
  import opened Align
  import opened Bitmap
  import opened BootmemModel
  import opened BootmemUpdates

  /** A node, the byte ranges its callers hold, and the memory behind it. */
  datatype Heap = Heap(node: Node, live: seq<Range>, memory: seq<byte>)

  datatype Op =
    | AllocOp(size: u32, align: u32, goal: u32)
    | FreeOp(addr: u32, size: u32)
    | ReserveOp(addr: u32, size: u32)

  /** As far as the range is in the node its pages are reserved, and no later block may grow into it. */
  ghost predicate Spared(n: Node, r: Range)
    requires n.lowPfn <= |n.bits|
  {
    (forall p :: 0 <= p < n.lowPfn && Touches(r, p) ==> n.bits[p]) && Disjoint(r, Tail(n))
  }

  /** What a caller may expect of a range that it holds. */
  ghost predicate Secure(n: Node, r: Range)
    requires n.lowPfn <= |n.bits|
  {
    r.len > 0 && r.base + r.len <= n.lowPfn * PAGE_SIZE && Spared(n, r)
  }

  ghost predicate PairwiseDisjoint(live: seq<Range>) {
    forall i, j :: 0 <= i < j < |live| ==> Disjoint(live[i], live[j])
  }

  ghost predicate Sound(h: Heap) {
    && NodeOk(h.node) && |h.memory| == LOWMEM_PAGES * PAGE_SIZE
    && (forall i :: 0 <= i < |h.live| ==> Secure(h.node, h.live[i]))
    && PairwiseDisjoint(h.live)
  }

  predicate Inside(r: Range, outer: Range) {
    outer.base <= r.base && r.base + r.len <= outer.base + outer.len
  }

  /** The ranges that are not given back with `freed`. */
  function Kept(live: seq<Range>, freed: Range): (r: seq<Range>)
    ensures forall k :: 0 <= k < |r| ==> r[k] in live && !Inside(r[k], freed)
    ensures forall held :: held in live && !Inside(held, freed) ==> held in r
  {
    if live == [] then []
    else (if Inside(live[0], freed) then [] else [live[0]]) + Kept(live[1..], freed)
  }

  /** One call, with the memory that a new block is cleared in. */
  function Step(h: Heap, op: Op): (t: Heap)
    requires h.node.lowPfn <= |h.node.bits|
    ensures t.node.lowPfn == h.node.lowPfn && |t.node.bits| == |h.node.bits| && |t.memory| == |h.memory|
  {
    match op
    case AllocOp(size, align, goal) =>
      var (o, m) := Alloc(h.node, size, align, goal);
      var r := Granted(o, size);
      Heap(m, if o.Block? then h.live + [r] else h.live, Zeroed(h.memory, r.base, r.len))
    case FreeOp(addr, size) =>
      Heap(Free(h.node, addr, size), Kept(h.live, Range(addr, size)), h.memory)
    case ReserveOp(addr, size) =>
      h.(node := Reserve(h.node, addr, size),
         live := if Reserves(h.node, addr, size) then h.live + [Range(addr, size)] else h.live)
  }

  /** The range is not empty and lies in the node. */
  predicate Reserves(n: Node, addr: u32, size: u32) {
    size > 0 && addr + size <= n.lowPfn * PAGE_SIZE
  }

  /**
   * What a caller must respect.  Alignments are not 0 and sizes do not wrap, and a request is
   * not continued in a page that was freed; no page becomes free that a range not given back
   * touches; a reserved range takes no byte in use and none of the tail of the last page.
   */
  ghost predicate Legal(h: Heap, op: Op)
    requires h.node.lowPfn <= |h.node.bits|
  {
    match op
    case AllocOp(size, align, goal) => align != 0 && size <= MAX_REQUEST && !Stale(h.node, size, align, goal)
    case FreeOp(addr, size) =>
      forall p, i ::
        0 <= p < h.node.lowPfn && 0 <= i < |h.live| && Frees(h.node, addr, size, p) && Touches(h.live[i], p)
        ==> Inside(h.live[i], Range(addr, size))
    case ReserveOp(addr, size) =>
      Reserves(h.node, addr, size) ==>
        && Disjoint(Range(addr, size), Tail(h.node))
        && forall i :: 0 <= i < |h.live| ==> Disjoint(h.live[i], Range(addr, size))
  }

  // ---------- allocation ----------

  /** Byte `x` lies in both ranges, and so both touch its page. */
  ghost predicate Shares(a: Range, b: Range, x: nat) {
    && a.base <= x < a.base + a.len && b.base <= x < b.base + b.len
    && Touches(a, x / PAGE_SIZE) && Touches(b, x / PAGE_SIZE)
  }

  lemma DisjointOrShared(a: Range, b: Range)
    requires a.len > 0 && b.len > 0
    ensures Disjoint(a, b) || exists x :: Shares(a, b, x)
  {
    var x := if a.base < b.base then b.base else a.base;
    assert Disjoint(a, b) || Shares(a, b, x);
  }

  lemma NewIsApart(n: Node, m: Node, r: Range, held: Range)
    requires NodeOk(n) && r.len > 0 && held.len > 0
    requires Allocated(n, m, r) && Spared(n, held)
    ensures Disjoint(held, r)
  {
    DisjointOrShared(held, r);
  }

  lemma NewTailIsApart(n: Node, m: Node, r: Range, held: Range)
    requires NodeOk(n) && r.len > 0 && held.len > 0
    requires Allocated(n, m, r) && Spared(n, held)
    ensures Disjoint(held, Tail(m))
  {
    NewIsApart(n, m, r, held);
    if m.lastOffset != 0 {
      DisjointOrShared(held, Tail(m));
    }
  }

  /** A new block leaves alone what is spared. */
  lemma NewSpares(n: Node, m: Node, r: Range, held: Range)
    requires NodeOk(n) && r.len > 0 && held.len > 0
    requires Allocated(n, m, r) && Spared(n, held)
    ensures Disjoint(held, r) && Spared(m, held)
  {
    NewIsApart(n, m, r, held);
    NewTailIsApart(n, m, r, held);
  }

  lemma AllocKeeps(h: Heap, size: u32, align: u32, goal: u32)
    requires Sound(h) && Legal(h, AllocOp(size, align, goal))
    ensures Sound(Step(h, AllocOp(size, align, goal)))
  {
    if size > 0 && IsPow2(align) {
      AllocExact(h.node, size, align, goal);
      var (o, m) := Alloc(h.node, size, align, goal);
      if o.Block? {
        var r := Range(o.addr, size);
        forall i | 0 <= i < |h.live| ensures Disjoint(h.live[i], r) && Secure(m, h.live[i]) {
          NewSpares(h.node, m, r, h.live[i]);
        }
        assert Secure(m, r);
      }
    }
  }

  /** A block that is continued in a freed page lies on a page that stays free. */
  lemma StaleBlock(n: Node, size: u32, align: u32, goal: u32)
    requires NodeOk(n) && size <= MAX_REQUEST && Stale(n, size, align, goal)
    ensures var (o, m) := Alloc(n, size, align, goal);
            o.Block? && n.lastPos < n.lowPfn && Touches(Granted(o, size), n.lastPos) && !m.bits[n.lastPos]
  {
    StaleIff(n, size, align, goal);
    PlaceFits(n, Pages(size), align, goal);
    assert Alloc(n, size, align, goal).0 == Block(n.lastPos * PAGE_SIZE + AlignUp(n.lastOffset, align));
  }

  lemma StaleIsInsecure(h: Heap, size: u32, align: u32, goal: u32)
    requires Sound(h) && size <= MAX_REQUEST && Stale(h.node, size, align, goal)
    ensures !Sound(Step(h, AllocOp(size, align, goal)))
  {
    var t := Step(h, AllocOp(size, align, goal));
    StaleBlock(h.node, size, align, goal);
    assert !Secure(t.node, t.live[|h.live|]);
  }

  // ---------- free and reserve ----------

  lemma FreeKeepsIff(h: Heap, addr: u32, size: u32)
    requires Sound(h)
    ensures Sound(Step(h, FreeOp(addr, size))) <==> Legal(h, FreeOp(addr, size))
  {
    var freed := Range(addr, size);
    var m, kept := Free(h.node, addr, size), Kept(h.live, freed);
    FreedPages(h.node, addr, size);
    KeptDisjoint(h.live, freed);
    if Legal(h, FreeOp(addr, size)) {
      forall j | 0 <= j < |kept| ensures Secure(m, kept[j]) {
        var i :| 0 <= i < |h.live| && h.live[i] == kept[j];
        assert Secure(h.node, h.live[i]);
      }
    }
    if Sound(Step(h, FreeOp(addr, size))) {
      assert forall j :: 0 <= j < |kept| ==> Secure(m, kept[j]);
      assert forall i :: 0 <= i < |h.live| && !Inside(h.live[i], freed) ==> h.live[i] in kept;
    }
  }

  lemma {:induction false} KeptDisjoint(live: seq<Range>, freed: Range)
    requires PairwiseDisjoint(live)
    ensures PairwiseDisjoint(Kept(live, freed))
  {
    if live != [] {
      KeptDisjoint(live[1..], freed);
    }
  }

  lemma ReserveKeepsIff(h: Heap, addr: u32, size: u32)
    requires Sound(h)
    ensures Sound(Step(h, ReserveOp(addr, size))) <==> Legal(h, ReserveOp(addr, size))
  {
    var m, t, r := Reserve(h.node, addr, size), Step(h, ReserveOp(addr, size)), Range(addr, size);
    forall held | Secure(h.node, held) ensures Secure(m, held) {
    }
    if Reserves(h.node, addr, size) {
      ReserveExactIff(h.node, addr, size);
      assert t.live[|h.live|] == r;
      if Sound(t) {
        assert Secure(m, r);
        forall i | 0 <= i < |h.live| ensures Disjoint(h.live[i], r) {
          assert t.live[i] == h.live[i];
        }
      }
    }
  }

  /**
   * What a caller must respect is exactly what keeps a heap sound, for every free and every
   * reserve, and for every request whose alignment is not 0 and whose size does not wrap.
   */
  lemma LegalIff(h: Heap, op: Op)
    requires Sound(h) && (op.AllocOp? ==> op.align != 0 && op.size <= MAX_REQUEST)
    ensures Sound(Step(h, op)) <==> Legal(h, op)
  {
    match op
    case AllocOp(size, align, goal) =>
      if Legal(h, op) { AllocKeeps(h, size, align, goal); } else { StaleIsInsecure(h, size, align, goal); }
    case FreeOp(addr, size) => FreeKeepsIff(h, addr, size);
    case ReserveOp(addr, size) => ReserveKeepsIff(h, addr, size);
  }

  /** A request without a goal is never continued in a freed page, and neither is one while that page is reserved. */
  lemma GoalFreeLegal(h: Heap, size: u32, align: u32, goal: u32)
    requires Sound(h) && (goal == 0 || TailReserved(h.node))
    ensures Legal(h, AllocOp(size, align, goal)) <==> align != 0 && size <= MAX_REQUEST
  {
    if size <= MAX_REQUEST {
      NeverStale(h.node, size, align, goal);
    }
  }

  // ---------- runs ----------

  /** A run in which every step is legal where it is taken. */
  ghost predicate LegalRun(h: Heap, ops: seq<Op>)
    requires h.node.lowPfn <= |h.node.bits|
    decreases |ops|
  {
    ops == [] || (Legal(h, ops[0]) && LegalRun(Step(h, ops[0]), ops[1..]))
  }

  function Run(h: Heap, ops: seq<Op>): (t: Heap)
    requires h.node.lowPfn <= |h.node.bits|
    ensures t.node.lowPfn == h.node.lowPfn && |t.node.bits| == |h.node.bits| && |t.memory| == |h.memory|
    decreases |ops|
  {
    if ops == [] then h else Run(Step(h, ops[0]), ops[1..])
  }

  /**
   * After any legal run from a sound heap, all ranges that callers hold are pairwise
   * disjoint, inside the node and on reserved pages.
   */
  lemma {:induction false} RunSafe(h: Heap, ops: seq<Op>)
    requires Sound(h) && LegalRun(h, ops)
    ensures Sound(Run(h, ops))
    decreases |ops|
  {
    if ops != [] {
      LegalIff(h, ops[0]);
      RunSafe(Step(h, ops[0]), ops[1..]);
    }
  }

  /** The range is held before, between and after the steps of the run. */
  ghost predicate HeldThroughout(h: Heap, ops: seq<Op>, r: Range)
    requires h.node.lowPfn <= |h.node.bits|
    decreases |ops|
  {
    r in h.live && (ops == [] || HeldThroughout(Step(h, ops[0]), ops[1..], r))
  }

  lemma HeldBytesStep(h: Heap, op: Op, r: Range)
    requires Sound(h) && Legal(h, op) && r in h.live
    ensures r.base + r.len <= |h.memory|
    ensures forall b :: r.base <= b < r.base + r.len ==> Step(h, op).memory[b] == h.memory[b]
  {
    var t := Step(h, op);
    LegalIff(h, op);
    var i :| 0 <= i < |h.live| && h.live[i] == r;
    assert Secure(h.node, h.live[i]);
    if op.AllocOp? && |t.live| > |h.live| {
      assert Disjoint(t.live[i], t.live[|h.live|]);
    }
  }

  /** Over a whole run, clearing new blocks changes no byte of a range that is held throughout. */
  lemma {:induction false} HeldBytesKept(h: Heap, ops: seq<Op>, r: Range)
    requires Sound(h) && LegalRun(h, ops) && HeldThroughout(h, ops, r)
    ensures r.base + r.len <= |h.memory|
    ensures forall b :: r.base <= b < r.base + r.len ==> Run(h, ops).memory[b] == h.memory[b]
    decreases |ops|
  {
    if ops == [] {
      var i :| 0 <= i < |h.live| && h.live[i] == r;
      assert Secure(h.node, h.live[i]);
    } else {
      HeldBytesStep(h, ops[0], r);
      LegalIff(h, ops[0]);
      HeldBytesKept(Step(h, ops[0]), ops[1..], r);
    }
  }

  // ---------- what the conditions are for ----------

  /** Page 0 is used up to byte 64, and enough clear pages follow. */
  function HalfPage(size: u32): Heap {
    Heap(Node(1 + Pages(size), [true] + seq(Pages(size), _ => false), 64, 0, 0),
         [Range(0, 64)], seq(LOWMEM_PAGES * PAGE_SIZE, _ => 0))
  }

  /**
   * With an alignment of 0 the merge starts at byte 0 of the last page, over what is there;
   * every other alignment keeps every sound heap sound.
   */
  lemma SafeAlignmentIff(size: u32, align: u32)
    requires 1 <= size <= (LOWMEM_PAGES - 1) * PAGE_SIZE
    ensures (forall h, goal: u32 | Sound(h) && !Stale(h.node, size, align, goal) ::
               Sound(Step(h, AllocOp(size, align, goal))))
            <==> align != 0
  {
    if align != 0 {
      forall h, goal: u32 | Sound(h) && !Stale(h.node, size, align, goal)
        ensures Sound(Step(h, AllocOp(size, align, goal))) {
        AllocKeeps(h, size, align, goal);
      }
    } else {
      var h := HalfPage(size);
      PagesCoverIff(size);
      assert Sound(h);
      var area := Pages(size);
      assert RunEnd(h.node.bits, h.node.lowPfn, 1, area) == 1 + area;
      assert Scan(h.node.bits, h.node.lowPfn, 1, 1, area) == Some(1);
      assert Place(h.node, area, 0, 0) == Some(1);
      var after := Step(h, AllocOp(size, 0, 0));
      assert after.live[0] == Range(0, 64) && after.live[1] == Range(0, size);
      assert !Disjoint(after.live[0], after.live[1]);
      assert !Sound(after);
    }
  }

  /** A request above MAX_REQUEST asks for 0 pages and is granted without reserving any. */
  lemma SafeSizeIff(size: u32, align: u32)
    requires 1 <= size && IsPow2(align)
    ensures (forall h, goal: u32 | Sound(h) && !Stale(h.node, size, align, goal) ::
               Sound(Step(h, AllocOp(size, align, goal))))
            <==> size <= MAX_REQUEST
  {
    if size <= MAX_REQUEST {
      forall h, goal: u32 | Sound(h) && !Stale(h.node, size, align, goal)
        ensures Sound(Step(h, AllocOp(size, align, goal))) {
        AllocKeeps(h, size, align, goal);
      }
    } else {
      var h := Heap(Node(1, [false], 0, 0, 0), [], seq(LOWMEM_PAGES * PAGE_SIZE, _ => 0));
      HugeBlock(size, align);
      assert Sound(h) && !Stale(h.node, size, align, 0);
      var after := Step(h, AllocOp(size, align, 0));
      assert after.live[0] == Range(0, size);
      assert !Secure(after.node, after.live[0]);
    }
  }

  /** A node of one free page grants a request of no pages, at page 0. */
  lemma HugeBlock(size: u32, align: u32)
    requires size > MAX_REQUEST && IsPow2(align)
    ensures Alloc(Node(1, [false], 0, 0, 0), size, align, 0).0 == Block(0)
  {
    PagesCoverIff(size);
    var n := Node(1, [false], 0, 0, 0);
    assert Preferred(n, align, 0) == 0 by { AlignUpUnique(0, align, 0); }
    assert Scan(n.bits, 1, 0, Incr(align), 0) == Some(0);
    assert Place(n, 0, align, 0) == Some(0);
  }
}
