/**
 * The boot memory allocator on values: a bitmap with one bit per page (set means reserved)
 * and the end of the last allocation.  Addresses are physical; the source returns them
 * shifted by PAGE_OFFSET.
 */
module BootmemModel {
  import opened Words
  import opened Align
  import opened Bitmap

  /** Pages that have a kernel virtual address: the gigabyte above PAGE_OFFSET. */
  const LOWMEM_PAGES := 0x4_0000

  /** The largest request whose page count does not wrap. */
  const MAX_REQUEST := TWO_32 - PAGE_SIZE

  datatype Node = Node(lowPfn: nat, bits: seq<bool>, lastOffset: nat, lastPos: nat, lastSuccess: nat)

  ghost predicate NodeOk(n: Node) {
    && n.lowPfn <= LOWMEM_PAGES
    && n.lowPfn <= |n.bits|
    && n.lastOffset < PAGE_SIZE
    && n.lastSuccess <= LOWMEM_PAGES * PAGE_SIZE
  }

  /** A range of bytes. */
  datatype Range = Range(base: nat, len: nat)

  predicate Touches(r: Range, page: nat) {
    r.base < (page + 1) * PAGE_SIZE && page * PAGE_SIZE < r.base + r.len
  }

  /** All of the page lies in the range. */
  predicate Covers(r: Range, page: nat) {
    r.base <= page * PAGE_SIZE && (page + 1) * PAGE_SIZE <= r.base + r.len
  }

  function Marked(bits: seq<bool>, from: int, to: int, value: bool): (r: seq<bool>)
    ensures |r| == |bits|
  {
    seq(|bits|, i requires 0 <= i < |bits| => if from <= i < to then value else bits[i])
  }

  /** Bytes of a bitmap for `pages` pages, in whole 32-bit words. */
  function BitmapBytes(pages: nat): (r: nat)
    ensures r % 4 == 0 && pages <= 8 * r < pages + 32
  {
    ((pages + 7) / 8 + 3) / 4 * 4
  }

  /** All pages start out reserved; the end of the last allocation is not reset. */
  function Initialised(n: Node, end: nat): (m: Node)
    requires NodeOk(n) && end <= LOWMEM_PAGES
    ensures NodeOk(m) && m.lowPfn == end && |m.bits| == 8 * BitmapBytes(end)
    ensures forall p :: 0 <= p < |m.bits| ==> m.bits[p]
    ensures m.lastOffset == n.lastOffset && m.lastPos == n.lastPos && m.lastSuccess == n.lastSuccess
  {
    n.(lowPfn := end, bits := seq(8 * BitmapBytes(end), _ => true))
  }

  // ---------- reserve and free ----------

  function Reserve(n: Node, addr: u32, size: u32): Node {
    var sidx := addr / PAGE_SIZE;
    var eidx := U32(addr + size + PAGE_SIZE - 1) / PAGE_SIZE;
    if size == 0 || sidx >= eidx || addr / PAGE_SIZE >= n.lowPfn || eidx > n.lowPfn then n
    else n.(bits := Marked(n.bits, sidx, eidx, true))
  }

  /** The first already clear page in [from, to), or `to`. */
  function FirstFree(bits: seq<bool>, from: nat, to: nat): (k: nat)
    requires to <= |bits|
    ensures from <= to ==> from <= k <= to
    ensures from > to ==> k == from
    ensures forall i :: from <= i < k ==> bits[i]
    ensures k < to ==> !bits[k]
    decreases if from < to then to - from else 0
  {
    if from >= to || !bits[from] then from else FirstFree(bits, from + 1, to)
  }

  function Free(n: Node, addr: u32, size: u32): Node
    requires n.lowPfn <= |n.bits|
  {
    var eidx := U32(addr + size) / PAGE_SIZE;
    if eidx > n.lowPfn then n else
      var sidx := U32(addr + PAGE_SIZE - 1) / PAGE_SIZE;
      n.(lastSuccess := if addr < n.lastSuccess then addr else n.lastSuccess,
         bits := Marked(n.bits, sidx, FirstFree(n.bits, sidx, eidx), false))
  }

  // ---------- allocation ----------

  datatype Outcome = Bug | Null | Block(addr: nat)

  /** Pages a request asks for; wraps to 0 above MAX_REQUEST. */
  function Pages(size: u32): nat {
    U32(size + PAGE_SIZE - 1) / PAGE_SIZE
  }

  /** Step of the scan, in pages. */
  function Incr(align: u32): (r: nat)
    ensures r >= 1
  {
    if align / PAGE_SIZE == 0 then 1 else align / PAGE_SIZE
  }

  /** The page the scan prefers to start from. */
  function Preferred(n: Node, align: u32, goal: u32): nat {
    var preferred :=
      if goal == 0 || goal / PAGE_SIZE >= n.lowPfn then 0
      else if n.lastSuccess >= goal then n.lastSuccess else goal;
    AlignUp(preferred, align) / PAGE_SIZE
  }

  /** The first page in [i, i + area) that is set or beyond the node, or i + area. */
  function RunEnd(bits: seq<bool>, eidx: nat, i: nat, area: nat): (j: nat)
    requires eidx <= |bits|
    ensures i <= j <= i + area
    ensures i < j ==> j <= eidx
    ensures forall k :: i <= k < j ==> !bits[k]
    ensures j < i + area ==> j >= eidx || bits[j]
    decreases area
  {
    if area == 0 || i >= eidx || bits[i] then i else RunEnd(bits, eidx, i + 1, area - 1)
  }

  /** The page the scan from `i` settles on: after a failed run it resumes one step past its end. */
  function Scan(bits: seq<bool>, eidx: nat, i: nat, incr: nat, area: nat): Option<nat>
    requires eidx <= |bits| && incr >= 1
    decreases if i < eidx then eidx - i else 0
  {
    if i >= eidx then None
    else if bits[i] then Scan(bits, eidx, i + incr, incr, area)
    else
      var j := RunEnd(bits, eidx, i, area);
      if j == i + area then Some(i) else
        AlignUpLeast(j, incr);
        Scan(bits, eidx, AlignUp(j, incr) + incr, incr, area)
  }

  /** The scan from the preferred page and, failing that, once more from the first page. */
  function Place(n: Node, area: nat, align: u32, goal: u32): Option<nat>
    requires n.lowPfn <= |n.bits|
  {
    var preferred := Preferred(n, align, goal);
    var first := Scan(n.bits, n.lowPfn, preferred, Incr(align), area);
    if first.Some? || preferred == 0 then first else Scan(n.bits, n.lowPfn, 0, Incr(align), area)
  }

  /** May the request start in what is left of the page that the last one ended in? */
  predicate Merges(n: Node, start: nat, align: u32) {
    align < PAGE_SIZE && n.lastOffset != 0 && n.lastPos + 1 == start
  }

  /** Where a block goes, where it ends, and how many new pages it takes. */
  datatype Plan = Plan(addr: nat, lastPos: nat, lastOffset: nat, pages: nat)

  function PlanFor(n: Node, start: nat, size: u32, align: u32): Plan {
    if Merges(n, start, align) then Continued(n, start, size, AlignUp(n.lastOffset, align))
    else
      var end := start + Pages(size);
      Plan(start * PAGE_SIZE, if end == 0 then 0 else end - 1, size % PAGE_SIZE, Pages(size))
  }

  /** The plan that starts at byte `offset` of the page of the last allocation. */
  function Continued(n: Node, start: nat, size: u32, offset: nat): Plan
    requires start >= 1
  {
    var addr := n.lastPos * PAGE_SIZE + offset;
    if size < PAGE_SIZE - offset then
      Plan(addr, n.lastPos, (offset + size) % PAGE_SIZE, 0)
    else
      var over := U32(size - (PAGE_SIZE - offset));
      Plan(addr, start + Pages(over) - 1, over % PAGE_SIZE, Pages(over))
  }

  function Commit(n: Node, start: nat, size: u32, align: u32): (Outcome, Node) {
    var plan := PlanFor(n, start, size, align);
    (Block(plan.addr),
     n.(lastSuccess := start * PAGE_SIZE, lastPos := plan.lastPos, lastOffset := plan.lastOffset,
        bits := Marked(n.bits, start, start + plan.pages, true)))
  }

  function Alloc(n: Node, size: u32, align: u32, goal: u32): (r: (Outcome, Node))
    requires n.lowPfn <= |n.bits|
    ensures r.1.lowPfn == n.lowPfn && |r.1.bits| == |n.bits|
  {
    if size == 0 || !(align == 0 || IsPow2(align)) then (Bug, n)
    else
      match Place(n, Pages(size), align, goal)
      case None => (Null, n)
      case Some(start) => Commit(n, start, size, align)
  }

  /** The bytes an outcome grants. */
  function Granted(o: Outcome, size: nat): Range {
    if o.Block? then Range(o.addr, size) else Range(0, 0)
  }

  /** Memory once the bits are stored at `at` and the block is cleared, in this order. */
  function Cleared(memory: seq<byte>, at: nat, bits: seq<bool>, block: Range): (m: seq<byte>)
    requires |bits| % 8 == 0 && at + |bits| / 8 <= |memory|
    ensures |m| == |memory|
  {
    Zeroed(Store(memory, at, bits), block.base, block.len)
  }

  /**
   * An allocation with the bitmap where it lies, at `at` in the memory that new blocks are
   * cleared in: where a block covers the bitmap, bits that were set become clear again.
   */
  function AllocAt(n: Node, memory: seq<byte>, at: nat, size: u32, align: u32, goal: u32)
    : (r: (Outcome, Node, seq<byte>))
    requires n.lowPfn <= |n.bits| && |n.bits| % 8 == 0 && at + |n.bits| / 8 <= |memory|
    ensures r.1.lowPfn == n.lowPfn && |r.1.bits| == |n.bits| && |r.2| == |memory|
  {
    var (o, m) := Alloc(n, size, align, goal);
    var block := Granted(o, size);
    (o, m.(bits := Wiped(m.bits, at, block.base, block.len)), Cleared(memory, at, m.bits, block))
  }

  lemma AllocAtEncoded(n: Node, memory: seq<byte>, at: nat, size: u32, align: u32, goal: u32)
    requires n.lowPfn <= |n.bits| && |n.bits| % 8 == 0 && at + |n.bits| / 8 <= |memory|
    ensures var (o, m, after) := AllocAt(n, memory, at, size, align, goal); Encoded(after, at, m.bits)
  {
    var (o, m) := Alloc(n, size, align, goal);
    StoreEncodes(memory, at, m.bits);
    ZeroedWipes(Store(memory, at, m.bits), at, m.bits, Granted(o, size).base, Granted(o, size).len);
  }

  /**
   * What an allocation does to memory and to the bits in it: the block is all zero, every other
   * byte outside the bitmap is as before, and a bit is set exactly if the allocation left it set
   * and its byte is not in the block.
   */
  lemma AllocAtExact(n: Node, memory: seq<byte>, at: nat, size: u32, align: u32, goal: u32)
    requires n.lowPfn <= |n.bits| && |n.bits| % 8 == 0 && at + |n.bits| / 8 <= |memory|
    ensures var (o, m) := Alloc(n, size, align, goal);
            var (p, k, after) := AllocAt(n, memory, at, size, align, goal);
            && p == o && k == m.(bits := k.bits) && |k.bits| == |n.bits| && Encoded(after, at, k.bits)
            && (forall b :: 0 <= b < |memory| ==>
                  var cleared := o.Block? && o.addr <= b < o.addr + size;
                  && (cleared ==> after[b] == 0)
                  && (!cleared && !(at <= b < at + |n.bits| / 8) ==> after[b] == memory[b]))
            && forall i :: 0 <= i < |n.bits| ==>
                 k.bits[i] == (m.bits[i] && !(o.Block? && o.addr <= at + i / 8 < o.addr + size))
  {
    var m := Alloc(n, size, align, goal).1;
    AllocAtEncoded(n, memory, at, size, align, goal);
    forall b | 0 <= b < |memory| ensures Store(memory, at, m.bits)[b] == ByteIn(memory, at, m.bits, b) {
      StoreAt(memory, at, m.bits, b);
    }
  }

  /** A size of 0 and an alignment that is neither 0 nor a power of two stop the machine, and nothing else does. */
  lemma BugIff(n: Node, size: u32, align: u32, goal: u32)
    requires n.lowPfn <= |n.bits|
    ensures var (o, m) := Alloc(n, size, align, goal);
            && (o.Bug? <==> size == 0 || (align != 0 && forall k: nat :: Pow2(k) != align))
            && (!o.Block? ==> m == n)
  {
    IsPow2Iff(align);
  }

  /** The pages that the scan steps through are those that begin at an aligned address. */
  lemma CandidatesIff(align: u32, page: nat)
    requires IsPow2(align)
    ensures page % Incr(align) == 0 <==> align < PAGE_SIZE || page * PAGE_SIZE % align == 0
  {
    if align >= PAGE_SIZE {
      Pow2Divides(PAGE_SIZE, align);
      if page * PAGE_SIZE % align == 0 {
        WholePages(page * PAGE_SIZE, align);
      }
      if page % Incr(align) == 0 {
        WholeSteps(page, align / PAGE_SIZE, align);
      }
    }
  }

  lemma WholeSteps(start: nat, incr: nat, align: nat)
    requires incr > 0 && align == incr * PAGE_SIZE && start % incr == 0
    ensures (start * PAGE_SIZE) % align == 0
  {
    var q := start / incr;
    calc {
      start * PAGE_SIZE;
      (q * incr) * PAGE_SIZE;
      q * (incr * PAGE_SIZE);
      q * align;
    }
    MulMod(q, align);
  }

  lemma NothingGranted(n: Node, memory: seq<byte>, at: nat, size: u32, align: u32, goal: u32)
    requires n.lowPfn <= |n.bits| && Encoded(memory, at, n.bits) && !Alloc(n, size, align, goal).0.Block?
    ensures AllocAt(n, memory, at, size, align, goal) == (Alloc(n, size, align, goal).0, n, memory)
  {
    StoreUnique(memory, memory, at, n.bits);
    assert Zeroed(memory, 0, 0) == memory;
    assert Wiped(n.bits, at, 0, 0) == n.bits;
  }

  lemma PlaceGranted(n: Node, memory: seq<byte>, at: nat, size: u32, align: u32, goal: u32, start: nat)
    requires n.lowPfn <= |n.bits| && |n.bits| % 8 == 0 && at + |n.bits| / 8 <= |memory|
    requires size > 0 && (align == 0 || IsPow2(align)) && Place(n, Pages(size), align, goal) == Some(start)
    ensures var (o, m) := Commit(n, start, size, align);
            AllocAt(n, memory, at, size, align, goal)
            == (o, m.(bits := Wiped(m.bits, at, o.addr, size)), Cleared(memory, at, m.bits, Range(o.addr, size)))
  {
  }

  /** A block that lies apart from the bitmap leaves its bits alone. */
  lemma WipedApart(bits: seq<bool>, at: nat, block: Range)
    requires |bits| % 8 == 0
    requires bits == [] || block.len == 0 || block.base + block.len <= at || at + |bits| / 8 <= block.base
    ensures Wiped(bits, at, block.base, block.len) == bits
  {
  }

  // ---------- arithmetic of pages ----------

  /** The page count covers the request exactly when it does not wrap. */
  lemma PagesCoverIff(size: u32)
    ensures size <= Pages(size) * PAGE_SIZE <==> size <= MAX_REQUEST
    ensures size <= MAX_REQUEST ==> Pages(size) * PAGE_SIZE < size + PAGE_SIZE
    ensures size > MAX_REQUEST ==> Pages(size) == 0
  {
  }

  /** Rounding the end of the last allocation up never leaves its page. */
  lemma OffsetInPage(offset: nat, align: u32)
    requires offset < PAGE_SIZE && align < PAGE_SIZE && (align == 0 || IsPow2(align))
    ensures AlignUp(offset, align) <= PAGE_SIZE
    ensures align != 0 ==> offset <= AlignUp(offset, align)
  {
    if align != 0 {
      AlignUpLeast(offset, align);
      AlignUpWithin(offset, align, PAGE_SIZE);
    }
  }

  // ---------- what a scan finds ----------

  /** Pages i to i + area - 1 are in the node and clear. */
  ghost predicate Fits(bits: seq<bool>, eidx: nat, i: nat, area: nat)
    requires eidx <= |bits|
  {
    i + area <= eidx && forall k :: i <= k < i + area ==> !bits[k]
  }

  /** The scan finds a run that fits, aligned to its step and not before its start. */
  lemma {:induction false} ScanFits(bits: seq<bool>, eidx: nat, i: nat, incr: nat, area: nat)
    requires eidx <= |bits| && incr >= 1 && i % incr == 0
    ensures var r := Scan(bits, eidx, i, incr, area);
            r.Some? ==> i <= r.value < eidx && r.value % incr == 0 && Fits(bits, eidx, r.value, area)
    decreases if i < eidx then eidx - i else 0
  {
    if i < eidx {
      if bits[i] {
        ModAddMultiple(i, incr);
        ScanFits(bits, eidx, i + incr, incr, area);
      } else {
        var j := RunEnd(bits, eidx, i, area);
        if j != i + area {
          AlignUpLeast(j, incr);
          ModAddMultiple(AlignUp(j, incr), incr);
          ScanFits(bits, eidx, AlignUp(j, incr) + incr, incr, area);
        }
      }
    }
  }

  /** Jumping over set bits changes nothing, whichever of them the jump lands on. */
  lemma {:induction false} ScanSkips(bits: seq<bool>, eidx: nat, i: nat, incr: nat, area: nat, next: nat)
    requires eidx <= |bits| && incr >= 1 && i % incr == 0 && i <= next
    requires forall k :: i <= k < next && k < |bits| ==> bits[k]
    ensures Scan(bits, eidx, i, incr, area) == Scan(bits, eidx, AlignUp(next, incr), incr, area)
    decreases next - i
  {
    AlignUpLeast(next, incr);
    if next < i + incr {
      if next == i {
        AlignUpUnique(next, incr, i);
      } else {
        ModAddMultiple(i, incr);
        AlignUpUnique(next, incr, i + incr);
      }
    } else {
      ModAddMultiple(i, incr);
      ScanSkips(bits, eidx, i + incr, incr, area, next);
    }
  }

  /** The preferred page is a multiple of the scan's step. */
  lemma PreferredAligned(n: Node, align: u32, goal: u32)
    requires align == 0 || IsPow2(align)
    ensures Preferred(n, align, goal) % Incr(align) == 0
  {
    if align >= PAGE_SIZE {
      var x := if goal == 0 || goal / PAGE_SIZE >= n.lowPfn then 0
               else if n.lastSuccess >= goal then n.lastSuccess else goal;
      AlignedPage(x, align);
    }
  }

  lemma AlignedPage(x: nat, align: u32)
    requires IsPow2(align) && align >= PAGE_SIZE
    ensures AlignUp(x, align) / PAGE_SIZE % (align / PAGE_SIZE) == 0
  {
    AlignUpLeast(x, align);
    Pow2Divides(PAGE_SIZE, align);
    WholePages(AlignUp(x, align), align);
  }

  lemma WholePages(x: nat, align: nat)
    requires align >= PAGE_SIZE && align % PAGE_SIZE == 0 && x % align == 0
    ensures x / PAGE_SIZE % (align / PAGE_SIZE) == 0
  {
    var incr, q := align / PAGE_SIZE, x / align;
    assert x == q * align;
    assert q * align == (q * incr) * PAGE_SIZE by { assert align == incr * PAGE_SIZE; }
    MulMod(q, incr);
  }

  lemma PlaceFits(n: Node, area: nat, align: u32, goal: u32)
    requires n.lowPfn <= |n.bits| && (align == 0 || IsPow2(align))
    ensures var p := Place(n, area, align, goal);
            p.Some? ==> p.value < n.lowPfn && p.value % Incr(align) == 0 && Fits(n.bits, n.lowPfn, p.value, area)
  {
    PreferredAligned(n, align, goal);
    ScanFits(n.bits, n.lowPfn, Preferred(n, align, goal), Incr(align), area);
    ScanFits(n.bits, n.lowPfn, 0, Incr(align), area);
  }

  /** A committed block ends inside the node. */
  lemma CommitInNode(n: Node, start: nat, size: u32, align: u32)
    requires NodeOk(n) && 1 <= size <= MAX_REQUEST && (align == 0 || IsPow2(align))
    requires start < n.lowPfn && Fits(n.bits, n.lowPfn, start, Pages(size))
    ensures var (r, m) := Commit(n, start, size, align);
            r.Block? && r.addr + size <= n.lowPfn * PAGE_SIZE && NodeOk(m)
  {
    PlanBounds(n, start, size, align);
  }

  /** A plan takes no more pages than were searched for, and its block ends in the last of them. */
  lemma PlanBounds(n: Node, start: nat, size: u32, align: u32)
    requires NodeOk(n) && 1 <= size <= MAX_REQUEST && (align == 0 || IsPow2(align))
    ensures var plan := PlanFor(n, start, size, align);
            && plan.pages <= Pages(size)
            && plan.lastOffset < PAGE_SIZE
            && plan.addr + size <= (start + plan.pages) * PAGE_SIZE
            && plan.addr < (start + Pages(size)) * PAGE_SIZE
  {
    PagesCoverIff(size);
    if Merges(n, start, align) {
      OffsetInPage(n.lastOffset, align);
      ContinuedBounds(n, start, size, AlignUp(n.lastOffset, align));
    }
  }

  lemma ContinuedBounds(n: Node, start: nat, size: u32, offset: nat)
    requires n.lastPos + 1 == start && offset <= PAGE_SIZE && 1 <= size <= MAX_REQUEST
    ensures var plan := Continued(n, start, size, offset);
            && plan.pages <= Pages(size)
            && plan.lastOffset < PAGE_SIZE
            && plan.addr + size <= (start + plan.pages) * PAGE_SIZE
            && plan.addr < (start + Pages(size)) * PAGE_SIZE
  {
  }
}
