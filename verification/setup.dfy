/** From the e820 memory map to the boot allocator's first bitmap. */
module Setup {
  import opened Words
  import opened Align
  import opened Bitmap
  import opened BootmemModel
  import opened BootmemUpdates
  import opened BootmemRuns
  import opened BootmemPlaced
  import opened BootmemBump
  import Bootmem

  const E820_RAM := 1

  const VMALLOC_RESERVE := 0x800_0000

  /** 896MB in pages: the kernel's gigabyte less what is kept for vmalloc. */
  const MAXMEM_PFN := (LOWMEM_PAGES * PAGE_SIZE - VMALLOC_RESERVE) / PAGE_SIZE

  const TWO_64 := 0x1_0000_0000_0000_0000

  type u64 = x: int | 0 <= x < TWO_64

  datatype Entry = Entry(addr: u64, size: u64, kind: int)

  /** Page frame numbers are 32-bit words computed from 64-bit addresses. */
  function PfnUp(addr: u64): u32 { U32((addr + PAGE_SIZE - 1) % TWO_64 / PAGE_SIZE) }

  function PfnDown(addr: int): u32 { U32(addr % TWO_64 / PAGE_SIZE) }

  function Start(e: Entry): u32 { PfnUp(e.addr) }

  function End(e: Entry): u32 { PfnDown(e.addr + e.size) }

  /** RAM that contains a whole page. */
  predicate Usable(e: Entry) {
    e.kind == E820_RAM && Start(e) < End(e)
  }

  function Max(a: nat, b: nat): nat { if a < b then b else a }

  function Min(a: nat, b: nat): nat { if a < b then a else b }

  /** The end of the highest usable entry. */
  function MaxPfn(e820: seq<Entry>): nat {
    if e820 == [] then 0 else
      var last := e820[|e820| - 1];
      Max(MaxPfn(e820[..|e820| - 1]), if Usable(last) then End(last) else 0)
  }

  /** An entry is usable exactly if it has a page, and its end is behind all of them. */
  lemma UsableHasPages(e: Entry)
    ensures Usable(e) <==> exists p :: InEntry(e, TWO_32, p)
    ensures forall p :: InEntry(e, TWO_32, p) ==> p < End(e)
    ensures Usable(e) ==> InEntry(e, TWO_32, End(e) - 1)
  {
    if Usable(e) {
      assert InEntry(e, TWO_32, End(e) - 1);
    }
  }

  /** The least number above the pages of all entries. */
  lemma MaxPfnBoundsPages(e820: seq<Entry>)
    ensures forall i, p :: 0 <= i < |e820| && InEntry(e820[i], TWO_32, p) ==> p < MaxPfn(e820)
    ensures MaxPfn(e820) == 0 || exists i :: 0 <= i < |e820| && InEntry(e820[i], TWO_32, MaxPfn(e820) - 1)
  {
    MaxPfnIsMax(e820);
    forall i | 0 <= i < |e820|
      ensures Usable(e820[i]) ==> InEntry(e820[i], TWO_32, End(e820[i]) - 1)
      ensures forall p :: InEntry(e820[i], TWO_32, p) ==> p < MaxPfn(e820)
    {
      UsableHasPages(e820[i]);
    }
  }

  lemma {:induction false} MaxPfnIsMax(e820: seq<Entry>)
    ensures forall i :: 0 <= i < |e820| && Usable(e820[i]) ==> End(e820[i]) <= MaxPfn(e820)
    ensures MaxPfn(e820) == 0 || exists i :: 0 <= i < |e820| && Usable(e820[i]) && End(e820[i]) == MaxPfn(e820)
  {
    if e820 != [] {
      var rest := e820[..|e820| - 1];
      MaxPfnIsMax(rest);
      if MaxPfn(e820) == MaxPfn(rest) && MaxPfn(rest) != 0 {
        var i :| 0 <= i < |rest| && Usable(rest[i]) && End(rest[i]) == MaxPfn(rest);
        assert Usable(e820[i]) && End(e820[i]) == MaxPfn(e820);
      }
    }
  }

  /** Where low memory ends. */
  function LowPfn(e820: seq<Entry>): nat { Min(MaxPfn(e820), MAXMEM_PFN) }

  /** The page is one that registering entry `e` is to free. */
  predicate InEntry(e: Entry, low: nat, p: int) {
    e.kind == E820_RAM && Start(e) <= p < Min(End(e), low)
  }

  function RegisterOne(n: Node, e: Entry, low: nat): Node
    requires NodeOk(n) && low <= MAXMEM_PFN
  {
    var last := Min(End(e), low);
    if e.kind != E820_RAM || Start(e) >= low || last <= Start(e) then n
    else Free(n, Start(e) * PAGE_SIZE, (last - Start(e)) * PAGE_SIZE)
  }

  lemma RegisterOneExact(n: Node, e: Entry, low: nat)
    requires NodeOk(n) && low <= MAXMEM_PFN && low == n.lowPfn
    ensures var m := RegisterOne(n, e, low);
            && NodeOk(m) && m.lowPfn == low && |m.bits| == |n.bits|
            && m.lastPos == n.lastPos && m.lastOffset == n.lastOffset
            && forall p :: 0 <= p < |n.bits| ==> (!m.bits[p] <==> !n.bits[p] || FreesPage(n.bits, e, low, p))
  {
    var last := Min(End(e), low);
    if e.kind == E820_RAM && Start(e) < last {
      FreedEntry(n, e, low, Range(Start(e) * PAGE_SIZE, (last - Start(e)) * PAGE_SIZE));
    }
  }

  lemma FreedEntry(n: Node, e: Entry, low: nat, r: Range)
    requires NodeOk(n) && low <= MAXMEM_PFN && low == n.lowPfn
    requires e.kind == E820_RAM && Start(e) < Min(End(e), low)
    requires r == Range(Start(e) * PAGE_SIZE, (Min(End(e), low) - Start(e)) * PAGE_SIZE)
    ensures r.base < TWO_32 && r.len < TWO_32
    ensures var m := Free(n, r.base, r.len);
            && NodeOk(m) && m == n.(bits := m.bits, lastSuccess := m.lastSuccess) && |m.bits| == |n.bits|
            && forall p :: 0 <= p < |n.bits| ==> (!m.bits[p] <==> !n.bits[p] || FreesPage(n.bits, e, low, p))
  {
    FreeExactIff(n, r.base, r.len);
    forall p | 0 <= p < |n.bits| ensures Freeable(n.bits, r, p) <==> FreesPage(n.bits, e, low, p) {
      FreeableInEntry(n.bits, e, low, r, p);
    }
  }

  /** Registering the entry frees the page: no page of the entry up to it is free yet. */
  ghost predicate FreesPage(bits: seq<bool>, e: Entry, low: nat, p: nat)
    requires p < |bits|
  {
    InEntry(e, low, p) && forall q :: Start(e) <= q <= p ==> bits[q]
  }

  lemma FreeableInEntry(bits: seq<bool>, e: Entry, low: nat, r: Range, p: nat)
    requires p < |bits| && e.kind == E820_RAM && Start(e) < Min(End(e), low)
    requires r == Range(Start(e) * PAGE_SIZE, (Min(End(e), low) - Start(e)) * PAGE_SIZE)
    ensures Freeable(bits, r, p) <==> FreesPage(bits, e, low, p)
  {
  }

  /** The node after the first `k` entries are registered on an all-reserved map. */
  function Register(n: Node, e820: seq<Entry>, k: nat, low: nat): (m: Node)
    requires NodeOk(n) && low <= MAXMEM_PFN && low == n.lowPfn && k <= |e820|
    ensures NodeOk(m) && m.lowPfn == low && |m.bits| == |n.bits|
    ensures m.lastPos == n.lastPos && m.lastOffset == n.lastOffset
  {
    if k == 0 then n else
      var m := Register(n, e820, k - 1, low);
      RegisterOneExact(m, e820[k - 1], low);
      RegisterOne(m, e820[k - 1], low)
  }

  /** One of the first `k` entries has the page. */
  ghost predicate Listed(e820: seq<Entry>, k: nat, low: nat, p: int)
    requires k <= |e820|
  {
    exists i :: 0 <= i < k && InEntry(e820[i], low, p)
  }

  ghost predicate AllReserved(n: Node) {
    forall p :: 0 <= p < |n.bits| ==> n.bits[p]
  }

  /** The free pages are exactly the listed ones, after every prefix of the map. */
  ghost predicate FreesListed(n: Node, e820: seq<Entry>, low: nat)
    requires NodeOk(n) && low <= MAXMEM_PFN && low == n.lowPfn
  {
    forall k, p :: 0 <= k <= |e820| && 0 <= p < |n.bits| ==>
      (!Register(n, e820, k, low).bits[p] <==> Listed(e820, k, low, p))
  }

  /** Where an entry meets pages listed before it, the rest of the entry is listed before it too. */
  ghost predicate OverlapsAtEnd(e820: seq<Entry>, low: nat) {
    forall k, p, q | 0 <= k < |e820| && InEntry(e820[k], low, p) && InEntry(e820[k], low, q) && p < q ::
      Listed(e820, k, low, p) ==> Listed(e820, k, low, q)
  }

  ghost predicate DisjointEntries(e820: seq<Entry>, low: nat) {
    forall i, j, p :: 0 <= i < j < |e820| && InEntry(e820[i], low, p) ==> !InEntry(e820[j], low, p)
  }

  /** No page outside the map's RAM ever becomes free. */
  lemma {:induction false} OnlyListedFree(n: Node, e820: seq<Entry>, k: nat, low: nat, p: nat)
    requires NodeOk(n) && AllReserved(n) && low <= MAXMEM_PFN && low == n.lowPfn && k <= |e820| && p < |n.bits|
    ensures !Register(n, e820, k, low).bits[p] ==> Listed(e820, k, low, p)
  {
    if k > 0 {
      OnlyListedFree(n, e820, k - 1, low, p);
      RegisterOneExact(Register(n, e820, k - 1, low), e820[k - 1], low);
    }
  }

  lemma {:induction false} ListedFree(n: Node, e820: seq<Entry>, k: nat, low: nat)
    requires NodeOk(n) && AllReserved(n) && low <= MAXMEM_PFN && low == n.lowPfn && k <= |e820|
    requires OverlapsAtEnd(e820, low)
    ensures forall p :: 0 <= p < |n.bits| && Listed(e820, k, low, p) ==> !Register(n, e820, k, low).bits[p]
  {
    if k > 0 {
      ListedFree(n, e820, k - 1, low);
      var m, e := Register(n, e820, k - 1, low), e820[k - 1];
      RegisterOneExact(m, e, low);
      forall p | 0 <= p < |n.bits| && Listed(e820, k, low, p) ensures !RegisterOne(m, e, low).bits[p] {
        if !Listed(e820, k - 1, low, p) {
          assert InEntry(e, low, p);
          forall q | Start(e) <= q <= p ensures m.bits[q] {
            OnlyListedFree(n, e820, k - 1, low, q);
            assert InEntry(e, low, q);
          }
        }
      }
    }
  }

  /**
   * Registering frees exactly the listed pages, at every point of the map, if and only if an
   * entry that meets pages listed earlier is listed from there to its end: freeing gives up
   * at the first page that is free already.
   */
  lemma FreesListedIff(n: Node, e820: seq<Entry>, low: nat)
    requires NodeOk(n) && AllReserved(n) && low <= MAXMEM_PFN && low == n.lowPfn
    ensures FreesListed(n, e820, low) <==> OverlapsAtEnd(e820, low)
  {
    if OverlapsAtEnd(e820, low) {
      forall k, p | 0 <= k <= |e820| && 0 <= p < |n.bits|
        ensures !Register(n, e820, k, low).bits[p] <==> Listed(e820, k, low, p)
      {
        ListedFree(n, e820, k, low);
        OnlyListedFree(n, e820, k, low, p);
      }
    }
    if FreesListed(n, e820, low) {
      forall k, p, q | 0 <= k < |e820| && InEntry(e820[k], low, p) && InEntry(e820[k], low, q)
                       && p < q && Listed(e820, k, low, p)
        ensures Listed(e820, k, low, q)
      {
        var m := Register(n, e820, k, low);
        RegisterOneExact(m, e820[k], low);
        assert Listed(e820, k + 1, low, q);
        assert !Register(n, e820, k + 1, low).bits[q];
        assert !m.bits[p];
      }
    }
  }

  /** The entry reaches the page: it has it, and no page of it up to there was reached before. */
  ghost predicate Reaches(e: Entry, low: nat, before: iset<int>, p: int) {
    InEntry(e, low, p) && forall q :: Start(e) <= q <= p ==> q !in before
  }

  /** The pages reached once the entry is registered as well. */
  ghost function ReachedWith(e: Entry, low: nat, before: iset<int>): iset<int> {
    before + iset p | Reaches(e, low, before, p)
  }

  /** The pages that the first `k` entries reach: freeing gives up where an earlier entry has been. */
  ghost function Reached(e820: seq<Entry>, k: nat, low: nat): iset<int>
    requires k <= |e820|
  {
    if k == 0 then iset{} else ReachedWith(e820[k - 1], low, Reached(e820, k - 1, low))
  }

  /** For every map, overlaps included, the free pages are exactly those reached. */
  lemma {:induction false} FreesReached(n: Node, e820: seq<Entry>, k: nat, low: nat)
    requires NodeOk(n) && AllReserved(n) && low <= MAXMEM_PFN && low == n.lowPfn && k <= |e820|
    ensures forall p :: 0 <= p < |n.bits| ==> (!Register(n, e820, k, low).bits[p] <==> p in Reached(e820, k, low))
  {
    if k > 0 {
      FreesReached(n, e820, k - 1, low);
      var m, e, before := Register(n, e820, k - 1, low), e820[k - 1], Reached(e820, k - 1, low);
      RegisterOneExact(m, e, low);
      forall p | 0 <= p < |n.bits| ensures FreesPage(m.bits, e, low, p) <==> Reaches(e, low, before, p) {
      }
    }
  }

  lemma {:induction false} ReachedListed(e820: seq<Entry>, k: nat, low: nat, p: int)
    requires k <= |e820|
    ensures p in Reached(e820, k, low) ==> Listed(e820, k, low, p)
  {
    if k > 0 {
      ReachedListed(e820, k - 1, low, p);
    }
  }

  /**
   * At the end of the map the free pages are exactly the listed ones if and only if every
   * listed page is reached by some entry, whatever happened to it on the way.
   */
  lemma EndFreesListedIff(n: Node, e820: seq<Entry>, low: nat)
    requires NodeOk(n) && AllReserved(n) && low <= MAXMEM_PFN && low == n.lowPfn
    ensures (forall p :: 0 <= p < low ==> (!Register(n, e820, |e820|, low).bits[p] <==> Listed(e820, |e820|, low, p)))
            <==> forall p :: 0 <= p < low && Listed(e820, |e820|, low, p) ==> p in Reached(e820, |e820|, low)
  {
    FreesReached(n, e820, |e820|, low);
    forall p | 0 <= p < low ensures p in Reached(e820, |e820|, low) ==> Listed(e820, |e820|, low, p) {
      ReachedListed(e820, |e820|, low, p);
    }
  }

  /** First and last page boundary of an entry, were page frame numbers unbounded. */
  function TrueStart(e: Entry): nat { (e.addr + PAGE_SIZE - 1) / PAGE_SIZE }

  function TrueEnd(e: Entry): nat { (e.addr + e.size) / PAGE_SIZE }

  /**
   * Wrapping the page numbers at 2^32 does no harm below `low`: neither end wraps, or only
   * the last and to beyond `low`, or the entry starts beyond `low` and wraps to nothing.
   */
  predicate PagesRight(e: Entry, low: nat) {
    var first, end := TrueStart(e), TrueEnd(e);
    || e.kind != E820_RAM
    || (first < low && (end < TWO_32 || end % TWO_32 >= low))
    || low <= first < TWO_32
    || (first >= TWO_32 && first % TWO_32 >= Min(end % TWO_32, low))
  }

  /** The page is one that the entry should free: it lies wholly in the entry's bytes. */
  ghost predicate CoveredBy(e: Entry, low: nat, p: nat) {
    e.kind == E820_RAM && p < low && Covers(Range(e.addr, e.size), p)
  }

  /**
   * An entry's pages are exactly the whole pages in it, if and only if neither wrap, at 2^64
   * bytes or at 2^32 pages, moves an end that counts.
   */
  lemma EntryPagesIff(e: Entry, low: nat)
    requires low <= TWO_32
    ensures (forall p: nat :: InEntry(e, low, p) <==> CoveredBy(e, low, p)) <==> PagesRight(e, low)
  {
    var start, end, trueStart, trueEnd := Start(e), Min(End(e), low), TrueStart(e), Min(TrueEnd(e), low);
    if e.kind == E820_RAM {
      forall p: nat
        ensures InEntry(e, low, p) <==> Within(start, p, end)
        ensures CoveredBy(e, low, p) <==> Within(trueStart, p, trueEnd)
      {
        CoversFrom(e, p);
      }
      WrappedEnds(e);
      SameIntervalIff(start, end, trueStart, trueEnd);
      RightIff(Start(e), End(e), TrueStart(e), TrueEnd(e), low);
      if PagesRight(e, low) {
        assert forall p: nat :: Within(start, p, end) <==> Within(trueStart, p, trueEnd);
      } else {
        var p: nat :| Within(start, p, end) != Within(trueStart, p, trueEnd);
        assert InEntry(e, low, p) != CoveredBy(e, low, p);
      }
    }
  }

  /** The wrap at 2^64 bytes is one of the wraps at 2^32 pages. */
  lemma WrappedEnds(e: Entry)
    ensures Start(e) == TrueStart(e) % TWO_32 && End(e) == TrueEnd(e) % TWO_32
  {
    WrapTwice(e.addr + PAGE_SIZE - 1);
    WrapTwice(e.addr + e.size);
  }

  lemma WrapTwice(x: nat)
    ensures x % TWO_64 / PAGE_SIZE % TWO_32 == x / PAGE_SIZE % TWO_32
  {
  }

  lemma CoversFrom(e: Entry, p: nat)
    ensures Covers(Range(e.addr, e.size), p) <==> TrueStart(e) <= p < TrueEnd(e)
  {
  }

  ghost predicate Within(a: nat, p: nat, b: nat) { a <= p < b }

  /** Two intervals have the same pages exactly if both are empty or their ends agree. */
  lemma SameIntervalIff(a: nat, b: nat, c: nat, d: nat)
    ensures (forall p: nat :: Within(a, p, b) <==> Within(c, p, d)) <==> (a >= b && c >= d) || (a == c && b == d)
  {
    if forall p: nat :: Within(a, p, b) <==> Within(c, p, d) {
      if a < b {
        assert Within(a, a, b) && Within(a, b - 1, b);
      }
      if c < d {
        assert Within(c, c, d) && Within(c, d - 1, d);
      }
    }
  }

  lemma RightIff(start: nat, end: nat, trueStart: nat, trueEnd: nat, low: nat)
    requires low <= TWO_32 && start == trueStart % TWO_32 && end == trueEnd % TWO_32
    ensures (start >= Min(end, low) && trueStart >= Min(trueEnd, low))
            || (start == trueStart && Min(end, low) == Min(trueEnd, low))
            <==> || (trueStart < low && (trueEnd < TWO_32 || trueEnd % TWO_32 >= low))
                 || low <= trueStart < TWO_32
                 || (trueStart >= TWO_32 && trueStart % TWO_32 >= Min(trueEnd % TWO_32, low))
  {
  }

  /**
   * After setup, for a map whose RAM entries share no page, a page is free exactly when it
   * is below the cap and wholly inside one RAM entry, in whatever order the entries come.
   */
  lemma SetupExact(n: Node, e820: seq<Entry>, p: nat)
    requires NodeOk(n) && AllReserved(n) && n.lowPfn == LowPfn(e820) && p < |n.bits|
    requires forall i :: 0 <= i < |e820| ==> PagesRight(e820[i], MAXMEM_PFN)
    requires DisjointEntries(e820, n.lowPfn)
    ensures !Register(n, e820, |e820|, n.lowPfn).bits[p]
            <==> exists i :: 0 <= i < |e820| && CoveredBy(e820[i], MAXMEM_PFN, p)
  {
    assert !Register(n, e820, |e820|, n.lowPfn).bits[p] <==> Listed(e820, |e820|, n.lowPfn, p) by {
      FreesListedIff(n, e820, n.lowPfn);
    }
    forall i | 0 <= i < |e820| ensures InEntry(e820[i], n.lowPfn, p) <==> CoveredBy(e820[i], MAXMEM_PFN, p) {
      CoveredBelowLow(e820, i, p);
    }
  }

  /** The pages of an entry below the cap are all below the end of low memory. */
  lemma CoveredBelowLow(e820: seq<Entry>, i: nat, p: nat)
    requires i < |e820| && PagesRight(e820[i], MAXMEM_PFN)
    ensures InEntry(e820[i], LowPfn(e820), p) <==> CoveredBy(e820[i], MAXMEM_PFN, p)
  {
    EntryPagesIff(e820[i], MAXMEM_PFN);
    MaxPfnIsMax(e820);
    assert InEntry(e820[i], MAXMEM_PFN, p) ==> Usable(e820[i]);
  }

  /** The page behind the first page tables, where the bitmap starts. */
  function MapStart(initPgTablesEnd: u32): nat {
    U32(initPgTablesEnd + PAGE_SIZE - 1) / PAGE_SIZE
  }

  /** The least page at or above the end of the tables; page 0 if rounding it up wraps. */
  lemma MapStartIsLeast(initPgTablesEnd: u32)
    ensures var start := MapStart(initPgTablesEnd) * PAGE_SIZE;
            if initPgTablesEnd <= TWO_32 - PAGE_SIZE then initPgTablesEnd <= start < initPgTablesEnd + PAGE_SIZE
            else start == 0
  {
  }

  /** The node that setup leaves, whatever it was before. */
  function BootNode(n: Node, e820: seq<Entry>): (m: Node)
    requires NodeOk(n)
    ensures NodeOk(m) && m.lowPfn == LowPfn(e820) && |m.bits| == 8 * BitmapBytes(LowPfn(e820))
    ensures m.lastPos == n.lastPos && m.lastOffset == n.lastOffset
  {
    Register(Initialised(n, LowPfn(e820)), e820, |e820|, LowPfn(e820))
  }

  /** The allocator after the first setup, with its bitmap in place. */
  function Booted(e820: seq<Entry>, memory: seq<byte>, mapstart: nat): Placed
    requires mapstart * PAGE_SIZE + BitmapBytes(LowPfn(e820)) <= |memory|
  {
    var n := BootNode(Node(0, [], 0, 0, 0), e820);
    Placed(Heap(n, [], Store(memory, mapstart * PAGE_SIZE, n.bits)), mapstart)
  }

  lemma BootedFresh(e820: seq<Entry>, memory: seq<byte>, mapstart: nat)
    requires |memory| == LOWMEM_PAGES * PAGE_SIZE
    requires mapstart * PAGE_SIZE + BitmapBytes(LowPfn(e820)) <= |memory|
    ensures Fresh(Booted(e820, memory, mapstart))
  {
    StoreEncodes(memory, mapstart * PAGE_SIZE, BootNode(Node(0, [], 0, 0, 0), e820).bits);
  }

  /** No page that the range touches is RAM of the map. */
  ghost predicate RangeUnlisted(e820: seq<Entry>, r: Range) {
    var low := LowPfn(e820);
    forall p :: 0 <= p < low && Touches(r, p) ==> !Listed(e820, |e820|, low, p)
  }

  ghost predicate MapUnlisted(e820: seq<Entry>, mapstart: nat) {
    RangeUnlisted(e820, Range(mapstart * PAGE_SIZE, BitmapBytes(LowPfn(e820))))
  }

  /** Which pages are free after a setup, whatever the node was before it. */
  lemma FreeAfterSetup(n: Node, e820: seq<Entry>)
    requires NodeOk(n)
    ensures var low := LowPfn(e820);
            forall p :: 0 <= p < low ==>
              && (!BootNode(n, e820).bits[p] <==> p in Reached(e820, |e820|, low))
              && (!BootNode(n, e820).bits[p] ==> Listed(e820, |e820|, low, p))
              && (OverlapsAtEnd(e820, low) ==> (!BootNode(n, e820).bits[p] <==> Listed(e820, |e820|, low, p)))
  {
    var low, m := LowPfn(e820), Initialised(n, LowPfn(e820));
    FreesReached(m, e820, |e820|, low);
    forall p | 0 <= p < low
      ensures !BootNode(n, e820).bits[p] ==> Listed(e820, |e820|, low, p)
      ensures OverlapsAtEnd(e820, low) ==> (!BootNode(n, e820).bits[p] <==> Listed(e820, |e820|, low, p))
    {
      OnlyListedFree(m, e820, |e820|, low, p);
      FreesListedIff(m, e820, low);
    }
  }

  /**
   * From boot on, with the bitmap where setup puts it: what callers hold after legal runs is
   * always disjoint, in low memory and on reserved pages, if and only if no page under the
   * bitmap became free.  For a map that loses no pages, that is if none is listed as RAM.
   * Whatever the map, it is so once the bitmap is reserved, if it lies in the node.
   */
  lemma BootIsSafeIff(e820: seq<Entry>, memory: seq<byte>, mapstart: nat)
    requires |memory| == LOWMEM_PAGES * PAGE_SIZE
    requires mapstart * PAGE_SIZE + BitmapBytes(LowPfn(e820)) <= |memory|
    ensures var s := Booted(e820, memory, mapstart);
            && Fresh(s) && (Safe(s) <==> MapReserved(s))
            && (Safe(s) <==> forall p :: 0 <= p < LowPfn(e820) && Touches(MapRange(s), p) ==>
                               p !in Reached(e820, |e820|, LowPfn(e820)))
            && (MapUnlisted(e820, mapstart) ==> Safe(s))
            && (OverlapsAtEnd(e820, LowPfn(e820)) ==> (Safe(s) <==> MapUnlisted(e820, mapstart)))
            && (Safe(StepAt(s, HoldMap(s))) <==>
                  Safe(s) || mapstart * PAGE_SIZE + BitmapBytes(LowPfn(e820)) <= LowPfn(e820) * PAGE_SIZE)
  {
    var s := Booted(e820, memory, mapstart);
    BootedFresh(e820, memory, mapstart);
    SafeIff(s);
    SafeOnceHeldIff(s);
    BootMapReserved(e820, memory, mapstart);
  }

  /** When the pages under the bitmap are reserved after boot. */
  lemma BootMapReserved(e820: seq<Entry>, memory: seq<byte>, mapstart: nat)
    requires |memory| == LOWMEM_PAGES * PAGE_SIZE
    requires mapstart * PAGE_SIZE + BitmapBytes(LowPfn(e820)) <= |memory|
    ensures var s, low := Booted(e820, memory, mapstart), LowPfn(e820);
            && Shaped(s) && MapRange(s) == Range(mapstart * PAGE_SIZE, BitmapBytes(low))
            && (MapReserved(s) <==> forall p :: 0 <= p < low && Touches(MapRange(s), p) ==>
                                      p !in Reached(e820, |e820|, low))
            && (MapUnlisted(e820, mapstart) ==> MapReserved(s))
            && (OverlapsAtEnd(e820, low) ==> (MapReserved(s) <==> MapUnlisted(e820, mapstart)))
  {
    FreeAfterSetup(Node(0, [], 0, 0, 0), e820);
  }

  /**
   * Nor does anything else in memory survive by being there.  With the bitmap on pages that
   * are not listed, another range, such as the first page tables, is never handed out if and
   * only if none of its pages became free; for a map that loses no pages, if none is listed.
   */
  lemma BootKeepsIff(e820: seq<Entry>, memory: seq<byte>, mapstart: nat, keep: Range)
    requires |memory| == LOWMEM_PAGES * PAGE_SIZE && keep.len > 0
    requires mapstart * PAGE_SIZE + BitmapBytes(LowPfn(e820)) <= |memory| && MapUnlisted(e820, mapstart)
    ensures var s, low := Booted(e820, memory, mapstart), LowPfn(e820);
            && (Keeps(s, keep) <==> forall p :: 0 <= p < low && Touches(keep, p) ==> s.heap.node.bits[p])
            && (RangeUnlisted(e820, keep) ==> Keeps(s, keep))
            && (OverlapsAtEnd(e820, low) ==> (Keeps(s, keep) <==> RangeUnlisted(e820, keep)))
  {
    var s := Booted(e820, memory, mapstart);
    BootedFresh(e820, memory, mapstart);
    FreeAfterSetup(Node(0, [], 0, 0, 0), e820);
    KeepsIff(s, keep);
  }

  /**
   * If a map lists one run of pages, apart from the bitmap, requests without a goal are
   * answered from boot on as by a bump pointer at the first of them.
   */
  lemma BumpAfterBoot(e820: seq<Entry>, memory: seq<byte>, mapstart: nat, first: nat, end: nat,
                     requests: seq<(u32, u32)>)
    requires |memory| == LOWMEM_PAGES * PAGE_SIZE
    requires mapstart * PAGE_SIZE + BitmapBytes(LowPfn(e820)) <= |memory| && MapUnlisted(e820, mapstart)
    requires OverlapsAtEnd(e820, LowPfn(e820)) && first <= end <= LowPfn(e820)
    requires forall p :: 0 <= p < LowPfn(e820) ==> (Listed(e820, |e820|, LowPfn(e820), p) <==> first <= p < end)
    requires forall r :: r in requests ==> 1 <= r.0 <= MAX_REQUEST && IsPow2(r.1) && r.1 <= PAGE_SIZE
    ensures var s := Booted(e820, memory, mapstart);
            Guarded(s) && Answers(s, requests) == BumpAll(Bump(first * PAGE_SIZE, end), requests)
  {
    var s := Booted(e820, memory, mapstart);
    BootedFresh(e820, memory, mapstart);
    FreeAfterSetup(Node(0, [], 0, 0, 0), e820);
    PageUpIs(first * PAGE_SIZE, first);
    assert Represents(s.heap.node, Bump(first * PAGE_SIZE, end));
    BumpRefinement(s, Bump(first * PAGE_SIZE, end), requests);
  }

  /** What is held lies below the cap, on pages that are not RAM of the map. */
  ghost predicate HeldUnlisted(live: seq<Range>, e820: seq<Entry>) {
    var low := LowPfn(e820);
    forall i :: 0 <= i < |live| ==>
      && live[i].base + live[i].len <= low * PAGE_SIZE
      && forall p :: 0 <= p < low && Touches(live[i], p) ==> !Listed(e820, |e820|, low, p)
  }

  /** What is held lies in the node, on reserved pages. */
  ghost predicate HeldReserved(live: seq<Range>, n: Node)
    requires NodeOk(n)
  {
    forall i :: 0 <= i < |live| ==>
      && live[i].base + live[i].len <= n.lowPfn * PAGE_SIZE
      && forall p :: 0 <= p < n.lowPfn && Touches(live[i], p) ==> n.bits[p]
  }

  /**
   * Setting up a second time frees what callers hold: for every map the heap stays sound
   * exactly when what is held lies on pages that do not become free; for a map that loses no
   * pages, when none of it lies on listed RAM.  The end of the last allocation is not forgotten
   * either; its page stays reserved exactly if it is not listed.
   */
  lemma SecondSetupIff(h: Heap, e820: seq<Entry>)
    requires Sound(h)
    ensures var low, t := LowPfn(e820), h.(node := BootNode(h.node, e820));
            && (Sound(t) <==> HeldReserved(h.live, t.node))
            && (HeldUnlisted(h.live, e820) ==> Sound(t))
            && (OverlapsAtEnd(e820, low) ==>
                  && (Sound(t) <==> HeldUnlisted(h.live, e820))
                  && (TailReserved(t.node) <==>
                        h.node.lastOffset == 0
                        || (h.node.lastPos < low && !Listed(e820, |e820|, low, h.node.lastPos))))
  {
    var t := h.(node := BootNode(h.node, e820));
    FreeAfterSetup(h.node, e820);
    assert Tail(t.node) == Tail(h.node);
    forall i | 0 <= i < |h.live|
      ensures Secure(t.node, h.live[i])
              <==> h.live[i].base + h.live[i].len <= t.node.lowPfn * PAGE_SIZE
                   && forall p :: 0 <= p < t.node.lowPfn && Touches(h.live[i], p) ==> t.node.bits[p]
    {
      assert Secure(h.node, h.live[i]);
    }
  }

  /** The allocator after another setup, which fills the same bitmap anew. */
  function Rebooted(s: Placed, e820: seq<Entry>): Placed
    requires NodeOk(s.heap.node) && At(s) + BitmapBytes(LowPfn(e820)) <= |s.heap.memory|
  {
    var n := BootNode(s.heap.node, e820);
    Placed(Heap(n, s.heap.live, Store(s.heap.memory, At(s), n.bits)), s.mapstart)
  }

  /**
   * With the bitmap in place: a guarded heap stays guarded, and so all later runs safe, exactly
   * when neither what is held nor the bitmap lies on pages that become free.
   */
  lemma RebootGuardedIff(s: Placed, e820: seq<Entry>)
    requires Guarded(s) && LowPfn(e820) == s.heap.node.lowPfn
    ensures var t := Rebooted(s, e820);
            && Shaped(t) && (Guarded(t) <==> HeldReserved(s.heap.live, t.heap.node) && MapReserved(t))
            && (Guarded(t) ==> Safe(t))
  {
    var t := Rebooted(s, e820);
    StoreEncodes(s.heap.memory, At(s), t.heap.node.bits);
    SecondSetupIff(s.heap, e820);
    SameButMemory(s.heap.(node := t.heap.node), t.heap);
    assert Tail(t.heap.node) == Tail(s.heap.node);
    if Guarded(t) {
      GuardedIsSafe(t);
    }
  }

  /** The globals that memory setup fills in. */
  class Globals {
    var e820: seq<Entry>
    var maxPfn: nat
    var maxLowPfn: nat
    var minLowPfn: nat
    var initPgTablesEnd: u32
    const bdata: Bootmem.BootmemData

    constructor (bdata: Bootmem.BootmemData, e820: seq<Entry>, initPgTablesEnd: u32)
      ensures this.bdata == bdata && this.e820 == e820 && this.initPgTablesEnd == initPgTablesEnd
    {
      this.bdata, this.e820, this.initPgTablesEnd := bdata, e820, initPgTablesEnd;
      maxPfn, maxLowPfn, minLowPfn := 0, 0, 0;
    }

    method FindMaxPfn()
      modifies this`maxPfn
      ensures maxPfn == MaxPfn(e820)
    {
      maxPfn := 0;
      var i := 0;
      while i < |e820|
        invariant 0 <= i <= |e820| && maxPfn == MaxPfn(e820[..i])
      {
        assert e820[..i + 1][..i] == e820[..i];
        if e820[i].kind == E820_RAM {
          var start, end := PfnUp(e820[i].addr), PfnDown(e820[i].addr + e820[i].size);
          if start < end && end > maxPfn {
            maxPfn := end;
          }
        }
        i := i + 1;
      }
      assert e820[..i] == e820;
    }

    /** Caps low memory, and with it all memory, at 896MB. */
    method FindMaxLowPfn() returns (low: nat)
      modifies this`maxPfn
      ensures low == maxPfn == Min(old(maxPfn), MAXMEM_PFN)
    {
      low := maxPfn;
      if low > MAXMEM_PFN {
        low := MAXMEM_PFN;
        maxPfn := MAXMEM_PFN;
      }
    }

    method RegisterEntry(e: Entry, low: nat)
      requires bdata.Valid() && low <= MAXMEM_PFN
      modifies bdata`lastSuccess, bdata`bits, bdata.memory
      ensures bdata.Valid() && bdata.View() == RegisterOne(old(bdata.View()), e, low)
      ensures bdata.OnlyBitsChanged(old(bdata.memory[..]))
    {
      if e.kind != E820_RAM {
        return;
      }
      var curr := Start(e);
      if curr >= low {
        return;
      }
      var last := End(e);
      if last >= low {
        last := low;
      }
      if last <= curr {
        return;
      }
      assert last == Min(End(e), low);
      bdata.FreeCore(curr * PAGE_SIZE, (last - curr) * PAGE_SIZE);
    }

    method RegisterBootmemLowPages(low: nat)
      requires bdata.Valid() && low <= MAXMEM_PFN && low == bdata.nodeLowPfn
      modifies bdata`lastSuccess, bdata`bits, bdata.memory
      ensures bdata.Valid() && bdata.View() == Register(old(bdata.View()), e820, |e820|, low)
      ensures bdata.OnlyBitsChanged(old(bdata.memory[..]))
    {
      ghost var n := bdata.View();
      var i := 0;
      while i < |e820|
        invariant 0 <= i <= |e820| && bdata.Valid()
        invariant bdata.View() == Register(n, e820, i, low) && bdata.OnlyBitsChanged(old(bdata.memory[..]))
      {
        RegisterEntry(e820[i], low);
        i := i + 1;
      }
    }

    method SetupMemory()
      requires bdata.Valid()
      requires MapStart(initPgTablesEnd) * PAGE_SIZE + BitmapBytes(LowPfn(e820)) <= bdata.memory.Length
      modifies this`maxPfn, this`maxLowPfn, this`minLowPfn, bdata, bdata.memory
      ensures bdata.Valid() && minLowPfn == MapStart(initPgTablesEnd) && maxLowPfn == maxPfn == LowPfn(e820)
      ensures bdata.View() == BootNode(old(bdata.View()), e820)
      ensures bdata.nodeBootmemMap == minLowPfn * PAGE_SIZE
      ensures bdata.memory[..] == Store(old(bdata.memory[..]), minLowPfn * PAGE_SIZE, bdata.View().bits)
      ensures old(bdata.View()) == Node(0, [], 0, 0, 0) ==>
                Placed(Heap(bdata.View(), [], bdata.memory[..]), minLowPfn)
                == Booted(e820, old(bdata.memory[..]), minLowPfn)
    {
      minLowPfn := U32(initPgTablesEnd + PAGE_SIZE - 1) / PAGE_SIZE;
      FindMaxPfn();
      maxLowPfn := FindMaxLowPfn();
      var bootmapSize := bdata.InitCore(minLowPfn, 0, maxLowPfn);
      RegisterBootmemLowPages(maxLowPfn);
      bdata.BitsStored(old(bdata.memory[..]));
    }
  }
}
