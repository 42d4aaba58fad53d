/** `paging_init`: tables for all physical memory, entered at 0 and at PAGE_OFFSET. */
module Paging {
  import opened Words
  import opened PageTables

  /** Accessed, user, writable, present: the flags of directory and table entries alike. */
  const PAGE_TABLE := 0x27

  /** Directory slots that the memory below `endMem` needs. */
  function Slots(endMem: nat): (n: nat)
    ensures TABLE_SPAN * n >= endMem && (n > 0 ==> TABLE_SPAN * (n - 1) < endMem)
  {
    (endMem + TABLE_SPAN - 1) / TABLE_SPAN
  }

  /** Pages that start below `endMem`. */
  function PagesBelow(endMem: nat): (n: nat)
    ensures endMem <= n * PAGE_SIZE < endMem + PAGE_SIZE
  {
    (endMem + PAGE_SIZE - 1) / PAGE_SIZE
  }

  /** Slot `i` of the kernel's half of a directory. */
  function Slot(dir: seq<nat>, i: nat): nat
    requires |dir| == ENTRIES && i < ENTRIES - KERNEL_SLOT
  {
    dir[KERNEL_SLOT + i]
  }

  /** Empty kernel slots among the first `i`. */
  function Empty(dir: seq<nat>, i: nat): nat
    requires |dir| == ENTRIES && i <= ENTRIES - KERNEL_SLOT
  {
    if i == 0 then 0 else Empty(dir, i - 1) + (if Slot(dir, i - 1) == 0 then 1 else 0)
  }

  /** The empty kernel slots among the first `n`. */
  ghost function EmptySlots(dir: seq<nat>, n: nat): set<nat>
    requires |dir| == ENTRIES && n <= ENTRIES - KERNEL_SLOT
  {
    set i: nat | i < n && Slot(dir, i) == 0
  }

  lemma {:induction false} EmptyCounts(dir: seq<nat>, n: nat)
    requires |dir| == ENTRIES && n <= ENTRIES - KERNEL_SLOT
    ensures Empty(dir, n) == |EmptySlots(dir, n)|
  {
    if n == 0 {
      assert EmptySlots(dir, 0) == {};
    } else {
      EmptyCounts(dir, n - 1);
      assert EmptySlots(dir, n) == EmptySlots(dir, n - 1) + if Slot(dir, n - 1) == 0 then {n - 1} else {};
    }
  }

  /** The entry slot `i` ends up with: the one it has, or the next fresh frame. */
  function EntryFor(dir: seq<nat>, first: nat, i: nat): nat
    requires |dir| == ENTRIES && i < ENTRIES - KERNEL_SLOT
  {
    var present := Slot(dir, i);
    if present != 0 then present else (first + Empty(dir, i)) * PAGE_SIZE + PAGE_TABLE
  }

  /** What stands in a table for the page at `address`. */
  function PteFor(address: nat, endMem: nat): nat {
    if address < endMem then address + PAGE_TABLE else 0
  }

  /** Every table that the first `n` slots end up with is a frame of memory. */
  ghost predicate TablesInMemory(dir: seq<nat>, frames: nat, first: nat, n: nat)
    requires |dir| == ENTRIES && n <= ENTRIES - KERNEL_SLOT
  {
    forall i :: 0 <= i < n ==> FrameOf(EntryFor(dir, first, i)) < frames
  }

  /**
   * The tables already in the directory are present, different from each other and apart
   * from the fresh frames.
   */
  ghost predicate TablesUsable(dir: seq<nat>, first: nat, n: nat)
    requires |dir| == ENTRIES && n <= ENTRIES - KERNEL_SLOT
  {
    && (forall i :: 0 <= i < n && Slot(dir, i) != 0 ==>
          Present(Slot(dir, i)) && !(first <= FrameOf(Slot(dir, i)) < first + Empty(dir, n)))
    && (forall i, j :: 0 <= i < j < n && Slot(dir, i) != 0 && Slot(dir, j) != 0 ==>
          FrameOf(Slot(dir, i)) != FrameOf(Slot(dir, j)))
  }

  lemma {:induction false} EmptyGrows(dir: seq<nat>, i: nat, j: nat)
    requires |dir| == ENTRIES && i < j <= ENTRIES - KERNEL_SLOT
    ensures Empty(dir, i) + (if Slot(dir, i) == 0 then 1 else 0) <= Empty(dir, j)
  {
    if i + 1 < j {
      EmptyGrows(dir, i, j - 1);
    }
  }

  lemma FreshEntry(dir: seq<nat>, first: nat, i: nat, n: nat)
    requires |dir| == ENTRIES && i < n <= ENTRIES - KERNEL_SLOT
    ensures Slot(dir, i) == 0 ==>
              && Present(EntryFor(dir, first, i))
              && FrameOf(EntryFor(dir, first, i)) == first + Empty(dir, i) < first + Empty(dir, n)
  {
    EmptyGrows(dir, i, n);
    var entry := EntryFor(dir, first, i);
    if Slot(dir, i) == 0 {
      assert entry == 2 * ((first + Empty(dir, i)) * (PAGE_SIZE / 2) + 19) + 1;
    }
  }

  /** No two of the first `n` slots end up with the same table, and all are present. */
  ghost predicate EntriesApart(dir: seq<nat>, first: nat, n: nat)
    requires |dir| == ENTRIES && n <= ENTRIES - KERNEL_SLOT
  {
    && (forall i :: 0 <= i < n ==> Present(EntryFor(dir, first, i)))
    && (forall i, j :: 0 <= i < j < n ==> FrameOf(EntryFor(dir, first, i)) != FrameOf(EntryFor(dir, first, j)))
  }

  /** Every fresh frame is used by an empty slot. */
  lemma {:induction false} FreshSlot(dir: seq<nat>, m: nat, n: nat) returns (j: nat)
    requires |dir| == ENTRIES && n <= ENTRIES - KERNEL_SLOT && m < Empty(dir, n)
    ensures j < n && Slot(dir, j) == 0 && Empty(dir, j) == m
  {
    if m < Empty(dir, n - 1) {
      j := FreshSlot(dir, m, n - 1);
    } else {
      j := n - 1;
    }
  }

  /** An old table among the fresh frames is made a table again. */
  lemma FreshTableShared(dir: seq<nat>, first: nat, n: nat, i: nat)
    requires |dir| == ENTRIES && i < n <= ENTRIES - KERNEL_SLOT
    requires Slot(dir, i) != 0 && first <= FrameOf(Slot(dir, i)) < first + Empty(dir, n)
    ensures !EntriesApart(dir, first, n)
  {
    var j := FreshSlot(dir, FrameOf(Slot(dir, i)) - first, n);
    FreshEntry(dir, first, j, n);
    assert i != j && FrameOf(EntryFor(dir, first, i)) == FrameOf(EntryFor(dir, first, j));
  }

  /** Old and fresh tables stay apart exactly if the old ones are apart from each other and the fresh frames. */
  lemma EntriesApartIff(dir: seq<nat>, first: nat, n: nat)
    requires |dir| == ENTRIES && n <= ENTRIES - KERNEL_SLOT
    ensures EntriesApart(dir, first, n) <==> TablesUsable(dir, first, n)
  {
    if TablesUsable(dir, first, n) {
      UsableApart(dir, first, n);
    }
    if EntriesApart(dir, first, n) {
      forall i | 0 <= i < n && Slot(dir, i) != 0 ensures !(first <= FrameOf(Slot(dir, i)) < first + Empty(dir, n)) {
        if first <= FrameOf(Slot(dir, i)) < first + Empty(dir, n) {
          FreshTableShared(dir, first, n, i);
        }
      }
      forall i, j | 0 <= i < j < n && Slot(dir, i) != 0 && Slot(dir, j) != 0
        ensures FrameOf(Slot(dir, i)) != FrameOf(Slot(dir, j))
      {
        assert FrameOf(EntryFor(dir, first, i)) != FrameOf(EntryFor(dir, first, j));
      }
      assert forall i :: 0 <= i < n && Slot(dir, i) != 0 ==> EntryFor(dir, first, i) == Slot(dir, i);
    }
  }

  lemma UsableApart(dir: seq<nat>, first: nat, n: nat)
    requires |dir| == ENTRIES && n <= ENTRIES - KERNEL_SLOT && TablesUsable(dir, first, n)
    ensures EntriesApart(dir, first, n)
  {
    forall i | 0 <= i < n ensures Present(EntryFor(dir, first, i)) {
      FreshEntry(dir, first, i, n);
    }
    forall i, j | 0 <= i < j < n ensures FrameOf(EntryFor(dir, first, i)) != FrameOf(EntryFor(dir, first, j)) {
      FreshEntry(dir, first, i, n);
      FreshEntry(dir, first, j, n);
      EmptyGrows(dir, i, j);
    }
  }

  /** Slot `i` is entered in both halves. */
  ghost predicate SlotEntered(dir: array<nat>, was: seq<nat>, first: nat, i: nat)
    requires dir.Length == ENTRIES && |was| == ENTRIES
    reads dir
  {
    i < ENTRIES - KERNEL_SLOT && dir[i] == dir[KERNEL_SLOT + i] == EntryFor(was, first, i)
  }

  /** The table of slot `i` is filled with the slot's own pages. */
  ghost predicate SlotFilled(ram: Frames, was: seq<nat>, first: nat, endMem: nat, i: nat)
    requires ram.Length1 == ENTRIES && |was| == ENTRIES
    reads ram
  {
    && i < ENTRIES - KERNEL_SLOT && FrameOf(EntryFor(was, first, i)) < ram.Length0
    && forall k :: 0 <= k < ENTRIES ==>
         ram[FrameOf(EntryFor(was, first, i)), k] == PteFor((ENTRIES * i + k) * PAGE_SIZE, endMem)
  }

  /** No slot from `i` on, below `n`, has the same table. */
  ghost predicate LastUser(was: seq<nat>, first: nat, i: nat, n: nat)
    requires |was| == ENTRIES && i < n <= ENTRIES - KERNEL_SLOT
  {
    forall j :: i < j < n ==> FrameOf(EntryFor(was, first, j)) != FrameOf(EntryFor(was, first, i))
  }

  /** The inner loop: the whole table, from `address` on, with zeroes past the end of memory. */
  method FillTable(ram: Frames, frame: nat, address: nat, endMem: nat)
    requires ram.Length1 == ENTRIES && frame < ram.Length0
    modifies ram
    ensures forall k :: 0 <= k < ENTRIES ==> ram[frame, k] == PteFor(address + k * PAGE_SIZE, endMem)
    ensures forall f, k :: 0 <= f < ram.Length0 && 0 <= k < ENTRIES && f != frame ==> ram[f, k] == old(ram[f, k])
  {
    var tmp, a := 0, address;
    while tmp < ENTRIES
      invariant 0 <= tmp <= ENTRIES && a == address + tmp * PAGE_SIZE
      invariant forall k :: 0 <= k < tmp ==> ram[frame, k] == PteFor(address + k * PAGE_SIZE, endMem)
      invariant forall f, k :: 0 <= f < ram.Length0 && 0 <= k < ENTRIES && f != frame ==> ram[f, k] == old(ram[f, k])
    {
      if a < endMem {
        ram[frame, tmp] := a + PAGE_TABLE;
      } else {
        ram[frame, tmp] := 0;
      }
      a := a + PAGE_SIZE;
      tmp := tmp + 1;
    }
  }

  /** The first `n` slots are entered, and their tables filled for the last slot that has them. */
  ghost predicate Mapped(dir: array<nat>, ram: Frames, was: seq<nat>, first: nat, endMem: nat, n: nat)
    requires dir.Length == ENTRIES && ram.Length1 == ENTRIES && |was| == ENTRIES && n <= ENTRIES - KERNEL_SLOT
    reads dir, ram
  {
    && (forall i :: 0 <= i < n ==> SlotEntered(dir, was, first, i))
    && forall i :: 0 <= i < n && LastUser(was, first, i, n) ==> SlotFilled(ram, was, first, endMem, i)
  }

  /** Every one of the first `n` slots has a table of its own, filled with its own pages. */
  ghost predicate OwnTables(dir: array<nat>, ram: Frames, was: seq<nat>, first: nat, endMem: nat, n: nat)
    requires dir.Length == ENTRIES && ram.Length1 == ENTRIES && |was| == ENTRIES && n <= ENTRIES - KERNEL_SLOT
    reads dir, ram
  {
    && (forall i :: 0 <= i < n ==> SlotFilled(ram, was, first, endMem, i))
    && forall i, j :: 0 <= i < j < n ==> FrameOf(dir[i]) != FrameOf(dir[j])
  }

  /** One round of the outer loop, for directory slot `i`. */
  method MapSlot(dir: array<nat>, ram: Frames, ghost was: seq<nat>, ghost first: nat, i: nat,
                 startMem: nat, endMem: nat)
    returns (next: nat)
    requires dir.Length == ENTRIES && ram.Length1 == ENTRIES && |was| == ENTRIES && i < ENTRIES - KERNEL_SLOT
    requires FrameOf(EntryFor(was, first, i)) < ram.Length0
    requires dir[KERNEL_SLOT + i] == Slot(was, i) && startMem == (first + Empty(was, i)) * PAGE_SIZE
    modifies dir, ram
    ensures next == (first + Empty(was, i + 1)) * PAGE_SIZE
    ensures SlotEntered(dir, was, first, i) && SlotFilled(ram, was, first, endMem, i)
    ensures forall j :: 0 <= j < i && old(SlotEntered(dir, was, first, j)) ==> SlotEntered(dir, was, first, j)
    ensures forall j :: 0 <= j < i && old(SlotFilled(ram, was, first, endMem, j))
                        && FrameOf(EntryFor(was, first, j)) != FrameOf(EntryFor(was, first, i))
              ==> SlotFilled(ram, was, first, endMem, j)
    ensures forall k :: 0 <= k < ENTRIES && k != i && k != KERNEL_SLOT + i ==> dir[k] == old(dir[k])
    ensures forall f, k :: 0 <= f < ram.Length0 && 0 <= k < ENTRIES && f != FrameOf(EntryFor(was, first, i))
              ==> ram[f, k] == old(ram[f, k])
  {
    var tmp := dir[KERNEL_SLOT + i];
    next := startMem;
    if tmp == 0 {
      tmp := startMem + PAGE_TABLE;
      dir[KERNEL_SLOT + i] := tmp;
      next := next + PAGE_SIZE;
    }
    dir[i] := tmp;
    FillTable(ram, FrameOf(tmp), TABLE_SPAN * i, endMem);
  }

  /** The round keeps what the earlier ones have mapped. */
  method MapNext(dir: array<nat>, ram: Frames, ghost was: seq<nat>, ghost first: nat, i: nat,
                 startMem: nat, endMem: nat)
    returns (next: nat)
    requires dir.Length == ENTRIES && ram.Length1 == ENTRIES && |was| == ENTRIES && i < ENTRIES - KERNEL_SLOT
    requires FrameOf(EntryFor(was, first, i)) < ram.Length0 && Mapped(dir, ram, was, first, endMem, i)
    requires dir[KERNEL_SLOT + i] == Slot(was, i) && startMem == (first + Empty(was, i)) * PAGE_SIZE
    modifies dir, ram
    ensures next == (first + Empty(was, i + 1)) * PAGE_SIZE && Mapped(dir, ram, was, first, endMem, i + 1)
    ensures forall k :: 0 <= k < ENTRIES && k != i && k != KERNEL_SLOT + i ==> dir[k] == old(dir[k])
    ensures forall f, k :: 0 <= f < ram.Length0 && 0 <= k < ENTRIES && f != FrameOf(EntryFor(was, first, i))
              ==> ram[f, k] == old(ram[f, k])
  {
    OneMoreUser(was, first, i);
    next := MapSlot(dir, ram, was, first, i, startMem, endMem);
  }

  /** The frame holds one of the first `n` tables. */
  ghost predicate IsTable(was: seq<nat>, first: nat, n: nat, f: nat)
    requires |was| == ENTRIES && n <= ENTRIES - KERNEL_SLOT
  {
    exists i :: 0 <= i < n && FrameOf(EntryFor(was, first, i)) == f
  }

  /**
   * Maps all memory below `endMem`, at most the gigabyte that fits above slot 768.  Returns
   * the first address behind the tables it had to add.  The mapping is right exactly if the
   * tables already there are usable: a table shared by two slots is filled for the last one.
   */
  method PagingInit(dir: array<nat>, ram: Frames, startMem: nat, endMem: nat) returns (r: nat)
    requires dir.Length == ENTRIES && ram.Length1 == ENTRIES && Slots(endMem) <= ENTRIES - KERNEL_SLOT
    requires TablesInMemory(dir[..], ram.Length0, PagesBelow(startMem), Slots(endMem))
    modifies dir, ram
    ensures r == (PagesBelow(startMem) + |EmptySlots(old(dir[..]), Slots(endMem))|) * PAGE_SIZE
    ensures DoublyMapped(dir, ram, PagesBelow(endMem) * PAGE_SIZE)
            <==> TablesUsable(old(dir[..]), PagesBelow(startMem), Slots(endMem))
    ensures Mapped(dir, ram, old(dir[..]), PagesBelow(startMem), endMem, Slots(endMem))
    ensures TablesUsable(old(dir[..]), PagesBelow(startMem), Slots(endMem)) ==>
              && OwnTables(dir, ram, old(dir[..]), PagesBelow(startMem), endMem, Slots(endMem))
              // Accessed, user, writable, present; and nothing behind the end of memory.
              && Flagged(dir, ram, PagesBelow(endMem) * PAGE_SIZE, 0x27)
              && Unmapped(dir, ram, PagesBelow(endMem) * PAGE_SIZE, TABLE_SPAN * Slots(endMem))
    ensures forall i :: 0 <= i < Slots(endMem) ==> Kept(dir, old(dir[..]), PagesBelow(startMem), i)
    ensures forall k :: Slots(endMem) <= k < KERNEL_SLOT || KERNEL_SLOT + Slots(endMem) <= k < ENTRIES
              ==> dir[k] == old(dir[k])
    ensures forall f, k | 0 <= f < ram.Length0 && 0 <= k < ENTRIES ::
              !IsTable(old(dir[..]), PagesBelow(startMem), Slots(endMem), f) ==> ram[f, k] == old(ram[f, k])
  {
    ghost var was, n := dir[..], Slots(endMem);
    ghost var first := PagesBelow(startMem);
    r := (startMem + PAGE_SIZE - 1) / PAGE_SIZE * PAGE_SIZE;
    var address, i := 0, 0;
    while address < endMem
      invariant i <= n && address == TABLE_SPAN * i
      invariant r == (first + Empty(was, i)) * PAGE_SIZE
      invariant Mapped(dir, ram, was, first, endMem, i)
      invariant forall k :: i <= k < KERNEL_SLOT || KERNEL_SLOT + i <= k < ENTRIES ==> dir[k] == was[k]
      invariant forall f, k :: 0 <= f < ram.Length0 && 0 <= k < ENTRIES && !IsTable(was, first, i, f)
                  ==> ram[f, k] == old(ram[f, k])
    {
      r := MapNext(dir, ram, was, first, i, r, endMem);
      OneMoreTable(was, first, i);
      address := address + TABLE_SPAN;
      i := i + 1;
    }
    MappedIff(dir, ram, was, first, endMem);
    EmptyCounts(was, n);
    SlotsKept(dir, ram, was, first, endMem);
  }

  lemma OneMoreUser(was: seq<nat>, first: nat, i: nat)
    requires |was| == ENTRIES && i < ENTRIES - KERNEL_SLOT
    ensures forall j :: 0 <= j < i && LastUser(was, first, j, i + 1) ==>
              LastUser(was, first, j, i) && FrameOf(EntryFor(was, first, j)) != FrameOf(EntryFor(was, first, i))
  {
  }

  lemma OneMoreTable(was: seq<nat>, first: nat, n: nat)
    requires |was| == ENTRIES && n < ENTRIES - KERNEL_SLOT
    ensures IsTable(was, first, n + 1, FrameOf(EntryFor(was, first, n)))
    ensures forall f :: IsTable(was, first, n, f) ==> IsTable(was, first, n + 1, f)
  {
  }

  lemma SlotsTranslate(dir: array<nat>, ram: Frames, was: seq<nat>, first: nat, endMem: nat)
    requires dir.Length == ENTRIES && ram.Length1 == ENTRIES && |was| == ENTRIES
    requires Slots(endMem) <= ENTRIES - KERNEL_SLOT && EntriesApart(was, first, Slots(endMem))
    requires Mapped(dir, ram, was, first, endMem, Slots(endMem))
    ensures DoublyMapped(dir, ram, PagesBelow(endMem) * PAGE_SIZE)
    ensures Flagged(dir, ram, PagesBelow(endMem) * PAGE_SIZE, PAGE_TABLE)
  {
    var pages := PagesBelow(endMem);
    forall i | 0 <= i < ENTRIES - KERNEL_SLOT && ENTRIES * i < pages
      ensures TableMaps(dir, ram, i, PAGE_TABLE, pages)
    {
      assert i < Slots(endMem);
      assert LastUser(was, first, i, Slots(endMem));
      assert SlotEntered(dir, was, first, i) && SlotFilled(ram, was, first, endMem, i);
    }
    assert pages <= (ENTRIES - KERNEL_SLOT) * ENTRIES;
    TablesDoublyMap(dir, ram, PAGE_TABLE, pages);
  }

  /** Both halves have the old table, or the fresh frame behind those of the empty slots before. */
  ghost predicate Kept(dir: array<nat>, was: seq<nat>, first: nat, i: nat)
    requires dir.Length == ENTRIES && |was| == ENTRIES && i < ENTRIES - KERNEL_SLOT
    reads dir
  {
    && dir[i] == dir[KERNEL_SLOT + i]
    && (was[KERNEL_SLOT + i] != 0 ==> dir[i] == was[KERNEL_SLOT + i])
    && (was[KERNEL_SLOT + i] == 0 ==>
          // Accessed, user, writable, present.
          dir[i] % PAGE_SIZE == 0x27 && FrameOf(dir[i]) == first + |EmptySlots(was, i)|)
  }

  lemma SlotsKept(dir: array<nat>, ram: Frames, was: seq<nat>, first: nat, endMem: nat)
    requires dir.Length == ENTRIES && ram.Length1 == ENTRIES && |was| == ENTRIES
    requires Slots(endMem) <= ENTRIES - KERNEL_SLOT && Mapped(dir, ram, was, first, endMem, Slots(endMem))
    ensures forall i :: 0 <= i < Slots(endMem) ==> Kept(dir, was, first, i)
  {
    forall i | 0 <= i < Slots(endMem) ensures Kept(dir, was, first, i) {
      assert SlotEntered(dir, was, first, i);
      EmptyCounts(was, i);
      EntrySplit(first + Empty(was, i), PAGE_TABLE);
    }
  }

  /** No address from `from` to `limit` is mapped, in either half. */
  ghost predicate Unmapped(dir: array<nat>, ram: Frames, from: nat, limit: nat)
    requires dir.Length == ENTRIES && ram.Length1 == ENTRIES && limit <= TWO_32 - PAGE_OFFSET
    reads dir, ram
  {
    forall a :: from <= a < limit ==> NothingAt(dir, ram, a)
  }

  ghost predicate NothingAt(dir: array<nat>, ram: Frames, a: nat)
    requires dir.Length == ENTRIES && ram.Length1 == ENTRIES && a < TWO_32 - PAGE_OFFSET
    reads dir, ram
  {
    Translate(dir, ram, a) == None && Translate(dir, ram, PAGE_OFFSET + a) == None
  }

  /** The rest of the last table, behind the end of memory, maps nothing. */
  lemma RestUnmapped(dir: array<nat>, ram: Frames, was: seq<nat>, first: nat, endMem: nat)
    requires dir.Length == ENTRIES && ram.Length1 == ENTRIES && |was| == ENTRIES
    requires Slots(endMem) <= ENTRIES - KERNEL_SLOT && EntriesApart(was, first, Slots(endMem))
    requires Mapped(dir, ram, was, first, endMem, Slots(endMem))
    ensures Unmapped(dir, ram, PagesBelow(endMem) * PAGE_SIZE, TABLE_SPAN * Slots(endMem))
  {
    forall a | PagesBelow(endMem) * PAGE_SIZE <= a < TABLE_SPAN * Slots(endMem) ensures NothingAt(dir, ram, a) {
      var i := a / TABLE_SPAN;
      assert i < Slots(endMem) && LastUser(was, first, i, Slots(endMem));
      assert SlotEntered(dir, was, first, i) && SlotFilled(ram, was, first, endMem, i);
      NothingBehind(dir, ram, was, first, endMem, a);
    }
  }

  lemma NothingBehind(dir: array<nat>, ram: Frames, was: seq<nat>, first: nat, endMem: nat, a: nat)
    requires dir.Length == ENTRIES && ram.Length1 == ENTRIES && |was| == ENTRIES
    requires endMem <= a && PagesBelow(endMem) * PAGE_SIZE <= a < (ENTRIES - KERNEL_SLOT) * TABLE_SPAN
    requires SlotEntered(dir, was, first, a / TABLE_SPAN) && SlotFilled(ram, was, first, endMem, a / TABLE_SPAN)
    ensures NothingAt(dir, ram, a)
  {
    AddressSplit(a);
    var i, k := a / TABLE_SPAN, a / PAGE_SIZE % ENTRIES;
    PageStart(endMem, a);
    assert ram[FrameOf(dir[i]), k] == PteFor((ENTRIES * i + k) * PAGE_SIZE, endMem) == 0;
  }

  /** The page of an address behind the last page of memory starts behind memory. */
  lemma PageStart(endMem: nat, a: nat)
    requires PagesBelow(endMem) * PAGE_SIZE <= a
    ensures a / PAGE_SIZE * PAGE_SIZE >= endMem
  {
  }

  /** The last slot with the table of slot `i`. */
  lemma {:induction false} LastUserOf(was: seq<nat>, first: nat, i: nat, n: nat) returns (k: nat)
    requires |was| == ENTRIES && i < n <= ENTRIES - KERNEL_SLOT
    ensures i <= k < n && FrameOf(EntryFor(was, first, k)) == FrameOf(EntryFor(was, first, i))
    ensures LastUser(was, first, k, n)
    decreases n - i
  {
    k := i;
    if j :| i < j < n && FrameOf(EntryFor(was, first, j)) == FrameOf(EntryFor(was, first, i)) {
      k := LastUserOf(was, first, j, n);
    }
  }

  /** A table that is not present translates nothing, and a shared one translates a slot to another's pages. */
  lemma SharedSlotsFail(dir: array<nat>, ram: Frames, was: seq<nat>, first: nat, endMem: nat)
    requires dir.Length == ENTRIES && ram.Length1 == ENTRIES && |was| == ENTRIES
    requires Slots(endMem) <= ENTRIES - KERNEL_SLOT && !EntriesApart(was, first, Slots(endMem))
    requires Mapped(dir, ram, was, first, endMem, Slots(endMem))
    ensures !DoublyMapped(dir, ram, PagesBelow(endMem) * PAGE_SIZE)
  {
    var n := Slots(endMem);
    if i :| 0 <= i < n && !Present(EntryFor(was, first, i)) {
      assert SlotEntered(dir, was, first, i);
      FirstAddress(dir, ram, i, endMem);
    } else {
      var i, j :| 0 <= i < j < n && FrameOf(EntryFor(was, first, i)) == FrameOf(EntryFor(was, first, j));
      var k := LastUserOf(was, first, j, n);
      assert SlotEntered(dir, was, first, i) && SlotFilled(ram, was, first, endMem, k);
      TakenSlotFails(dir, ram, was, first, endMem, i, k);
    }
  }

  lemma TakenSlotFails(dir: array<nat>, ram: Frames, was: seq<nat>, first: nat, endMem: nat, i: nat, k: nat)
    requires dir.Length == ENTRIES && ram.Length1 == ENTRIES && |was| == ENTRIES
    requires i < k < Slots(endMem) <= ENTRIES - KERNEL_SLOT
    requires FrameOf(EntryFor(was, first, k)) == FrameOf(EntryFor(was, first, i))
    requires SlotEntered(dir, was, first, i) && SlotFilled(ram, was, first, endMem, k)
    ensures Translate(dir, ram, TABLE_SPAN * i) != Some(TABLE_SPAN * i)
    ensures TABLE_SPAN * i < PagesBelow(endMem) * PAGE_SIZE
  {
    assert ram[FrameOf(dir[i]), 0] == PteFor(ENTRIES * k * PAGE_SIZE, endMem);
    FirstAddress(dir, ram, i, endMem);
    FirstAddress(dir, ram, k, endMem);
    EntrySplit(ENTRIES * k, PAGE_TABLE);
  }

  lemma MappedIff(dir: array<nat>, ram: Frames, was: seq<nat>, first: nat, endMem: nat)
    requires dir.Length == ENTRIES && ram.Length1 == ENTRIES && |was| == ENTRIES
    requires Slots(endMem) <= ENTRIES - KERNEL_SLOT
    requires Mapped(dir, ram, was, first, endMem, Slots(endMem))
    ensures DoublyMapped(dir, ram, PagesBelow(endMem) * PAGE_SIZE) <==> TablesUsable(was, first, Slots(endMem))
    ensures TablesUsable(was, first, Slots(endMem)) ==>
              && OwnTables(dir, ram, was, first, endMem, Slots(endMem))
              && Flagged(dir, ram, PagesBelow(endMem) * PAGE_SIZE, PAGE_TABLE)
              && Unmapped(dir, ram, PagesBelow(endMem) * PAGE_SIZE, TABLE_SPAN * Slots(endMem))
  {
    EntriesApartIff(was, first, Slots(endMem));
    if EntriesApart(was, first, Slots(endMem)) {
      assert forall i :: 0 <= i < Slots(endMem) ==> LastUser(was, first, i, Slots(endMem));
      forall i, j | 0 <= i < j < Slots(endMem) ensures FrameOf(dir[i]) != FrameOf(dir[j]) {
        assert SlotEntered(dir, was, first, i) && SlotEntered(dir, was, first, j);
      }
      SlotsTranslate(dir, ram, was, first, endMem);
      RestUnmapped(dir, ram, was, first, endMem);
    } else {
      SharedSlotsFail(dir, ram, was, first, endMem);
    }
  }

  /** What the first address of slot `i` translates to. */
  lemma FirstAddress(dir: array<nat>, ram: Frames, i: nat, endMem: nat)
    requires dir.Length == ENTRIES && ram.Length1 == ENTRIES && i < Slots(endMem) <= ENTRIES - KERNEL_SLOT
    ensures TABLE_SPAN * i < endMem && TABLE_SPAN * i < PagesBelow(endMem) * PAGE_SIZE < TWO_32
    ensures Translate(dir, ram, TABLE_SPAN * i)
            == if !Present(dir[i]) || FrameOf(dir[i]) >= ram.Length0 then None
               else if !Present(ram[FrameOf(dir[i]), 0]) then None
               else Some(FrameOf(ram[FrameOf(dir[i]), 0]) * PAGE_SIZE)
  {
    SlotStart(i, endMem);
  }

  lemma SlotStart(i: nat, endMem: nat)
    requires i < Slots(endMem) <= ENTRIES - KERNEL_SLOT
    ensures TABLE_SPAN * i < endMem && TABLE_SPAN * i < PagesBelow(endMem) * PAGE_SIZE < TWO_32
    ensures TABLE_SPAN * i / TABLE_SPAN == i && TABLE_SPAN * i % PAGE_SIZE == 0
    ensures TABLE_SPAN * i / PAGE_SIZE % ENTRIES == 0
  {
    assert TABLE_SPAN * i / PAGE_SIZE == ENTRIES * i;
  }
}
