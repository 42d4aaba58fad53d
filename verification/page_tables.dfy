/** Two-level page tables in physical memory, and what the processor reads out of them. */
module PageTables {
  import opened Words

  const ENTRIES := 1024
  const TABLE_SPAN := 0x40_0000
  /** Directory slot of PAGE_OFFSET, where the kernel's own mapping starts. */
  const KERNEL_SLOT := 768
  const PAGE_OFFSET := 0xC000_0000

  /** Physical memory as page frames of 32-bit words. */
  type Frames = array2<nat>

  /** The present bit of an entry. */
  predicate Present(entry: nat) { entry % 2 == 1 }

  /** The frame an entry points to; the low 12 bits are flags. */
  function FrameOf(entry: nat): nat { entry / PAGE_SIZE }

  /** The physical address of a linear one, by the directory and the table it selects. */
  ghost function Translate(dir: array<nat>, ram: Frames, a: u32): Option<nat>
    requires dir.Length == ENTRIES && ram.Length1 == ENTRIES
    reads dir, ram
  {
    var pde := dir[a / TABLE_SPAN];
    if !Present(pde) || FrameOf(pde) >= ram.Length0 then None
    else
      var pte := ram[FrameOf(pde), a / PAGE_SIZE % ENTRIES];
      if !Present(pte) then None else Some(FrameOf(pte) * PAGE_SIZE + a % PAGE_SIZE)
  }

  /** Every address below `limit` is mapped to itself, at 0 and again at PAGE_OFFSET. */
  ghost predicate DoublyMapped(dir: array<nat>, ram: Frames, limit: nat)
    requires dir.Length == ENTRIES && ram.Length1 == ENTRIES && limit <= TWO_32 - PAGE_OFFSET
    reads dir, ram
  {
    forall a :: 0 <= a < limit ==>
      Translate(dir, ram, a) == Some(a) && Translate(dir, ram, PAGE_OFFSET + a) == Some(a)
  }

  /** Every address below `limit` has a table entry with exactly these flags, at 0 and again at PAGE_OFFSET. */
  ghost predicate Flagged(dir: array<nat>, ram: Frames, limit: nat, flags: nat)
    requires dir.Length == ENTRIES && ram.Length1 == ENTRIES && limit <= TWO_32 - PAGE_OFFSET
    reads dir, ram
  {
    forall a :: 0 <= a < limit ==> FlagsTwice(dir, ram, a, flags)
  }

  ghost predicate FlagsTwice(dir: array<nat>, ram: Frames, a: nat, flags: nat)
    requires dir.Length == ENTRIES && ram.Length1 == ENTRIES && a < TWO_32 - PAGE_OFFSET
    reads dir, ram
  {
    FlagsAt(dir, ram, a, flags) && FlagsAt(dir, ram, PAGE_OFFSET + a, flags)
  }

  ghost predicate FlagsAt(dir: array<nat>, ram: Frames, a: u32, flags: nat)
    requires dir.Length == ENTRIES && ram.Length1 == ENTRIES
    reads dir, ram
  {
    var frame := FrameOf(dir[a / TABLE_SPAN]);
    frame < ram.Length0 && ram[frame, a / PAGE_SIZE % ENTRIES] % PAGE_SIZE == flags
  }

  /** Slot `i` of both halves selects a table whose entry `k` maps page 1024i + k with these flags. */
  ghost predicate TableMaps(dir: array<nat>, ram: Frames, i: nat, flags: nat, pages: nat)
    requires dir.Length == ENTRIES && ram.Length1 == ENTRIES && i < ENTRIES - KERNEL_SLOT
    reads dir, ram
  {
    && dir[i] == dir[KERNEL_SLOT + i] && Present(dir[i]) && FrameOf(dir[i]) < ram.Length0
    && forall k :: 0 <= k < ENTRIES && ENTRIES * i + k < pages ==>
         ram[FrameOf(dir[i]), k] == (ENTRIES * i + k) * PAGE_SIZE + flags
  }

  /** Which slot and entry an address selects, in either half. */
  lemma AddressSplit(a: nat)
    requires a < (ENTRIES - KERNEL_SLOT) * ENTRIES * PAGE_SIZE
    ensures var i, k := a / TABLE_SPAN, a / PAGE_SIZE % ENTRIES;
            && a / PAGE_SIZE == ENTRIES * i + k && i < ENTRIES - KERNEL_SLOT
            && (PAGE_OFFSET + a) / TABLE_SPAN == KERNEL_SLOT + i
            && (PAGE_OFFSET + a) / PAGE_SIZE % ENTRIES == k && (PAGE_OFFSET + a) % PAGE_SIZE == a % PAGE_SIZE
  {
  }

  lemma EntrySplit(page: nat, flags: nat)
    requires flags < PAGE_SIZE && Present(flags)
    ensures FrameOf(page * PAGE_SIZE + flags) == page && Present(page * PAGE_SIZE + flags)
    ensures (page * PAGE_SIZE + flags) % PAGE_SIZE == flags
  {
  }

  /** Tables that map each of their pages to itself translate every address. */
  lemma TablesTranslate(dir: array<nat>, ram: Frames, flags: nat, pages: nat, a: nat)
    requires dir.Length == ENTRIES && ram.Length1 == ENTRIES && flags < PAGE_SIZE && Present(flags)
    requires pages <= (ENTRIES - KERNEL_SLOT) * ENTRIES && a < pages * PAGE_SIZE
    requires forall i :: 0 <= i < ENTRIES - KERNEL_SLOT && ENTRIES * i < pages ==> TableMaps(dir, ram, i, flags, pages)
    ensures Translate(dir, ram, a) == Some(a) && Translate(dir, ram, PAGE_OFFSET + a) == Some(a)
    ensures FlagsTwice(dir, ram, a, flags)
  {
    var i, k := a / TABLE_SPAN, a / PAGE_SIZE % ENTRIES;
    AddressSplit(a);
    assert TableMaps(dir, ram, i, flags, pages);
    EntrySplit(ENTRIES * i + k, flags);
  }

  lemma TablesDoublyMap(dir: array<nat>, ram: Frames, flags: nat, pages: nat)
    requires dir.Length == ENTRIES && ram.Length1 == ENTRIES && flags < PAGE_SIZE && Present(flags)
    requires pages <= (ENTRIES - KERNEL_SLOT) * ENTRIES
    requires forall i :: 0 <= i < ENTRIES - KERNEL_SLOT && ENTRIES * i < pages ==> TableMaps(dir, ram, i, flags, pages)
    ensures DoublyMapped(dir, ram, pages * PAGE_SIZE) && Flagged(dir, ram, pages * PAGE_SIZE, flags)
  {
    forall a | 0 <= a < pages * PAGE_SIZE
      ensures Translate(dir, ram, a) == Some(a) && Translate(dir, ram, PAGE_OFFSET + a) == Some(a)
      ensures FlagsTwice(dir, ram, a, flags)
    {
      TablesTranslate(dir, ram, flags, pages, a);
    }
  }
}
