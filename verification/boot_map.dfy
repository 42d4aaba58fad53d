/** The first page tables, built by the startup code until they map themselves and some slack. */
module BootMap {
  import opened Words
  import opened BootmemModel
  import opened PageTables
  import BootmemPlaced
  import Setup

  const INIT_MAP_BEYOND_END := 1024 * 768
  const BOOT_FLAGS := 0x007

  /** `n` tables placed from `pg0` map themselves and the slack behind them. */
  predicate Enough(pg0: nat, n: nat) {
    TABLE_SPAN * n >= pg0 + PAGE_SIZE * n + INIT_MAP_BEYOND_END
  }

  /** As many tables as the directory has kernel slots are enough for this `pg0`. */
  predicate Bootable(pg0: nat) {
    pg0 % PAGE_SIZE == 0 && Enough(pg0, ENTRIES - KERNEL_SLOT)
  }

  /** Some number of tables is enough that the directory and the frames of memory have room for. */
  ghost predicate Room(pg0: nat, frames: nat) {
    && pg0 % PAGE_SIZE == 0
    && exists n :: 1 <= n <= ENTRIES - KERNEL_SLOT && Enough(pg0, n) && pg0 / PAGE_SIZE + n <= frames
  }

  /** Table `i` sits in frame `first + i`, is entered in both halves, and maps its 4MB to themselves. */
  ghost predicate BootTable(dir: array<nat>, ram: Frames, first: nat, i: nat)
    requires dir.Length == ENTRIES && ram.Length1 == ENTRIES
    reads dir, ram
  {
    var frame := first + i;
    && i < ENTRIES - KERNEL_SLOT && frame < ram.Length0
    && dir[i] == dir[KERNEL_SLOT + i] && dir[i] == frame * PAGE_SIZE + BOOT_FLAGS
    && forall k :: 0 <= k < ENTRIES ==> ram[frame, k] == (ENTRIES * i + k) * PAGE_SIZE + BOOT_FLAGS
  }

  lemma BootTableMaps(dir: array<nat>, ram: Frames, first: nat, i: nat, pages: nat)
    requires dir.Length == ENTRIES && ram.Length1 == ENTRIES && BootTable(dir, ram, first, i)
    ensures TableMaps(dir, ram, i, BOOT_FLAGS, pages)
  {
  }

  lemma BootTablesTranslate(dir: array<nat>, ram: Frames, first: nat, n: nat)
    requires dir.Length == ENTRIES && ram.Length1 == ENTRIES && n <= ENTRIES - KERNEL_SLOT
    requires forall i :: 0 <= i < n ==> BootTable(dir, ram, first, i)
    ensures DoublyMapped(dir, ram, TABLE_SPAN * n) && Flagged(dir, ram, TABLE_SPAN * n, BOOT_FLAGS)
    ensures forall i :: 0 <= i < n ==> dir[i] % PAGE_SIZE == BOOT_FLAGS
  {
    forall i | 0 <= i < n ensures dir[i] % PAGE_SIZE == BOOT_FLAGS {
      assert BootTable(dir, ram, first, i);
      EntrySplit(first + i, BOOT_FLAGS);
    }
    forall i | 0 <= i < ENTRIES - KERNEL_SLOT && ENTRIES * i < ENTRIES * n
      ensures TableMaps(dir, ram, i, BOOT_FLAGS, ENTRIES * n)
    {
      BootTableMaps(dir, ram, first, i, ENTRIES * n);
    }
    TablesDoublyMap(dir, ram, BOOT_FLAGS, ENTRIES * n);
    assert ENTRIES * n * PAGE_SIZE == TABLE_SPAN * n;
  }

  /** One round: enters the table at `edi` in both halves and fills it from `eax` on. */
  method BuildTable(dir: array<nat>, ram: Frames, first: nat, i: nat, edi: nat, eax: nat)
    requires dir.Length == ENTRIES && ram.Length1 == ENTRIES
    requires i < ENTRIES - KERNEL_SLOT && first + i < ram.Length0
    requires edi == (first + i) * PAGE_SIZE && eax == TABLE_SPAN * i + BOOT_FLAGS
    modifies dir, ram
    ensures BootTable(dir, ram, first, i)
    ensures forall j :: 0 <= j < i && old(BootTable(dir, ram, first, j)) ==> BootTable(dir, ram, first, j)
    ensures forall k :: 0 <= k < ENTRIES && k != i && k != KERNEL_SLOT + i ==> dir[k] == old(dir[k])
    ensures forall f, k :: 0 <= f < ram.Length0 && 0 <= k < ENTRIES && f != first + i ==> ram[f, k] == old(ram[f, k])
  {
    var ecx := edi + BOOT_FLAGS;
    dir[i] := ecx;
    dir[KERNEL_SLOT + i] := ecx;
    FillTable(ram, first + i, eax);
  }

  /** Labels 10 and 11.  Returns the address behind the last table, `init_pg_tables_end`. */
  method BuildBootTables(dir: array<nat>, ram: Frames, pg0: nat) returns (edi: nat, edx: nat)
    requires dir.Length == ENTRIES && ram.Length1 == ENTRIES && Room(pg0, ram.Length0)
    modifies dir, ram
    ensures 1 <= edx <= ENTRIES - KERNEL_SLOT && edi == pg0 + PAGE_SIZE * edx
    ensures Enough(pg0, edx) && forall m :: 1 <= m < edx ==> !Enough(pg0, m)
    ensures edx == LeastTables(pg0)
    ensures DoublyMapped(dir, ram, TABLE_SPAN * edx)
    // Present, writable and open to user mode, on both levels.
    ensures Flagged(dir, ram, TABLE_SPAN * edx, 7) && forall i :: 0 <= i < edx ==> dir[i] % PAGE_SIZE == 7
    ensures forall k :: edx <= k < KERNEL_SLOT || KERNEL_SLOT + edx <= k < ENTRIES ==> dir[k] == old(dir[k])
    ensures forall f, k :: 0 <= f < ram.Length0 && 0 <= k < ENTRIES && !(pg0 <= f * PAGE_SIZE < edi)
              ==> ram[f, k] == old(ram[f, k])
  {
    ghost var n :| 1 <= n <= ENTRIES - KERNEL_SLOT && Enough(pg0, n) && pg0 / PAGE_SIZE + n <= ram.Length0;
    var first := pg0 / PAGE_SIZE;
    var eax := BOOT_FLAGS;
    edi, edx := pg0, 0;
    var again := true;
    while again
      invariant edx <= n && (again ==> edx < n)
      invariant edi == pg0 + PAGE_SIZE * edx && eax == TABLE_SPAN * edx + BOOT_FLAGS
      invariant !again <==> edx >= 1 && Enough(pg0, edx)
      invariant forall m :: 1 <= m < edx ==> !Enough(pg0, m)
      invariant forall i :: 0 <= i < edx ==> BootTable(dir, ram, first, i)
      invariant forall k :: edx <= k < KERNEL_SLOT || KERNEL_SLOT + edx <= k < ENTRIES ==> dir[k] == old(dir[k])
      invariant forall f, k :: 0 <= f < ram.Length0 && 0 <= k < ENTRIES && !(first <= f < first + edx)
                  ==> ram[f, k] == old(ram[f, k])
      decreases ENTRIES - edx, again
    {
      BuildTable(dir, ram, first, edx, edi, eax);
      edi, eax, edx := edi + PAGE_SIZE, eax + TABLE_SPAN, edx + 1;
      var ecx := edi + INIT_MAP_BEYOND_END + BOOT_FLAGS;
      again := eax < ecx;
    }
    BootTablesTranslate(dir, ram, first, edx);
    LeastTablesIs(pg0, edx);
  }

  /** Each table maps 1024 pages and takes one; the slack is 192 pages. */
  function LeastTables(pg0: nat): nat {
    (pg0 / PAGE_SIZE + 192 + 1022) / 1023
  }

  lemma LeastTablesIs(pg0: nat, n: nat)
    requires pg0 % PAGE_SIZE == 0 && n >= 1 && Enough(pg0, n) && forall m :: 1 <= m < n ==> !Enough(pg0, m)
    ensures n == LeastTables(pg0)
  {
    if n > 1 {
      assert !Enough(pg0, n - 1);
    }
  }

  /** `stosl` 1024 times: consecutive pages from `eax` on. */
  method FillTable(ram: Frames, frame: nat, eax: nat)
    requires ram.Length1 == ENTRIES && frame < ram.Length0
    modifies ram
    ensures forall k :: 0 <= k < ENTRIES ==> ram[frame, k] == eax + k * PAGE_SIZE
    ensures forall f, k :: 0 <= f < ram.Length0 && 0 <= k < ENTRIES && f != frame ==> ram[f, k] == old(ram[f, k])
  {
    for k := 0 to ENTRIES
      invariant forall j :: 0 <= j < k ==> ram[frame, j] == eax + j * PAGE_SIZE
      invariant forall f, j :: 0 <= f < ram.Length0 && 0 <= j < ENTRIES && f != frame ==> ram[f, j] == old(ram[f, j])
    {
      ram[frame, k] := eax + k * PAGE_SIZE;
    }
  }

  /** The loop can stop inside the directory exactly when the whole directory would be enough. */
  lemma BootableIff(pg0: nat)
    requires pg0 % PAGE_SIZE == 0
    ensures (exists n :: 1 <= n <= ENTRIES - KERNEL_SLOT && Enough(pg0, n)) <==> Bootable(pg0)
  {
  }

  /** Low memory is capped, and so is the bitmap: at most 7 pages. */
  lemma BitmapIsSmall(e820: seq<Setup.Entry>)
    ensures BitmapBytes(Setup.LowPfn(e820)) <= 7 * PAGE_SIZE
  {
  }

  /**
   * The slack is enough for the allocator's bitmap, whatever the memory map: where setup puts
   * it, it starts where the tables end and ends inside what they map, and so in low memory.
   */
  lemma BitmapIsMapped(pg0: nat, n: nat, e820: seq<Setup.Entry>)
    requires Bootable(pg0) && 1 <= n <= ENTRIES - KERNEL_SLOT && Enough(pg0, n)
    ensures var end := pg0 + PAGE_SIZE * n;
            && end < TWO_32 && end == Setup.MapStart(end) * PAGE_SIZE
            && Setup.MapStart(end) * PAGE_SIZE + BitmapBytes(Setup.LowPfn(e820)) <= TABLE_SPAN * n
            && TABLE_SPAN * n <= LOWMEM_PAGES * PAGE_SIZE
  {
    BitmapIsSmall(e820);
    var end := pg0 + PAGE_SIZE * n;
    Setup.MapStartIsLeast(end);
    assert end % PAGE_SIZE == 0;
  }

  /**
   * The startup tables lie right before the bitmap, and nothing reserves them either: with the
   * bitmap itself on unlisted pages, blocks never lie on them exactly when, for a map that
   * loses no pages, none of their pages is listed.
   */
  lemma BootTablesKeptIff(pg0: nat, n: nat, e820: seq<Setup.Entry>, memory: seq<byte>)
    requires Bootable(pg0) && 1 <= n <= ENTRIES - KERNEL_SLOT && Enough(pg0, n)
    requires |memory| == LOWMEM_PAGES * PAGE_SIZE && Setup.OverlapsAtEnd(e820, Setup.LowPfn(e820))
    requires pg0 + PAGE_SIZE * n < TWO_32 && Setup.MapUnlisted(e820, Setup.MapStart(pg0 + PAGE_SIZE * n))
    ensures var mapstart, tables := Setup.MapStart(pg0 + PAGE_SIZE * n), Range(pg0, PAGE_SIZE * n);
            && mapstart * PAGE_SIZE + BitmapBytes(Setup.LowPfn(e820)) <= |memory|
            && (BootmemPlaced.Keeps(Setup.Booted(e820, memory, mapstart), tables)
                <==> Setup.RangeUnlisted(e820, tables))
  {
    BitmapIsMapped(pg0, n, e820);
    Setup.BootKeepsIff(e820, memory, Setup.MapStart(pg0 + PAGE_SIZE * n), Range(pg0, PAGE_SIZE * n));
  }
}
