/** The boot memory allocator as the kernel runs it: one node's data, changed in place. */
module Bootmem {
  import opened Words
  import opened Align
  import opened BootmemModel
  import opened Bitmap
  import Bitops

  class BootmemData {
    var nodeBootStart: u32
    var nodeLowPfn: nat
    /** Where the bitmap lies: in the memory that it describes. */
    var nodeBootmemMap: nat
    /** Bytes of the bitmap, as initialisation returned them. */
    var mapsize: nat
    var lastOffset: nat
    var lastPos: nat
    var lastSuccess: nat
    /** The physical memory behind the kernel's linear mapping. */
    const memory: array<byte>

    /** The bits of the bitmap. */
    ghost var bits: seq<bool>

    /** The ghost bits are those that lie in memory. */
    ghost predicate Mapped()
      reads this, memory
    {
      && memory.Length == LOWMEM_PAGES * PAGE_SIZE
      && |bits| == 8 * mapsize && Encoded(memory[..], nodeBootmemMap, bits)
    }

    ghost predicate Valid()
      reads this, memory
    {
      nodeBootStart == 0 && Mapped() && NodeOk(View()) && mapsize == BitmapBytes(nodeLowPfn)
    }

    ghost function View(): Node
      reads this
    {
      Node(nodeLowPfn, bits, lastOffset, lastPos, lastSuccess)
    }

    /** Nothing but the bitmap is different from what memory was. */
    ghost predicate OnlyBitsChanged(was: seq<byte>)
      requires |was| == memory.Length
      reads this, memory
    {
      forall b :: 0 <= b < |was| && !(nodeBootmemMap <= b < nodeBootmemMap + mapsize) ==> memory[b] == was[b]
    }

    /** Memory is then what it was, with the bits stored in it. */
    lemma BitsStored(was: seq<byte>)
      requires Mapped() && |was| == memory.Length && OnlyBitsChanged(was)
      ensures memory[..] == Store(was, nodeBootmemMap, bits)
    {
      StoreUnique(was, memory[..], nodeBootmemMap, bits);
    }

    /** Static data: all zero, no bitmap yet. */
    constructor (memory: array<byte>)
      requires memory.Length == LOWMEM_PAGES * PAGE_SIZE
      ensures Valid() && this.memory == memory
      ensures View() == Node(0, [], 0, 0, 0)
    {
      this.memory := memory;
      nodeBootStart, nodeLowPfn, nodeBootmemMap, mapsize := 0, 0, 0, 0;
      lastOffset, lastPos, lastSuccess := 0, 0, 0;
      bits := [];
    }

    method InitCore(mapstart: nat, start: u32, end: nat) returns (size: nat)
      requires Valid() && start == 0 && end <= LOWMEM_PAGES
      requires mapstart * PAGE_SIZE + BitmapBytes(end) <= memory.Length
      modifies this, memory
      ensures Valid() && size == BitmapBytes(end) && nodeBootmemMap == mapstart * PAGE_SIZE
      ensures View() == Initialised(old(View()), end) && OnlyBitsChanged(old(memory[..]))
    {
      size := (end - start + 7) / 8;
      size := (size + 3) / 4 * 4;
      assert size == BitmapBytes(end);
      mapsize := size;
      nodeBootmemMap := mapstart * PAGE_SIZE;
      nodeBootStart := U32(start * PAGE_SIZE);
      nodeLowPfn := end;
      SetAll();
    }

    /** Fills the bitmap with ones. */
    method SetAll()
      requires nodeBootmemMap + mapsize <= memory.Length == LOWMEM_PAGES * PAGE_SIZE
      modifies this`bits, memory
      ensures Mapped() && bits == seq(8 * mapsize, _ => true) && OnlyBitsChanged(old(memory[..]))
    {
      SetBytes(nodeBootmemMap, 0xFF, mapsize);
      bits := seq(8 * mapsize, _ => true);
      OnesEncoded(memory[..], nodeBootmemMap, mapsize);
    }

    /** `memset`. */
    method SetBytes(addr: nat, value: byte, size: nat)
      requires addr + size <= memory.Length
      modifies memory
      ensures forall b :: 0 <= b < memory.Length ==>
                memory[b] == if addr <= b < addr + size then value else old(memory[b])
    {
      var b := addr;
      while b < addr + size
        invariant addr <= b <= addr + size
        invariant forall k :: 0 <= k < memory.Length ==>
                    memory[k] == if addr <= k < b then value else old(memory[k])
      {
        memory[b] := value;
        b := b + 1;
      }
    }

    /** `test_and_set_bit` and `test_and_clear_bit`: one bit changes, in the byte that holds it. */
    method WriteBit(i: nat, value: bool) returns (was: bool)
      requires Mapped() && i < |bits|
      modifies this`bits, memory
      ensures Mapped() && was == old(bits[i]) && bits == old(bits)[i := value]
      ensures OnlyBitsChanged(old(memory[..]))
    {
      var b := nodeBootmemMap + i / 8;
      EncodedAt(memory[..], nodeBootmemMap, bits, i);
      EncodedUpdate(memory[..], nodeBootmemMap, bits, i, value);
      was := Octet(memory[b])[i % 8];
      memory[b] := ByteOf(Octet(memory[b])[i % 8 := value]);
      bits := bits[i := value];
    }

    method ReserveCore(addr: u32, size: u32)
      requires Valid()
      modifies this`bits, memory
      ensures Valid() && View() == Reserve(old(View()), addr, size) && OnlyBitsChanged(old(memory[..]))
    {
      var sidx := U32(addr - nodeBootStart) / PAGE_SIZE;
      var eidx := U32(addr + size - nodeBootStart + PAGE_SIZE - 1) / PAGE_SIZE;
      var end := U32(addr + size + PAGE_SIZE - 1) / PAGE_SIZE;
      assert sidx == addr / PAGE_SIZE && eidx == end;
      ghost var n := View();
      ghost var m := Reserve(n, addr, size);
      if size == 0 || sidx >= eidx || addr / PAGE_SIZE >= nodeLowPfn || end > nodeLowPfn {
        return;
      }
      assert m == n.(bits := Marked(n.bits, sidx, eidx, true)) && NodeOk(m);
      SetRun(sidx, eidx);
      assert View() == m;
    }

    method SetRun(sidx: nat, eidx: nat)
      requires Mapped() && sidx <= eidx <= |bits|
      modifies this`bits, memory
      ensures Mapped() && bits == Marked(old(bits), sidx, eidx, true) && OnlyBitsChanged(old(memory[..]))
    {
      ghost var given := bits;
      var i := sidx;
      while i < eidx
        invariant sidx <= i <= eidx
        invariant Mapped() && bits == Marked(given, sidx, i, true) && OnlyBitsChanged(old(memory[..]))
      {
        var _ := WriteBit(i, true);
        i := i + 1;
      }
    }

    method FreeCore(addr: u32, size: u32)
      requires Valid()
      modifies this`lastSuccess, this`bits, memory
      ensures Valid() && View() == Free(old(View()), addr, size) && OnlyBitsChanged(old(memory[..]))
    {
      var eidx := U32(addr + size - nodeBootStart) / PAGE_SIZE;
      var end := U32(addr + size) / PAGE_SIZE;
      assert eidx == end;
      if end > nodeLowPfn {
        return;
      }
      if addr < lastSuccess {
        lastSuccess := addr;
      }
      var start := U32(addr + PAGE_SIZE - 1) / PAGE_SIZE;
      var sidx := start - nodeBootStart / PAGE_SIZE;
      assert sidx == start;
      ClearRun(sidx, eidx);
    }

    /** Clears pages from `sidx` and gives up at one that is already clear. */
    method ClearRun(sidx: nat, eidx: nat)
      requires Mapped() && eidx <= |bits|
      modifies this`bits, memory
      ensures Mapped() && bits == Marked(old(bits), sidx, FirstFree(old(bits), sidx, eidx), false)
      ensures OnlyBitsChanged(old(memory[..]))
    {
      ghost var given := bits;
      var i := sidx;
      while i < eidx
        invariant sidx <= i && (i == sidx || i <= eidx)
        invariant Mapped() && bits == Marked(given, sidx, i, false) && OnlyBitsChanged(old(memory[..]))
        invariant FirstFree(given, sidx, eidx) == FirstFree(given, i, eidx)
      {
        assert bits[i] == given[i];
        var was := WriteBit(i, false);
        if !was {
          return;
        }
        i := i + 1;
      }
    }

    /** The scan, from `preferred` and then once more from `offset`. */
    method FindPlace(eidx: nat, preferred: nat, offset: nat, incr: nat, areasize: nat, beyond: nat -> bool)
      returns (place: Option<nat>)
      requires Mapped() && eidx <= |bits| && incr >= 1 && areasize >= 1 && offset <= preferred
      requires preferred % incr == 0 && offset % incr == 0
      ensures var first := Scan(bits, eidx, preferred, incr, areasize);
              place == if first.Some? || preferred == offset then first
                       else Scan(bits, eidx, offset, incr, areasize)
    {
      var from := preferred;
      while true
        invariant from == preferred || from == offset
        invariant from != preferred ==> Scan(bits, eidx, preferred, incr, areasize).None?
        decreases from
      {
        place := ScanFrom(eidx, from, incr, areasize, beyond);
        if place.Some? || from <= offset {
          return;
        }
        from := offset;
      }
    }

    method ScanFrom(eidx: nat, preferred: nat, incr: nat, areasize: nat, beyond: nat -> bool)
      returns (place: Option<nat>)
      requires Mapped() && eidx <= |bits| && incr >= 1 && areasize >= 1 && preferred % incr == 0
      ensures place == Scan(bits, eidx, preferred, incr, areasize)
    {
      var i := preferred;
      while i < eidx
        invariant i % incr == 0
        invariant Scan(bits, eidx, preferred, incr, areasize) == Scan(bits, eidx, i, incr, areasize)
        decreases if i < eidx then eidx - i else 0
      {
        var found;
        found, i := ScanStep(eidx, i, incr, areasize, beyond);
        if found {
          return Some(i);
        }
      }
      return None;
    }

    /** One round of the scan: the page it settles on, or the page it goes on from. */
    method ScanStep(eidx: nat, from: nat, incr: nat, areasize: nat, beyond: nat -> bool)
      returns (found: bool, i: nat)
      requires Mapped() && from < eidx <= |bits| && incr >= 1 && areasize >= 1 && from % incr == 0
      ensures found ==> Scan(bits, eidx, from, incr, areasize) == Some(i)
      ensures !found ==> i > from && i % incr == 0
                         && Scan(bits, eidx, from, incr, areasize) == Scan(bits, eidx, i, incr, areasize)
    {
      i := SkipTaken(eidx, from, incr, areasize, beyond);
      var taken := Bitops.TestBit(memory, nodeBootmemMap, bits, mapsize, beyond, i);
      if taken {
        ModAddMultiple(i, incr);
        return false, i + incr;
      }
      var j := RunFrom(eidx, i, areasize, beyond);
      if j == i + areasize {
        return true, i;
      }
      j := RoundUp(j, incr);
      return false, j + incr;
    }

    /** The next candidate page: everything before it is taken. */
    method SkipTaken(eidx: nat, from: nat, incr: nat, areasize: nat, beyond: nat -> bool) returns (i: nat)
      requires Mapped() && from < eidx <= |bits| && incr >= 1 && from % incr == 0
      ensures i >= from && i % incr == 0
      ensures Scan(bits, eidx, from, incr, areasize) == Scan(bits, eidx, i, incr, areasize)
    {
      i := Bitops.FindNextZeroBit(memory, nodeBootmemMap, bits, mapsize, beyond, eidx, from);
      Bitops.NextNeverSkips(bits, beyond, eidx, from);
      assert forall k :: from <= k < i && k < |bits| ==> Bitops.Bit(bits, beyond, k) ==> bits[k];
      ScanSkips(bits, eidx, from, incr, areasize, i);
      i := RoundUp(i, incr);
    }

    static method RoundUp(x: nat, incr: nat) returns (r: nat)
      requires incr >= 1
      ensures r == AlignUp(x, incr) && r >= x && r % incr == 0 && (r + incr) % incr == 0
    {
      AlignUpLeast(x, incr);
      r := AlignUp(x, incr);
      ModAddMultiple(r, incr);
    }

    method RunFrom(eidx: nat, i: nat, areasize: nat, beyond: nat -> bool) returns (j: nat)
      requires Mapped() && eidx <= |bits|
      ensures j == RunEnd(bits, eidx, i, areasize)
    {
      j := i;
      while j < i + areasize
        invariant i <= j <= i + areasize
        invariant RunEnd(bits, eidx, i, areasize) == RunEnd(bits, eidx, j, i + areasize - j)
      {
        if j >= eidx {
          return;
        }
        var taken := Bitops.TestBit(memory, nodeBootmemMap, bits, mapsize, beyond, j);
        if taken {
          return;
        }
        j := j + 1;
      }
    }

    /** Reserves the pages found; that one of them is taken already is a BUG() that cannot be reached. */
    method ReserveFound(start: nat, areasize: nat)
      requires Mapped() && start + areasize <= |bits|
      requires forall k :: start <= k < start + areasize ==> !bits[k]
      modifies this`bits, memory
      ensures Mapped() && bits == Marked(old(bits), start, start + areasize, true) && OnlyBitsChanged(old(memory[..]))
    {
      ghost var given := bits;
      var i := start;
      while i < start + areasize
        invariant start <= i <= start + areasize
        invariant Mapped() && bits == Marked(given, start, i, true) && OnlyBitsChanged(old(memory[..]))
      {
        var was := WriteBit(i, true);
        if was {
          assert false;
        }
        i := i + 1;
      }
    }

    /** The page to start from: the goal, or beyond it where the last search succeeded. */
    method PreferredPage(align: u32, goal: u32) returns (page: nat)
      requires Valid()
      ensures page == Preferred(View(), align, goal)
    {
      var preferred := 0;
      if goal != 0 && goal >= nodeBootStart && goal / PAGE_SIZE < nodeLowPfn {
        preferred := goal - nodeBootStart;
        if lastSuccess >= preferred {
          preferred := lastSuccess;
        }
      }
      page := AlignUp(preferred, align) / PAGE_SIZE;
    }

    /** Bytes from the start of a node to the first aligned address in it. */
    static method NodeGap(bootStart: u32, align: u32) returns (offset: u32)
      ensures align == 0 || bootStart == 0 ==> offset == 0
      ensures align != 0 ==> offset < align && (bootStart + offset) % align == 0
    {
      offset := 0;
      if align != 0 {
        if bootStart % align != 0 {
          offset := align - bootStart % align;
          DivUnique(bootStart + offset, align, bootStart / align + 1, 0);
        }
      }
    }

    /** The page a request starts at, or may continue onto. */
    method Locate(areasize: nat, align: u32, goal: u32, beyond: nat -> bool) returns (place: Option<nat>)
      requires Valid() && areasize >= 1 && (align == 0 || IsPow2(align))
      ensures place == Place(View(), areasize, align, goal)
    {
      var eidx := nodeLowPfn - nodeBootStart / PAGE_SIZE;
      var offset := NodeGap(nodeBootStart, align);
      offset := offset / PAGE_SIZE;
      var preferred := PreferredPage(align, goal);
      preferred := preferred + offset;
      var incr := if align / PAGE_SIZE == 0 then 1 else align / PAGE_SIZE;
      PreferredAligned(View(), align, goal);
      place := FindPlace(eidx, preferred, offset, incr, areasize, beyond);
    }

    /** `__alloc_bootmem_core`, which clears the new block last. */
    method AllocCore(size: u32, align: u32, goal: u32, beyond: nat -> bool) returns (r: Outcome)
      requires Valid() && size <= MAX_REQUEST
      modifies this`lastOffset, this`lastPos, this`lastSuccess, this`bits, memory
      ensures Valid()
      ensures (r, View(), memory[..]) == AllocAt(old(View()), old(memory[..]), nodeBootmemMap, size, align, goal)
    {
      ghost var n, before := View(), memory[..];
      if size == 0 || !(align == 0 || IsPow2(align)) {
        NothingGranted(n, before, nodeBootmemMap, size, align, goal);
        return Bug;
      }
      PagesCoverIff(size);
      var areasize := Pages(size);
      var place := Locate(areasize, align, goal, beyond);
      if place.None? {
        NothingGranted(n, before, nodeBootmemMap, size, align, goal);
        return Null;
      }
      r := Grant(place.value, size, align, goal);
    }

    /** The rest of an allocation once its place is found. */
    method Grant(start: nat, size: u32, align: u32, ghost goal: u32) returns (r: Outcome)
      requires Valid() && 1 <= size <= MAX_REQUEST && (align == 0 || IsPow2(align))
      requires Place(View(), Pages(size), align, goal) == Some(start)
      modifies this`lastOffset, this`lastPos, this`lastSuccess, this`bits, memory
      ensures Valid()
      ensures (r, View(), memory[..]) == AllocAt(old(View()), old(memory[..]), nodeBootmemMap, size, align, goal)
    {
      ghost var n, before := View(), memory[..];
      ghost var (o, m) := Commit(n, start, size, align);
      PlaceFits(n, Pages(size), align, goal);
      CommitInNode(n, start, size, align);
      r := CommitAt(start, size, Pages(size), align);
      assert r == o && View() == m;
      BitsStored(before);
      ClearBlock(r.addr, size);
      PlaceGranted(n, before, nodeBootmemMap, size, align, goal, start);
    }

    /** Clears a block, and with it whatever part of the bitmap lies there. */
    method ClearBlock(addr: nat, size: nat)
      requires Valid() && addr + size <= memory.Length
      modifies this`bits, memory
      ensures Valid() && memory[..] == Zeroed(old(memory[..]), addr, size)
      ensures View() == old(View()).(bits := Wiped(old(bits), nodeBootmemMap, addr, size))
    {
      ghost var before := memory[..];
      SetBytes(addr, 0, size);
      assert memory[..] == Zeroed(before, addr, size);
      ZeroedWipes(before, nodeBootmemMap, bits, addr, size);
      bits := Wiped(bits, nodeBootmemMap, addr, size);
    }

    /** The part after `found:`: merges with the last allocation or starts on a fresh page. */
    method CommitAt(start: nat, size: u32, area: nat, align: u32) returns (r: Outcome)
      requires Valid() && 1 <= size <= MAX_REQUEST && area == Pages(size) && (align == 0 || IsPow2(align))
      requires start < nodeLowPfn && Fits(bits, nodeLowPfn, start, area)
      modifies this`lastOffset, this`lastPos, this`lastSuccess, this`bits, memory
      ensures Valid() && (r, View()) == Commit(old(View()), start, size, align) && OnlyBitsChanged(old(memory[..]))
    {
      ghost var plan := PlanFor(View(), start, size, align);
      PlanBounds(View(), start, size, align);
      assert start + plan.pages <= nodeLowPfn;
      lastSuccess := start * PAGE_SIZE;
      var addr, areasize := PlanAt(start, size, area, align);
      assert plan == Plan(addr, lastPos, lastOffset, areasize);
      r := Block(addr);
      ReserveFound(start, areasize);
    }

    method PlanAt(start: nat, size: u32, area: nat, align: u32) returns (ret: nat, areasize: nat)
      requires nodeBootStart == 0 && lastOffset < PAGE_SIZE
      requires 1 <= size <= MAX_REQUEST && area == Pages(size) && (align == 0 || IsPow2(align))
      modifies this`lastOffset, this`lastPos
      ensures PlanFor(old(View()), start, size, align) == Plan(ret, lastPos, lastOffset, areasize)
    {
      areasize := area;
      PagesCoverIff(size);
      if align < PAGE_SIZE && lastOffset != 0 && lastPos + 1 == start {
        OffsetInPage(lastOffset, align);
        var offset := AlignUp(lastOffset, align);
        if offset > PAGE_SIZE {
          assert false;
        }
        ret, areasize := ContinueAt(start, size, offset);
      } else {
        lastPos := start + areasize - 1;
        lastOffset := size % PAGE_SIZE;
        ret := start * PAGE_SIZE + nodeBootStart;
      }
    }

    method ContinueAt(start: nat, size: u32, offset: nat) returns (ret: nat, areasize: nat)
      requires nodeBootStart == 0 && start >= 1 && offset <= PAGE_SIZE
      modifies this`lastOffset, this`lastPos
      ensures Continued(old(View()), start, size, offset) == Plan(ret, lastPos, lastOffset, areasize)
    {
      var remaining := PAGE_SIZE - offset;
      ret := lastPos * PAGE_SIZE + offset + nodeBootStart;
      if size < remaining {
        areasize := 0;
        lastOffset := offset + size;
      } else {
        remaining := size - remaining;
        assert U32(remaining) == remaining;
        areasize := Pages(remaining);
        lastPos := start + areasize - 1;
        lastOffset := remaining;
      }
      lastOffset := lastOffset % PAGE_SIZE;
    }
  }
}
