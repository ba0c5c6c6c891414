/**
 * kernel/memory.c as it runs: globals updated in place, loops, and a halt where the kernel hangs.
 * Each method is proved to take exactly the step of its specification on the state it stands for.
 */
module Vmm {
  import opened Machine
  import opened Bitmap
  import opened Paging
  import opened Mapper
  import opened PagedMapper
  import opened HeapLayout
  import opened Heap
  import opened Boot

  ghost function MapPageSpec(paging: bool, s: Vm, va: Word, pa: Word): Result<Vm, Halt> {
    if paging then PagedMapPage(s, va, pa) else Mapper.MapPage(s, va, pa)
  }

  ghost function UnmapPageSpec(paging: bool, s: Vm, va: Word): Result<Vm, Halt> {
    if paging then PagedUnmapPage(s, va) else Mapper.UnmapPage(s, va)
  }

  class MemoryManager {
    const mem: array<Word>
    const pageDirectory: nat
    const firstPageTable: nat
    const secondPageTable: nat
    const pageTableBitmap: array<Word>
    const pageFrameBitmap: array<Word>
    var heapCurrent: Word
    var heapMapped: Word
    var paging: bool      // bit 31 of CR0: set by `enable_paging`, never cleared

    ghost predicate Valid() {
      && mem.Length == RAM_WORDS
      && pageTableBitmap.Length * WORD_BITS == TABLE_COUNT
      && pageFrameBitmap.Length * WORD_BITS == FRAME_COUNT
      && mem != pageTableBitmap && mem != pageFrameBitmap && pageTableBitmap != pageFrameBitmap
      && pageDirectory < PAGES && firstPageTable < PAGES && secondPageTable < PAGES
    }

    ghost function State(): Vm
      reads this, mem, pageTableBitmap, pageFrameBitmap
    {
      Vm(mem[..], pageDirectory, Bits(pageTableBitmap[..]), Bits(pageFrameBitmap[..]), heapCurrent, heapMapped)
    }

    /** Statics are zero before `init_paging`, as C promises. */
    constructor (ram: array<Word>, dir: nat, first: nat, second: nat)
      requires ram.Length == RAM_WORDS && dir < PAGES && first < PAGES && second < PAGES
      ensures Valid() && mem == ram && pageDirectory == dir && firstPageTable == first && secondPageTable == second
      ensures fresh(pageTableBitmap) && fresh(pageFrameBitmap)
      ensures State() == Vm(ram[..], dir, NoneSet(TABLE_COUNT), NoneSet(FRAME_COUNT), 0, 0) && !paging
    {
      mem := ram;
      pageDirectory, firstPageTable, secondPageTable := dir, first, second;
      pageTableBitmap := new Word[32](_ => 0);
      pageFrameBitmap := new Word[1848](_ => 0);
      heapCurrent, heapMapped := 0, 0;
      paging := false;
      new;
      ZeroWordsAreClear(pageTableBitmap[..]);
      ZeroWordsAreClear(pageFrameBitmap[..]);
    }

    method StoreWord(index: nat, w: Word)
      requires Valid()
      modifies mem
      ensures State() == old(State()).(mem := Store(old(mem[..]), index, w))
    {
      if index < mem.Length {
        mem[index] := w;
      }
    }

    function LoadWord(index: nat): (w: Word)
      reads mem
      ensures w == Load(mem[..], index)
    {
      if index < mem.Length then mem[index] else 0xFFFF_FFFF
    }

    /** The C expression `page[i]`: the processor walks the tables for it once paging is on. */
    method LoadEntry(page: nat, i: nat) returns (entry: Word, halt: Option<Halt>)
      requires Valid()
      ensures !paging ==> halt.None? && entry == Load(mem[..], EntryIndex(page, i))
      ensures paging ==> LoadThrough(State(), page, i) == if halt.None? then Ok(entry) else Stop(halt.value)
    {
      var x := page;
      if paging {
        var walk := Walk(mem[..], pageDirectory, page);
        if walk.None? {
          return 0, Some(PageFault);
        }
        x := walk.value;
      }
      entry := LoadWord(EntryIndex(x, i));
      return entry, None;
    }

    /** The C assignment `page[i] = entry`. */
    method StoreEntry(page: nat, i: nat, entry: Word) returns (halt: Option<Halt>)
      requires Valid()
      modifies mem
      ensures !paging ==> halt.None? && State() == old(State()).(mem := Store(old(mem[..]), EntryIndex(page, i), entry))
      ensures paging ==>
        StoreThrough(old(State()), page, i, entry) == if halt.None? then Ok(State()) else Stop(halt.value)
    {
      var x := page;
      if paging {
        var walk := Walk(mem[..], pageDirectory, page);
        if walk.None? {
          return Some(PageFault);
        }
        x := walk.value;
      }
      StoreWord(EntryIndex(x, i), entry);
      return None;
    }

    method PageTableAllocate() returns (table: Word, halt: Option<Halt>)
      requires Valid()
      modifies pageTableBitmap
      ensures match halt
        case None => Mapper.PageTableAllocate(old(State())) == Ok((State(), table))
        case Some(why) => Mapper.PageTableAllocate(old(State())) == Stop(why)
    {
      var index := Scan(pageTableBitmap);
      if index == -1 {
        return 0, Some(NoTables);
      }
      return Wrap(PAGE_TABLE_AREA_START + PAGE_SIZE * index), None;
    }

    method MapPage(virtualAddress: Word, physicalAddress: Word) returns (halt: Option<Halt>)
      requires Valid()
      modifies mem, pageTableBitmap
      ensures MapPageSpec(paging, old(State()), virtualAddress, physicalAddress) ==
        if halt.None? then Ok(State()) else Stop(halt.value)
    {
      hide Walk, SetPresent, SetReadWrite, Bits;
      if virtualAddress % PAGE_SIZE != 0 || physicalAddress % PAGE_SIZE != 0 {
        return Some(Unaligned);
      }
      AddressParts(virtualAddress);
      var slot := virtualAddress / 0x40_0000;
      var pde;
      pde, halt := LoadEntry(pageDirectory, slot);
      if halt.Some? {
        return;
      }
      if !Present(pde) {
        var table;
        table, halt := PageTableAllocate();
        if halt.Some? {
          return;
        }
        halt := StoreEntry(pageDirectory, slot, SetReadWrite(SetPresent(table)));
        if halt.Some? {
          return;
        }
        pde, halt := LoadEntry(pageDirectory, slot);
        if halt.Some? {
          return;
        }
      }
      halt := StoreEntry(PageOf(pde), virtualAddress / PAGE_SIZE % 0x400, SetReadWrite(SetPresent(physicalAddress)));
    }

    method UnmapPage(virtualAddress: Word) returns (halt: Option<Halt>)
      requires Valid()
      modifies mem
      ensures UnmapPageSpec(paging, old(State()), virtualAddress) ==
        if halt.None? then Ok(State()) else Stop(halt.value)
    {
      hide Walk, UnsetPresent, Bits;
      if virtualAddress % PAGE_SIZE != 0 {
        return Some(Unaligned);
      }
      AddressParts(virtualAddress);
      var pde;
      pde, halt := LoadEntry(pageDirectory, virtualAddress / 0x40_0000);
      if halt.Some? {
        return;
      }
      if !Present(pde) {
        return Some(NoDirectoryEntry);
      }
      var index := virtualAddress / PAGE_SIZE % 0x400;
      var entry;
      entry, halt := LoadEntry(PageOf(pde), index);
      if halt.Some? {
        return;
      }
      if !Present(entry) {
        return Some(NotMapped);
      }
      halt := StoreEntry(PageOf(pde), index, UnsetPresent(entry));
    }

    method IdentityMapRange(startAddress: Word, endAddress: Word) returns (halt: Option<Halt>)
      requires Valid() && endAddress <= LAST_BOUND && !paging
      modifies mem, pageTableBitmap
      ensures match halt
        case None => Boot.IdentityMapRange(old(State()), startAddress, endAddress) == Ok(State())
        case Some(why) => Boot.IdentityMapRange(old(State()), startAddress, endAddress) == Stop(why)
    {
      hide Mapper.MapPage;
      var address: Word := startAddress;
      while address < endAddress
        invariant Boot.IdentityMapRange(old(State()), startAddress, endAddress) ==
                  Boot.IdentityMapRange(State(), address, endAddress)
        decreases endAddress - address
      {
        halt := MapPage(address, address);
        if halt.Some? {
          return;
        }
        address := Wrap(address + PAGE_SIZE);
      }
      return None;
    }

    method StoreByteAt(physical: nat, b: Byte)
      requires Valid()
      modifies mem
      ensures mem[..] == StoreByte(old(mem[..]), physical, b)
    {
      StoreWord(physical / 4, WithByte(LoadWord(physical / 4), physical % 4, b));
    }

    /** `memset(address, 0, size)` on mapped memory: the processor walks the tables for every byte. */
    method Memset(address: Word, size: nat) returns (halt: Option<Halt>)
      requires Valid()
      modifies mem
      ensures match halt
        case None => ZeroBytes(old(mem[..]), pageDirectory, address, size) == Ok(mem[..])
        case Some(why) => ZeroBytes(old(mem[..]), pageDirectory, address, size) == Stop(why)
    {
      hide ZeroBytes, Translate, StoreByte;
      var i := 0;
      assert Wrap(address + i) == address;
      while i < size
        invariant 0 <= i <= size
        invariant ZeroBytes(old(mem[..]), pageDirectory, address, size) ==
                  ZeroBytes(mem[..], pageDirectory, Wrap(address + i), size - i)
      {
        ZeroBytesStep(mem[..], pageDirectory, Wrap(address + i), size - i);
        var physical := Translate(mem[..], pageDirectory, Wrap(address + i));
        if physical.None? {
          return Some(PageFault);
        }
        StoreByteAt(physical.value, 0);
        assert Wrap(Wrap(address + i) + 1) == Wrap(address + (i + 1));
        i := i + 1;
      }
      ZeroBytesStep(mem[..], pageDirectory, Wrap(address + i), 0);
      return None;
    }

    method PageFrameAllocate(virtualAddress: Word) returns (halt: Option<Halt>)
      requires Valid() && paging
      modifies mem, pageTableBitmap, pageFrameBitmap
      ensures match halt
        case None => Heap.PageFrameAllocate(old(State()), virtualAddress) == Ok(State())
        case Some(why) => Heap.PageFrameAllocate(old(State()), virtualAddress) == Stop(why)
    {
      hide PagedMapPage, ZeroBytes, Bits, FirstFree;
      if virtualAddress % PAGE_SIZE != 0 {
        return Some(Unaligned);
      }
      var index := Scan(pageFrameBitmap);
      if index == -1 {
        return Some(NoFrames);
      }
      halt := MapPage(virtualAddress, Wrap(FRAME_AREA_START + PAGE_SIZE * index));
      if halt.Some? {
        return;
      }
      halt := Memset(virtualAddress, PAGE_SIZE);
    }

    method HeapAllocate(size: Word) returns (address: Word, halt: Option<Halt>)
      requires Valid() && paging
      modifies this, mem, pageTableBitmap, pageFrameBitmap
      ensures match halt
        case None => Heap.HeapAllocate(old(State()), size) == Ok((State(), address))
        case Some(why) => Heap.HeapAllocate(old(State()), size) == Stop(why)
    {
      hide Heap.PageFrameAllocate, ZeroBytes;
      address := heapCurrent;
      if Wrap(heapCurrent + size) > HEAP_END {
        return address, Some(HeapOverflow);
      }
      ghost var top := Wrap(heapCurrent + size);
      while Wrap(heapCurrent + size) > heapMapped
        invariant heapCurrent == old(heapCurrent) && paging
        invariant GrowHeap(old(State()), top) == GrowHeap(State(), top)
        decreases top - heapMapped
      {
        halt := PageFrameAllocate(heapMapped);
        if halt.Some? {
          return;
        }
        heapMapped := Wrap(heapMapped + PAGE_SIZE);
      }
      halt := Memset(heapCurrent, size);
      if halt.Some? {
        return;
      }
      heapCurrent := Wrap(heapCurrent + size);
    }

    /** `memset(bitmap, 0, ...)` */
    method ClearBitmap(bitmap: array<Word>)
      requires Valid() && (bitmap == pageTableBitmap || bitmap == pageFrameBitmap)
      modifies bitmap
      ensures State() == if bitmap == pageTableBitmap
        then old(State()).(tables := NoneSet(TABLE_COUNT)) else old(State()).(frames := NoneSet(FRAME_COUNT))
    {
      var i := 0;
      while i < bitmap.Length
        invariant 0 <= i <= bitmap.Length
        invariant forall j :: 0 <= j < i ==> bitmap[j] == 0
      {
        bitmap[i] := 0;
        i := i + 1;
      }
      ZeroWordsAreClear(bitmap[..]);
    }

    /** `init_page_table_allocator` as written: map the area, then clear the bitmap. */
    method InitPageTableAllocator() returns (halt: Option<Halt>)
      requires Valid() && !paging
      modifies mem, pageTableBitmap
      ensures match halt
        case None => Boot.InitPageTableAllocator(old(State()), AsWritten) == Ok(State())
        case Some(why) => Boot.InitPageTableAllocator(old(State()), AsWritten) == Stop(why)
    {
      hide Boot.IdentityMapRange;
      halt := IdentityMapRange(PAGE_TABLE_AREA_START, PAGE_TABLE_AREA_END);
      if halt.None? {
        ClearBitmap(pageTableBitmap);
      }
    }

    method ClearPageDirectory()
      requires Valid()
      modifies mem
      ensures State() == old(State()).(mem := ClearDirectory(old(mem[..]), pageDirectory, ENTRIES))
    {
      var i := 0;
      while i < 1024
        invariant 0 <= i <= 1024
        invariant mem[..] == ClearDirectory(old(mem[..]), pageDirectory, i)
      {
        StoreWord(EntryIndex(pageDirectory, i), 2);
        i := i + 1;
      }
    }

    /** `init_paging` as written, from zero statics, to `enable_paging`. */
    method InitPaging() returns (halt: Option<Halt>)
      requires Valid()
      requires !paging && State() == Vm(mem[..], pageDirectory, NoneSet(TABLE_COUNT), NoneSet(FRAME_COUNT), 0, 0)
      modifies this, mem, pageTableBitmap, pageFrameBitmap
      ensures var m := Image(old(mem[..]), pageDirectory, firstPageTable, secondPageTable); match halt
        case None => Boot.InitPaging(m, AsWritten) == Ok(State()) && paging
        case Some(why) => Boot.InitPaging(m, AsWritten) == Stop(why)
    {
      hide Boot.IdentityMapRange, Mapper.MapPage, Boot.InitPageTableAllocator;
      ghost var m := Image(mem[..], pageDirectory, firstPageTable, secondPageTable);
      ClearPageDirectory();
      StoreWord(EntryIndex(pageDirectory, 0), TableEntryFor(firstPageTable));
      StoreWord(EntryIndex(pageDirectory, 1), TableEntryFor(secondPageTable));
      assert State() == BareDirectory(m);
      halt := IdentityMapRange(KERNEL_START, KERNEL_END);
      if halt.Some? {
        return;
      }
      ClearBitmap(pageFrameBitmap);
      halt := InitPageTableAllocator();
      if halt.Some? {
        return;
      }
      heapCurrent := HEAP_START;
      heapMapped := HEAP_START;
      halt := MapPage(VGA_BUFFER, VGA_BUFFER);
      if halt.None? {
        paging := true;
      }
    }
  }

  lemma {:induction false} ZeroHasNoBits(j: nat)
    ensures !TestBit(0, j)
  {
    if j > 0 {
      ZeroHasNoBits(j - 1);
    }
  }

  lemma ZeroWordsAreClear(words: seq<Word>)
    requires forall i :: 0 <= i < |words| ==> words[i] == 0
    ensures Bits(words) == NoneSet(|words| * WORD_BITS)
  {
    forall k | 0 <= k < |words| * WORD_BITS ensures !Bits(words)[k] {
      ZeroHasNoBits(k % WORD_BITS);
    }
  }
}
