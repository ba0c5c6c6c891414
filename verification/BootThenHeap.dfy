/** The heap from boot onwards: what every run keeps, and what the init order costs. */
module BootThenHeap {
  import opened Machine
  import opened Bitmap
  import opened Paging
  import opened Mapper
  import opened PagingRuns
  import opened HeapLayout
  import opened Heap
  import opened HeapRuns
  import opened Boot

  /** Boot, then run: the outcome is that of a growing byte sequence, in either init order. */
  lemma BootThenRun(m: Image, order: InitOrder, ops: seq<HeapOp>)
    requires Bootable(m) && StoresIntoBlocks(Client([], []), ops)
    ensures InitPaging(m, order).Ok?
    ensures var s := InitPaging(m, order).value;
      Agrees(s, order, HeapRun(s, [], ops), ClientRun(Client([], []), ops))
  {
    InitPagingCorrect(m, order);
    hide InitPaging, HeapInv, HeapRun, Bootable, WellFormed;
    HeapRunRefinesClient(InitPaging(m, order).value, order, Client([], []), ops);
  }

  /** The heap is mapped up to the page boundary at or above its bytes, each address 0x0E700000 lower. */
  lemma HeapInNumbers(t: Vm, order: InitOrder, size: nat)
    requires HeapInv(t, order) && t.heapCurrent == 0x0F00_0000 + size
    ensures t.heapMapped == (0x0F00_0000 + size + 4095) / 4096 * 4096
    ensures forall a: Word :: 0x0F00_0000 <= a < 0x0F00_0000 + size ==>
      Translate(t.mem, t.dir, a) == Some(a - 0x0E70_0000)
  {
    hide TablesLaidOut, Translate;
    var k := HeapPagesMapped(t);
    assert t.heapMapped == HEAP_START + PAGE_SIZE * k;
    forall a: Word | 0x0F00_0000 <= a < 0x0F00_0000 + size
      ensures Translate(t.mem, t.dir, a) == Some(a - 0x0E70_0000)
    {
      HeapTranslation(t, order, k, a);
    }
  }

  /** The first allocation after boot, in numbers: up to 32 MiB from 0x0F000000, in frames from 0x00900000. */
  lemma FirstAllocation(m: Image, order: InitOrder, size: Word)
    requires Bootable(m)
    ensures InitPaging(m, order).Ok?
    ensures match HeapAllocate(InitPaging(m, order).value, size)
      case Ok((t, address)) =>
        && size <= 0x0200_0000 && address == 0x0F00_0000 && t.heapCurrent == 0x0F00_0000 + size
        && t.heapMapped == (0x0F00_0000 + size + 4095) / 4096 * 4096
        && forall a: Word :: 0x0F00_0000 <= a < 0x0F00_0000 + size ==>
             Translate(t.mem, t.dir, a) == Some(a - 0x0E70_0000)
      case Stop(why) => size > 0x0200_0000 && why == if size < 0xF100_0000 then HeapOverflow else PageFault
  {
    hide InitPaging, HeapAllocate, HeapInv, WellFormed, Translate, TableClear, FrameByte;
    InitPagingCorrect(m, order);
    var s := InitPaging(m, order).value;
    HeapAllocateRefines(s, order, [], size);
    if size <= 0x0200_0000 {
      HeapInNumbers(HeapAllocate(s, size).value.0, order, size);
    }
  }

  /** The heap's pages translate linearly in every reachable state, and nothing beyond Expected is mapped. */
  lemma HeapAddresses(s: Vm, order: InitOrder, address: Word)
    requires HeapInv(s, order)
    ensures HEAP_START <= address < s.heapMapped ==> Translate(s.mem, s.dir, address) == Some(address - HEAP_SHIFT)
    ensures Translate(s.mem, s.dir, address).Some? <==>
      Expected(order, HeapPagesMapped(s), address / PAGE_SIZE).Some?
  {
    var v := address / PAGE_SIZE;
    assert Walk(s.mem, s.dir, v) == Expected(order, HeapPagesMapped(s), v);
  }

  /**
   * `map_page` and the allocators reach the directory and the tables through virtual addresses.
   * The page they mean is the page they reach: each of them is mapped to itself, now and later.
   */
  lemma StructuresMapToThemselves(s: Vm, order: InitOrder)
    requires HeapInv(s, order)
    ensures Walk(s.mem, s.dir, s.dir) == Some(s.dir)
    ensures forall d: nat :: d < ENTRIES && Present(Slot(s.mem, s.dir, d)) ==>
      Walk(s.mem, s.dir, PageOf(Slot(s.mem, s.dir, d))) == Some(PageOf(Slot(s.mem, s.dir, d)))
    ensures s.heapMapped < HEAP_END ==>
      var t := TableFor(s, SlotOf(s.heapMapped / PAGE_SIZE)); Walk(s.mem, s.dir, t) == Some(t)
  {
    var k := HeapPagesMapped(s);
    if s.heapMapped < HEAP_END {
      NextHeapTable(s, order, k);
      assert s.heapMapped / PAGE_SIZE == HEAP_PAGE + k;
    }
    hide Walk;
    assert forall page: nat :: KERNEL_PAGE <= page < KERNEL_PAGE_END || TABLE_AREA_PAGE <= page < 0x800 ==>
      Walk(s.mem, s.dir, page) == Some(page);
  }

  /** The table area is mapped to itself if and only if the bitmap was cleared first or the heap is unused. */
  lemma TableAreaIntact(s: Vm, order: InitOrder)
    requires HeapInv(s, order)
    ensures (forall v: nat :: TABLE_AREA_PAGE <= v < TABLE_AREA_PAGE_END ==> Walk(s.mem, s.dir, v) == Some(v))
      <==> order.ClearFirst? || s.heapMapped == HEAP_START
  {
    var k := HeapPagesMapped(s);
    assert s.heapMapped == HEAP_START <==> k == 0;
    assert Walk(s.mem, s.dir, 0x800) == Expected(order, k, 0x800);
    hide Walk;
  }

  /** In the written order the next table is the one slot 2 is using. */
  lemma NextTableIsLive(s: Vm)
    requires HeapInv(s, AsWritten) && s.heapMapped == HEAP_START
    ensures PageTableAllocate(s).Ok? && PageTableAllocate(s).value.1 == 0x0050_0000
    ensures Present(Slot(s.mem, s.dir, 2)) && PageOf(Slot(s.mem, s.dir, 2)) * PAGE_SIZE == 0x0050_0000
  {
    FirstFitKeepsPrefix(s.tables, 0);
  }

  /** Hence the first heap page moves virtual 0x00800000 to physical 0x00900000. */
  lemma FirstHeapPageMovesTableArea(s: Vm)
    requires HeapInv(s, AsWritten) && s.heapMapped == HEAP_START
    ensures Translate(s.mem, s.dir, 0x0080_0000) == Some(0x0080_0000)
    ensures PageFrameAllocate(s, HEAP_START).Ok?
    ensures Translate(PageFrameAllocate(s, HEAP_START).value.mem, s.dir, 0x0080_0000) == Some(0x0090_0000)
  {
    hide PageFrameAllocate;
    assert HeapPagesMapped(s) == 0;
    HeapPageFrame(s, AsWritten, 0);
    var t := PageFrameAllocate(s, HEAP_START).value;
    assert Walk(s.mem, s.dir, 0x800) == Expected(AsWritten, 0, 0x800);
    assert Walk(t.mem, t.dir, 0x800) == Expected(AsWritten, 1, 0x800);
  }

  /** The code as written, concretely, from boot: both effects in one place. */
  lemma WrittenOrderReusesLiveTable(m: Image)
    requires Bootable(m)
    ensures InitPaging(m, AsWritten).Ok?
    ensures var s := InitPaging(m, AsWritten).value;
      && PageTableAllocate(s).Ok? && PageTableAllocate(s).value.1 == 0x0050_0000
      && Present(Slot(s.mem, s.dir, 2)) && PageOf(Slot(s.mem, s.dir, 2)) * PAGE_SIZE == 0x0050_0000
      && Translate(s.mem, s.dir, 0x0080_0000) == Some(0x0080_0000)
      && PageFrameAllocate(s, HEAP_START).Ok?
      && Translate(PageFrameAllocate(s, HEAP_START).value.mem, s.dir, 0x0080_0000) == Some(0x0090_0000)
  {
    InitPagingCorrect(m, AsWritten);
    var s := InitPaging(m, AsWritten).value;
    assert s.heapMapped == HEAP_START;
    hide InitPaging, PageFrameAllocate, PageTableAllocate, HeapInv, Translate, WellFormed;
    NextTableIsLive(s);
    FirstHeapPageMovesTableArea(s);
  }
}
