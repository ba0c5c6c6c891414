/**
 * What physical memory looks like once paging is set up and the heap has `k` pages:
 * every directory slot, every bitmap flag and every translation.
 */
module HeapLayout {
  import opened Machine
  import opened Bitmap
  import opened Paging
  import opened Mapper
  import opened PagingRuns

  /**
   * `init_page_table_allocator` maps the table area and then clears the bitmap. `ClearFirst` is
   * the same code with the clear moved in front of the mapping.
   */
  datatype InitOrder = AsWritten | ClearFirst

  const HEAP_SLOT: nat := 60

  /** The heap's virtual address minus its physical address, as in 0x0F000000 - 0x00900000. */
  const HEAP_SHIFT: nat := 0x0E70_0000
  const HEAP_SHIFT_PAGES: nat := 0xE700

  /** Every page holding the directory or a live table lies below this page. */
  const LIVE_PAGE_END: nat := 0x509

  /** Heap tables needed for `k` heap pages. */
  function HeapTables(k: nat): nat {
    (k + ENTRIES - 1) / ENTRIES
  }

  /** The index of the heap's first table. As written, the cleared bitmap gives out table 0 again. */
  function FirstHeapTable(order: InitOrder): nat {
    match order
    case AsWritten => 0
    case ClearFirst => 1
  }

  function TablesMarked(order: InitOrder, k: nat): nat {
    FirstHeapTable(order) + HeapTables(k)
  }

  /** Where virtual page `v` is, once the heap has `k` pages. */
  function Expected(order: InitOrder, k: nat, v: nat): Option<nat> {
    if KERNEL_PAGE <= v < KERNEL_PAGE_END || v == VGA_PAGE || TABLE_AREA_PAGE <= v < 0x800 then Some(v)
    else if 0x800 <= v < 0xC00 then
      // slot 2: its table doubles as the first heap table in the written order
      if order.AsWritten? && v - 0x800 < k then Some(FRAME_PAGE + (v - 0x800))
      else if v < TABLE_AREA_PAGE_END then Some(v)
      else None
    else if HEAP_PAGE <= v < HEAP_PAGE + k then Some(v - HEAP_SHIFT_PAGES)
    else if order.AsWritten? && 1 <= k && HEAP_PAGE + k <= v < HEAP_PAGE + 0x100 then
      Some(0x800 + (v - HEAP_PAGE))
    else None
  }

  predicate SlotExpected(k: nat, d: nat) {
    d < 3 || HEAP_SLOT <= d < HEAP_SLOT + HeapTables(k)
  }

  /** The table of a present slot other than 0 and 1, whose tables are in the kernel image. */
  function TableExpected(order: InitOrder, d: nat): nat {
    TABLE_AREA_PAGE + if d < HEAP_SLOT then 0 else FirstHeapTable(order) + (d - HEAP_SLOT)
  }

  ghost predicate SlotsLaidOut(s: Vm, order: InitOrder, k: nat) {
    && (forall d: nat :: d < ENTRIES ==> (Present(Slot(s.mem, s.dir, d)) <==> SlotExpected(k, d)))
    && (forall d: nat :: d < 2 ==>
          KERNEL_PAGE <= PageOf(Slot(s.mem, s.dir, d)) < KERNEL_PAGE_END && PageOf(Slot(s.mem, s.dir, d)) != s.dir)
    && (forall d: nat :: 2 <= d < ENTRIES && SlotExpected(k, d) ==>
          PageOf(Slot(s.mem, s.dir, d)) == TableExpected(order, d))
  }

  ghost predicate WalksLaidOut(s: Vm, order: InitOrder, k: nat) {
    forall v: nat :: v < PAGES ==> Walk(s.mem, s.dir, v) == Expected(order, k, v)
  }

  /** Table 0 belongs to slot 2 even when its bit is clear. */
  function FirstUnusedTable(order: InitOrder, k: nat): nat {
    TABLE_AREA_PAGE + if TablesMarked(order, k) == 0 then 1 else TablesMarked(order, k)
  }

  ghost predicate UnusedTablesClear(s: Vm, order: InitOrder, k: nat) {
    forall page: nat :: FirstUnusedTable(order, k) <= page < TABLE_AREA_PAGE_END ==> TableClear(s.mem, page)
  }

  /** The directory, the tables and their bitmap. */
  ghost predicate TablesLaidOut(s: Vm, order: InitOrder, k: nat) {
    && k <= HEAP_PAGES
    && |s.mem| == RAM_WORDS && |s.tables| == TABLE_COUNT
    && KERNEL_PAGE <= s.dir < KERNEL_PAGE_END
    && IsPrefix(s.tables, TablesMarked(order, k))
    && SlotsLaidOut(s, order, k)
    && UnusedTablesClear(s, order, k)
    && WalksLaidOut(s, order, k)
  }

  ghost predicate Layout(s: Vm, order: InitOrder, k: nat) {
    && TablesLaidOut(s, order, k)
    && |s.frames| == FRAME_COUNT && IsPrefix(s.frames, k)
  }

  /** Translations depend on memory below LIVE_PAGE_END only. */
  lemma WalkStable(s: Vm, order: InitOrder, k: nat, mem: Memory, v: nat)
    requires TablesLaidOut(s, order, k) && AgreeBelow(s.mem, mem, LIVE_PAGE_END) && v < PAGES
    ensures Walk(mem, s.dir, v) == Expected(order, k, v)
  {
    var d := SlotOf(v);
    assert Slot(mem, s.dir, d) == Slot(s.mem, s.dir, d);
    assert Present(Slot(s.mem, s.dir, d)) ==> PageOf(Slot(s.mem, s.dir, d)) < LIVE_PAGE_END;
    assert Walk(s.mem, s.dir, v) == Expected(order, k, v);
  }

  lemma LayoutStable(s: Vm, order: InitOrder, k: nat, mem: Memory)
    requires TablesLaidOut(s, order, k) && AgreeBelow(s.mem, mem, FRAME_PAGE)
    ensures TablesLaidOut(s.(mem := mem), order, k)
  {
    var t := s.(mem := mem);
    assert forall d: nat :: d < ENTRIES ==> Slot(mem, s.dir, d) == Slot(s.mem, s.dir, d);
    forall v: nat | v < PAGES ensures Walk(mem, s.dir, v) == Expected(order, k, v) {
      WalkStable(s, order, k, mem, v);
    }
    forall page: nat | FirstUnusedTable(order, k) <= page < TABLE_AREA_PAGE_END
      ensures TableClear(mem, page)
    {
      assert TableClear(s.mem, page);
    }
  }

  lemma LayoutIsSound(s: Vm, order: InitOrder, k: nat)
    requires TablesLaidOut(s, order, k)
    ensures Sound(s)
  {
    assert forall d: nat :: d < ENTRIES && Present(Slot(s.mem, s.dir, d)) ==> SlotExpected(k, d);
  }

  /** The table that receives heap page `k`: the current one, or the next free one at a slot boundary. */
  lemma NextHeapTable(s: Vm, order: InitOrder, k: nat)
    requires TablesLaidOut(s, order, k) && k < HEAP_PAGES
    ensures SlotOf(HEAP_PAGE + k) == HEAP_SLOT + k / ENTRIES && IndexOf(HEAP_PAGE + k) == k % ENTRIES
    ensures Present(Slot(s.mem, s.dir, HEAP_SLOT + k / ENTRIES)) <==> k % ENTRIES != 0
    ensures k % ENTRIES == 0 ==> FirstFree(s.tables) == Some(FirstHeapTable(order) + k / ENTRIES)
    ensures TableFor(s, HEAP_SLOT + k / ENTRIES) == TABLE_AREA_PAGE + FirstHeapTable(order) + k / ENTRIES
  {
    FirstFitKeepsPrefix(s.tables, TablesMarked(order, k));
  }

  lemma MapHeapPageWalk(s: Vm, order: InitOrder, k: nat, w: nat)
    requires TablesLaidOut(s, order, k) && k < HEAP_PAGES && w < PAGES
    ensures WalkAfterMap(s, HEAP_PAGE + k, FRAME_PAGE + k, w) == Expected(order, k + 1, w)
  {
    NextHeapTable(s, order, k);
    var d := HEAP_SLOT + k / ENTRIES;
    var t := TableFor(s, d);
    assert Walk(s.mem, s.dir, w) == Expected(order, k, w);
    assert w == SlotOf(w) * ENTRIES + IndexOf(w) && k == k / ENTRIES * ENTRIES + k % ENTRIES;
    if SlotOf(w) == d && IndexOf(w) != k % ENTRIES && k % ENTRIES == 0 {
      if t == TABLE_AREA_PAGE {
        // as written, table 0 is handed out again and still holds slot 2's entries
        assert k == 0 && Walk(s.mem, s.dir, 0x800 + IndexOf(w)) == Expected(order, 0, 0x800 + IndexOf(w));
        assert SlotOf(0x800 + IndexOf(w)) == 2 && IndexOf(0x800 + IndexOf(w)) == IndexOf(w);
      } else {
        assert TableClear(s.mem, t);
      }
    }
    if SlotOf(w) != d && Present(Slot(s.mem, s.dir, SlotOf(w))) && PageOf(Slot(s.mem, s.dir, SlotOf(w))) == t {
      assert SlotOf(w) == 2;
    }
  }

  /** Slot `60 + k / 1024` now has its table; every other slot is as it was. */
  lemma HeapSlotsAdvance(s: Vm, r: Vm, order: InitOrder, k: nat)
    requires TablesLaidOut(s, order, k) && k < HEAP_PAGES && r.dir == s.dir
    requires r.tables == TablesAfterMap(s, HEAP_SLOT + k / ENTRIES)
    requires forall e: nat :: e < ENTRIES && e != HEAP_SLOT + k / ENTRIES ==>
      Slot(r.mem, s.dir, e) == Slot(s.mem, s.dir, e)
    requires Present(Slot(r.mem, s.dir, HEAP_SLOT + k / ENTRIES))
    requires PageOf(Slot(r.mem, s.dir, HEAP_SLOT + k / ENTRIES)) == TableFor(s, HEAP_SLOT + k / ENTRIES)
    ensures SlotsLaidOut(r, order, k + 1) && IsPrefix(r.tables, TablesMarked(order, k + 1))
  {
    NextHeapTable(s, order, k);
    FirstFitKeepsPrefix(s.tables, TablesMarked(order, k));
  }

  /** Only the directory and the current heap table are written; both lie below LIVE_PAGE_END. */
  lemma MapHeapPageStaysLow(s: Vm, order: InitOrder, k: nat)
    requires TablesLaidOut(s, order, k) && k < HEAP_PAGES
    requires MapPage(s, HEAP_START + PAGE_SIZE * k, FRAME_AREA_START + PAGE_SIZE * k).Ok?
    ensures var r := MapPage(s, HEAP_START + PAGE_SIZE * k, FRAME_AREA_START + PAGE_SIZE * k).value;
      && (forall page: nat, i: nat :: page != s.dir && page != TableFor(s, HEAP_SLOT + k / ENTRIES) && i < ENTRIES ==>
            Load(r.mem, EntryIndex(page, i)) == Load(s.mem, EntryIndex(page, i)))
      && (forall i: nat :: i >= LIVE_PAGE_END * ENTRIES ==> Load(r.mem, i) == Load(s.mem, i))
  {
    var va, pa := HEAP_START + PAGE_SIZE * k, FRAME_AREA_START + PAGE_SIZE * k;
    NextHeapTable(s, order, k);
    LayoutIsSound(s, order, k);
    assert va / PAGE_SIZE == HEAP_PAGE + k;
    hide WalksLaidOut, UnusedTablesClear, SlotsLaidOut, MapPage, Sound, TableFor;
    MapPageLeavesOtherTables(s, va, pa);
    forall i: nat | i >= LIVE_PAGE_END * ENTRIES ensures Load(MapPage(s, va, pa).value.mem, i) == Load(s.mem, i) {
      assert i == EntryIndex(i / ENTRIES, i % ENTRIES);
    }
  }

  lemma UnusedTablesStayClear(s: Vm, r: Vm, order: InitOrder, k: nat)
    requires TablesLaidOut(s, order, k) && k < HEAP_PAGES
    requires forall page: nat, i: nat ::
      page != s.dir && page != TableFor(s, HEAP_SLOT + k / ENTRIES) && i < ENTRIES ==>
      Load(r.mem, EntryIndex(page, i)) == Load(s.mem, EntryIndex(page, i))
    ensures UnusedTablesClear(r, order, k + 1)
  {
    NextHeapTable(s, order, k);
    hide WalksLaidOut, SlotsLaidOut, TableFor;
    forall page: nat | FirstUnusedTable(order, k + 1) <= page < TABLE_AREA_PAGE_END
      ensures TableClear(r.mem, page)
    {
      assert TableClear(s.mem, page);
    }
  }

  /** The word that holds heap page `j`'s table entry: the heap's tables lie one after another. */
  function HeapEntryIndex(order: InitOrder, j: nat): nat {
    (TABLE_AREA_PAGE + FirstHeapTable(order)) * ENTRIES + j
  }

  /** Word `i` holds an entry that mapping heap pages `from` up to `to` has to write. */
  predicate NewEntry(dir: nat, order: InitOrder, from: nat, to: nat, i: nat) {
    || HeapEntryIndex(order, from) <= i < HeapEntryIndex(order, to)
    || EntryIndex(dir, HEAP_SLOT + HeapTables(from)) <= i < EntryIndex(dir, HEAP_SLOT + HeapTables(to))
  }

  /** Below the frame area, only the entries of heap pages `from` up to `to` may have changed. */
  ghost predicate OnlyNewEntries(before: Memory, after: Memory, dir: nat, order: InitOrder, from: nat, to: nat) {
    forall i: nat :: i < FRAME_PAGE * ENTRIES && !NewEntry(dir, order, from, to, i) ==>
      Load(after, i) == Load(before, i)
  }

  lemma MapHeapPageWritesItsEntries(s: Vm, order: InitOrder, k: nat)
    requires TablesLaidOut(s, order, k) && k < HEAP_PAGES
    requires MapPage(s, HEAP_START + PAGE_SIZE * k, FRAME_AREA_START + PAGE_SIZE * k).Ok?
    ensures OnlyNewEntries(s.mem, MapPage(s, HEAP_START + PAGE_SIZE * k, FRAME_AREA_START + PAGE_SIZE * k).value.mem,
                           s.dir, order, k, k + 1)
  {
    hide WalksLaidOut, UnusedTablesClear, SlotsLaidOut, SetPresent, SetReadWrite, TableFor, IsPrefix;
    NextHeapTable(s, order, k);
    LayoutIsSound(s, order, k);
    hide Sound;
    assert (HEAP_START + PAGE_SIZE * k) / PAGE_SIZE == HEAP_PAGE + k;
    InstallTableSlots(s, HEAP_SLOT + k / ENTRIES);
    assert EntryIndex(TABLE_AREA_PAGE + FirstHeapTable(order) + k / ENTRIES, k % ENTRIES) == HeapEntryIndex(order, k);
  }

  lemma WalksAdvance(s: Vm, r: Vm, order: InitOrder, k: nat)
    requires TablesLaidOut(s, order, k) && k < HEAP_PAGES && r.dir == s.dir
    requires forall w: nat :: w < PAGES ==>
      Walk(r.mem, s.dir, w) == WalkAfterMap(s, HEAP_PAGE + k, FRAME_PAGE + k, w)
    ensures WalksLaidOut(r, order, k + 1)
  {
    hide TablesLaidOut, WalkAfterMap, Expected, Walk;
    forall w: nat | w < PAGES ensures Walk(r.mem, s.dir, w) == Expected(order, k + 1, w) {
      MapHeapPageWalk(s, order, k, w);
    }
  }

  /** Mapping the next heap page at the next frame takes layout `k` to layout `k + 1`. */
  lemma MapHeapPage(s: Vm, order: InitOrder, k: nat)
    requires TablesLaidOut(s, order, k) && k < HEAP_PAGES
    ensures MapPage(s, HEAP_START + PAGE_SIZE * k, FRAME_AREA_START + PAGE_SIZE * k).Ok?
    ensures var r := MapPage(s, HEAP_START + PAGE_SIZE * k, FRAME_AREA_START + PAGE_SIZE * k).value;
      && TablesLaidOut(r, order, k + 1)
      && r == s.(mem := r.mem, tables := r.tables)
      && OnlyNewEntries(s.mem, r.mem, s.dir, order, k, k + 1)
      && forall i: nat :: i >= LIVE_PAGE_END * ENTRIES ==> Load(r.mem, i) == Load(s.mem, i)
  {
    var va, pa := HEAP_START + PAGE_SIZE * k, FRAME_AREA_START + PAGE_SIZE * k;
    NextHeapTable(s, order, k);
    LayoutIsSound(s, order, k);
    assert va / PAGE_SIZE == HEAP_PAGE + k && pa / PAGE_SIZE == FRAME_PAGE + k;
    MapHeapPageStaysLow(s, order, k);
    MapHeapPageWritesItsEntries(s, order, k);
    UnusedTablesStayClear(s, MapPage(s, va, pa).value, order, k);
    hide UnusedTablesClear, OnlyNewEntries, WalkAfterMap, Walk;
    MapPageWalks(s, va, pa);
    WalksAdvance(s, MapPage(s, va, pa).value, order, k);
    HeapSlotsAdvance(s, MapPage(s, va, pa).value, order, k);
  }

  lemma OnlyNewEntriesJoin(a: Memory, b: Memory, c: Memory, dir: nat, order: InitOrder, i: nat, j: nat, k: nat)
    requires i <= j <= k
    requires OnlyNewEntries(a, b, dir, order, i, j) && OnlyNewEntries(b, c, dir, order, j, k)
    ensures OnlyNewEntries(a, c, dir, order, i, k)
  {
  }

  lemma OnlyNewEntriesIfNone(a: Memory, b: Memory, dir: nat, order: InitOrder, k: nat)
    requires AgreeBelow(a, b, FRAME_PAGE)
    ensures OnlyNewEntries(a, b, dir, order, k, k)
  {
  }
}
