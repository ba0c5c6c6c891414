/** `identity_map_range` and `init_paging`, in the order written and with the bitmap cleared first. */
module Boot {
  import opened Machine
  import opened Bitmap
  import opened Paging
  import opened Mapper
  import opened PagingRuns
  import opened HeapLayout
  import opened Heap

  /** The last bound for which the 32-bit loop counter `addr += PAGE_SIZE` does not wrap. */
  const LAST_BOUND: Word := 0xFFFF_F000

  function IdentityMapRange(s: Vm, start: Word, end: Word): Result<Vm, Halt>
    requires end <= LAST_BOUND
    decreases end - start
  {
    if start >= end then Ok(s)
    else
      var t :- MapPage(s, start, start);
      IdentityMapRange(t, start + PAGE_SIZE, end)
  }

  /** The effect of one well-formed `map_page` call, page by page. */
  lemma MapOnePage(s: Vm, v: nat, p: nat)
    requires WellFormed(s) && v < PAGES && p < PAGES
    ensures MapPage(s, v * PAGE_SIZE, p * PAGE_SIZE).Ok?
    ensures var r := MapPage(s, v * PAGE_SIZE, p * PAGE_SIZE).value;
      && WellFormed(r)
      && r == s.(mem := r.mem, tables := TablesAfterMap(s, SlotOf(v)))
      && Present(Slot(r.mem, s.dir, SlotOf(v))) && PageOf(Slot(r.mem, s.dir, SlotOf(v))) == TableFor(s, SlotOf(v))
      && (forall e: nat :: e < ENTRIES && e != SlotOf(v) ==> Slot(r.mem, s.dir, e) == Slot(s.mem, s.dir, e))
      && forall w: nat :: w < PAGES ==> Walk(r.mem, s.dir, w) == (if w == v then Some(p) else Walk(s.mem, s.dir, w))
  {
    var va, pa := v * PAGE_SIZE, p * PAGE_SIZE;
    assert va / PAGE_SIZE == v && pa / PAGE_SIZE == p && Aligned(va) && Aligned(pa);
    if !Present(Slot(s.mem, s.dir, SlotOf(v))) {
      NeverOutOfTables(s, SlotOf(v));
    }
    MapPageKeepsWellFormed(s, va, pa);
    MapPageIsHarmless(s, v, p);
    HarmlessSuffices(s, v, p);
    hide WellFormed, MapPage, Harmless, WalkAfterMap;
    MapPageWalks(s, va, pa);
  }

  /** Every page of the range translates to itself, and every other translation is kept. */
  lemma {:induction false} IdentityMapRangeExact(s: Vm, lo: nat, hi: nat)
    requires WellFormed(s) && lo <= hi < PAGES
    ensures IdentityMapRange(s, lo * PAGE_SIZE, hi * PAGE_SIZE).Ok?
    ensures var r := IdentityMapRange(s, lo * PAGE_SIZE, hi * PAGE_SIZE).value;
      && WellFormed(r)
      && r == s.(mem := r.mem, tables := r.tables)
      && forall w: nat :: w < PAGES ==>
           Walk(r.mem, s.dir, w) == (if lo <= w < hi then Some(w) else Walk(s.mem, s.dir, w))
    decreases hi - lo
  {
    hide WellFormed, MapPage, Walk;
    if lo < hi {
      MapOnePage(s, lo, lo);
      IdentityMapRangeExact(MapPage(s, lo * PAGE_SIZE, lo * PAGE_SIZE).value, lo + 1, hi);
    }
  }

  /** Directory slot `d` after mapping some pages under it, and every other slot. */
  ghost predicate SlotFilled(s: Vm, r: Vm, d: nat) {
    && r.tables == TablesAfterMap(s, d)
    && Present(Slot(r.mem, s.dir, d)) && PageOf(Slot(r.mem, s.dir, d)) == TableFor(s, d)
    && forall e: nat :: e < ENTRIES && e != d ==> Slot(r.mem, s.dir, e) == Slot(s.mem, s.dir, e)
  }

  /** A range under one slot takes at most one table, however many pages it has. */
  lemma {:induction false} IdentityMapRangeSlot(s: Vm, lo: nat, hi: nat, d: nat)
    requires WellFormed(s) && lo < hi < PAGES && SlotOf(lo) == SlotOf(hi - 1) == d
    ensures IdentityMapRange(s, lo * PAGE_SIZE, hi * PAGE_SIZE).Ok?
    ensures SlotFilled(s, IdentityMapRange(s, lo * PAGE_SIZE, hi * PAGE_SIZE).value, d)
    decreases hi - lo
  {
    hide WellFormed, MapPage, Walk, IdentityMapRange;
    MapOnePage(s, lo, lo);
    IdentityMapRangeStep(s, lo, hi);
    var t := MapPage(s, lo * PAGE_SIZE, lo * PAGE_SIZE).value;
    if lo + 1 < hi {
      IdentityMapRangeSlot(t, lo + 1, hi, d);
      assert TablesAfterMap(t, d) == t.tables && TableFor(t, d) == TableFor(s, d);
    } else {
      IdentityMapRangeNone(t, hi);
    }
  }

  lemma IdentityMapRangeStep(s: Vm, lo: nat, hi: nat)
    requires lo < hi < PAGES && MapPage(s, lo * PAGE_SIZE, lo * PAGE_SIZE).Ok?
    ensures IdentityMapRange(s, lo * PAGE_SIZE, hi * PAGE_SIZE) ==
      IdentityMapRange(MapPage(s, lo * PAGE_SIZE, lo * PAGE_SIZE).value, (lo + 1) * PAGE_SIZE, hi * PAGE_SIZE)
  {
    hide MapPage;
  }

  lemma IdentityMapRangeNone(s: Vm, lo: nat)
    requires lo < PAGES
    ensures IdentityMapRange(s, lo * PAGE_SIZE, lo * PAGE_SIZE) == Ok(s)
  {
  }

  /** A range is mapped like its two halves one after the other. */
  lemma {:induction false} IdentityMapRangeSplit(s: Vm, lo: nat, mid: nat, hi: nat)
    requires WellFormed(s) && lo <= mid <= hi < PAGES
    ensures IdentityMapRange(s, lo * PAGE_SIZE, mid * PAGE_SIZE).Ok?
    ensures IdentityMapRange(s, lo * PAGE_SIZE, hi * PAGE_SIZE) ==
      IdentityMapRange(IdentityMapRange(s, lo * PAGE_SIZE, mid * PAGE_SIZE).value, mid * PAGE_SIZE, hi * PAGE_SIZE)
    decreases mid - lo
  {
    hide WellFormed, MapPage, IdentityMapRange, Walk, Slot, TableFor, TablesAfterMap;
    if lo == mid {
      IdentityMapRangeNone(s, lo);
    } else {
      MapOnePage(s, lo, lo);
      IdentityMapRangeStep(s, lo, mid);
      IdentityMapRangeStep(s, lo, hi);
      IdentityMapRangeSplit(MapPage(s, lo * PAGE_SIZE, lo * PAGE_SIZE).value, lo + 1, mid, hi);
    }
  }

  /** Word `i` of memory once pages `lo` up to `hi` of slot `d` are mapped to themselves under table page `t`. */
  function WordAfterRange(s: Vm, lo: nat, hi: nat, d: nat, t: nat, i: nat): int {
    if EntryIndex(t, IndexOf(lo)) <= i < EntryIndex(t, IndexOf(lo)) + (hi - lo) then
      (lo + (i - EntryIndex(t, IndexOf(lo)))) * 4096 + 3
    else if i == EntryIndex(s.dir, d) && !Present(Slot(s.mem, s.dir, d)) then t * 4096 + 3
    else Load(s.mem, i)
  }

  /** A range under one slot writes its own entries and, where it was missing, the slot. */
  lemma {:induction false} IdentityMapRangeWords(s: Vm, lo: nat, hi: nat, d: nat)
    requires WellFormed(s) && lo < hi < PAGES && SlotOf(lo) == SlotOf(hi - 1) == d
    ensures IdentityMapRange(s, lo * PAGE_SIZE, hi * PAGE_SIZE).Ok?
    ensures var r := IdentityMapRange(s, lo * PAGE_SIZE, hi * PAGE_SIZE).value;
      forall i: nat :: Load(r.mem, i) == WordAfterRange(s, lo, hi, d, TableFor(s, d), i)
    decreases hi - lo
  {
    hide WellFormed, MapPage, Walk, IdentityMapRange, TableFor, TablesAfterMap, Sound;
    MapOnePage(s, lo, lo);
    IdentityMapRangeStep(s, lo, hi);
    SoundOfWellFormed(s);
    MapPageWords(s, lo * PAGE_SIZE, lo * PAGE_SIZE);
    var t := MapPage(s, lo * PAGE_SIZE, lo * PAGE_SIZE).value;
    assert lo * PAGE_SIZE / PAGE_SIZE == lo;
    if lo + 1 < hi {
      IdentityMapRangeWords(t, lo + 1, hi, d);
      PresentTableFor(t, d);
      assert IndexOf(lo + 1) == IndexOf(lo) + 1;
    } else {
      IdentityMapRangeNone(t, hi);
    }
  }

  lemma PresentTableFor(s: Vm, d: nat)
    requires Present(Slot(s.mem, s.dir, d))
    ensures TableFor(s, d) == PageOf(Slot(s.mem, s.dir, d))
  {
  }

  // ----- init_paging -----

  /** Memory when `init_paging` starts, and the pages of the three arrays in the kernel image. */
  datatype Image = Image(mem: Memory, dir: nat, first: nat, second: nat)

  /** The arrays are three pages of the kernel, and all tables start with every present bit clear. */
  ghost predicate Bootable(m: Image) {
    && |m.mem| == RAM_WORDS
    && KERNEL_PAGE <= m.dir < KERNEL_PAGE_END
    && KERNEL_PAGE <= m.first < KERNEL_PAGE_END
    && KERNEL_PAGE <= m.second < KERNEL_PAGE_END
    && m.dir != m.first && m.dir != m.second && m.first != m.second
    && TableClear(m.mem, m.first) && TableClear(m.mem, m.second)
    && forall page: nat :: TABLE_AREA_PAGE <= page < TABLE_AREA_PAGE_END ==> TableClear(m.mem, page)
  }

  /** Memory that is zero throughout boots, wherever in the kernel the three pages are. */
  lemma ZeroedMemoryBoots(m: Image)
    requires m.mem == seq(RAM_WORDS, _ => 0)
    requires forall page :: page in [m.dir, m.first, m.second] ==> KERNEL_PAGE <= page < KERNEL_PAGE_END
    requires m.dir != m.first && m.dir != m.second && m.first != m.second
    ensures Bootable(m)
  {
    forall page: nat | page < RAM_PAGES ensures TableClear(m.mem, page) {
      assert forall i: nat :: i < ENTRIES ==> EntryIndex(page, i) < RAM_WORDS && Load(m.mem, EntryIndex(page, i)) == 0;
    }
    assert m.dir in [m.dir, m.first, m.second] && m.first in [m.dir, m.first, m.second];
    assert m.second in [m.dir, m.first, m.second];
  }

  /** The first `n` directory entries become 0x00000002. */
  function ClearDirectory(mem: Memory, dir: nat, n: nat): Memory {
    if n == 0 then mem else Store(ClearDirectory(mem, dir, n - 1), EntryIndex(dir, n - 1), 2)
  }

  function NoneSet(n: nat): seq<bool> {
    seq(n, _ => false)
  }

  /** A page number below 2^20 as an address with the present and read/write bits. */
  function TableEntryFor(page: nat): Word
    requires page < PAGES
  {
    SetReadWrite(SetPresent(page * PAGE_SIZE))
  }

  /** The directory with its two static tables; bitmaps and heap pointers are zero static storage. */
  function BareDirectory(m: Image): Vm
    requires m.first < PAGES && m.second < PAGES
  {
    var cleared := ClearDirectory(m.mem, m.dir, ENTRIES);
    var mem := Store(Store(cleared, EntryIndex(m.dir, 0), TableEntryFor(m.first)),
                     EntryIndex(m.dir, 1), TableEntryFor(m.second));
    Vm(mem, m.dir, NoneSet(TABLE_COUNT), NoneSet(FRAME_COUNT), 0, 0)
  }

  function InitPageTableAllocator(s: Vm, order: InitOrder): Result<Vm, Halt> {
    match order
    case AsWritten =>
      var t :- IdentityMapRange(s, PAGE_TABLE_AREA_START, PAGE_TABLE_AREA_END);
      Ok(t.(tables := NoneSet(TABLE_COUNT)))
    case ClearFirst =>
      IdentityMapRange(s.(tables := NoneSet(TABLE_COUNT)), PAGE_TABLE_AREA_START, PAGE_TABLE_AREA_END)
  }

  function InitPaging(m: Image, order: InitOrder): Result<Vm, Halt>
    requires m.first < PAGES && m.second < PAGES
  {
    var s :- IdentityMapRange(BareDirectory(m), KERNEL_START, KERNEL_END);
    var t :- InitPageTableAllocator(s.(frames := NoneSet(FRAME_COUNT)), order);
    MapPage(t.(heapCurrent := HEAP_START, heapMapped := HEAP_START), VGA_BUFFER, VGA_BUFFER)
  }

  lemma {:induction false} ClearedDirectory(mem: Memory, dir: nat, n: nat)
    requires n <= ENTRIES && dir < RAM_PAGES && |mem| == RAM_WORDS
    ensures |ClearDirectory(mem, dir, n)| == RAM_WORDS
    ensures forall i: nat ::
      Load(ClearDirectory(mem, dir, n), i) == (if EntryIndex(dir, 0) <= i < EntryIndex(dir, n) then 2 else Load(mem, i))
  {
    if n > 0 {
      ClearedDirectory(mem, dir, n - 1);
    }
  }

  lemma BareDirectoryMemory(m: Image)
    requires Bootable(m)
    ensures var s := BareDirectory(m);
      && |s.mem| == RAM_WORDS
      && (forall d: nat :: d < ENTRIES ==> (Present(Slot(s.mem, s.dir, d)) <==> d < 2))
      && PageOf(Slot(s.mem, s.dir, 0)) == m.first && PageOf(Slot(s.mem, s.dir, 1)) == m.second
      && forall page: nat :: page != m.dir && TableClear(m.mem, page) ==> TableClear(s.mem, page)
  {
    var s := BareDirectory(m);
    ClearedDirectory(m.mem, m.dir, ENTRIES);
    EntryBits(m.first * PAGE_SIZE);
    EntryBits(m.second * PAGE_SIZE);
    forall page: nat | page != m.dir && TableClear(m.mem, page) ensures TableClear(s.mem, page) {
      forall i: nat | i < ENTRIES ensures Load(s.mem, EntryIndex(page, i)) == Load(m.mem, EntryIndex(page, i)) {
      }
    }
  }

  lemma NoneCounted(n: nat)
    ensures Count(NoneSet(n)) == 0
  {
    if n > 0 {
      NoneCounted(n - 1);
      assert NoneSet(n)[1..] == NoneSet(n - 1);
    }
  }

  /** The bare directory is well formed and maps nothing. */
  lemma BareDirectoryWellFormed(m: Image)
    requires Bootable(m)
    ensures WellFormed(BareDirectory(m))
    ensures forall v: nat :: v < PAGES ==> Walk(BareDirectory(m).mem, m.dir, v) == None
  {
    var s := BareDirectory(m);
    BareDirectoryMemory(m);
    NoneCounted(TABLE_COUNT);
    hide BareDirectory;
    forall v: nat | v < PAGES ensures Walk(s.mem, m.dir, v) == None {
      if Present(Slot(s.mem, m.dir, SlotOf(v))) {
        assert TableClear(s.mem, PageOf(Slot(s.mem, m.dir, SlotOf(v))));
      }
    }
    assert TablesOwned(s);
    assert FreeTablesClear(s);
  }

  /** The kernel is mapped under the first static table. */
  lemma KernelMapped(bare: Vm) returns (s: Vm)
    requires WellFormed(bare)
    requires forall d: nat :: d < ENTRIES ==> (Present(Slot(bare.mem, bare.dir, d)) <==> d < 2)
    requires forall v: nat :: v < PAGES ==> Walk(bare.mem, bare.dir, v) == None
    ensures IdentityMapRange(bare, KERNEL_START, KERNEL_END) == Ok(s)
    ensures WellFormed(s) && s == bare.(mem := s.mem)
    ensures forall d: nat :: d < ENTRIES ==> (Present(Slot(s.mem, s.dir, d)) <==> d < 2)
    ensures forall d: nat :: d < 2 ==> PageOf(Slot(s.mem, s.dir, d)) == PageOf(Slot(bare.mem, bare.dir, d))
    ensures forall v: nat :: v < PAGES ==>
      Walk(s.mem, s.dir, v) == (if KERNEL_PAGE <= v < KERNEL_PAGE_END then Some(v) else None)
  {
    hide WellFormed, Walk, IdentityMapRange;
    IdentityMapRangeExact(bare, KERNEL_PAGE, KERNEL_PAGE_END);
    IdentityMapRangeSlot(bare, KERNEL_PAGE, KERNEL_PAGE_END, 0);
    s := IdentityMapRange(bare, KERNEL_START, KERNEL_END).value;
  }

  /** The table area needs the second static table and, for its last quarter, page table 0. */
  lemma TableAreaMapped(s: Vm) returns (t: Vm)
    requires WellFormed(s) && s.tables == NoneSet(TABLE_COUNT)
    requires forall d: nat :: d < ENTRIES ==> (Present(Slot(s.mem, s.dir, d)) <==> d < 2)
    ensures IdentityMapRange(s, PAGE_TABLE_AREA_START, PAGE_TABLE_AREA_END) == Ok(t)
    ensures WellFormed(t) && t == s.(mem := t.mem, tables := NoneSet(TABLE_COUNT)[0 := true])
    ensures forall d: nat :: d < ENTRIES ==> (Present(Slot(t.mem, t.dir, d)) <==> d < 3)
    ensures forall d: nat :: d < 2 ==> PageOf(Slot(t.mem, t.dir, d)) == PageOf(Slot(s.mem, s.dir, d))
    ensures PageOf(Slot(t.mem, t.dir, 2)) == TABLE_AREA_PAGE
    ensures forall v: nat :: v < PAGES ==>
      Walk(t.mem, t.dir, v) == (if TABLE_AREA_PAGE <= v < TABLE_AREA_PAGE_END then Some(v) else Walk(s.mem, s.dir, v))
  {
    hide WellFormed, Walk, IdentityMapRange;
    IdentityMapRangeSplit(s, TABLE_AREA_PAGE, 0x800, TABLE_AREA_PAGE_END);
    IdentityMapRangeExact(s, TABLE_AREA_PAGE, 0x800);
    IdentityMapRangeSlot(s, TABLE_AREA_PAGE, 0x800, 1);
    var u := IdentityMapRange(s, TABLE_AREA_PAGE * PAGE_SIZE, 0x800 * PAGE_SIZE).value;
    IdentityMapRangeExact(u, 0x800, TABLE_AREA_PAGE_END);
    IdentityMapRangeSlot(u, 0x800, TABLE_AREA_PAGE_END, 2);
    FirstFitKeepsPrefix(s.tables, 0);
    t := IdentityMapRange(u, 0x800 * PAGE_SIZE, TABLE_AREA_PAGE_END * PAGE_SIZE).value;
  }

  /** Under a present slot `map_page` never looks at the table bitmap. */
  lemma BitmapUnusedWhenPresent(s: Vm, tables: seq<bool>, va: Word, pa: Word)
    requires Present(Slot(s.mem, s.dir, SlotOf(va / PAGE_SIZE))) && MapPage(s, va, pa).Ok?
    ensures MapPage(s.(tables := tables), va, pa) == Ok(MapPage(s, va, pa).value.(tables := tables))
  {
  }

  /** Clearing first leaves a well-formed state that maps the kernel, the table area and the VGA page. */
  lemma InitPagingClearFirst(m: Image) returns (r: Vm)
    requires Bootable(m)
    ensures InitPaging(m, ClearFirst) == Ok(r)
    ensures InitPaging(m, AsWritten) == Ok(r.(tables := NoneSet(TABLE_COUNT)))
    ensures WellFormed(r) && r.tables == NoneSet(TABLE_COUNT)[0 := true] && r.frames == NoneSet(FRAME_COUNT)
    ensures r.dir == m.dir && r.heapCurrent == r.heapMapped == HEAP_START
    ensures forall d: nat :: d < ENTRIES ==> (Present(Slot(r.mem, r.dir, d)) <==> d < 3)
    ensures PageOf(Slot(r.mem, r.dir, 0)) == m.first && PageOf(Slot(r.mem, r.dir, 1)) == m.second
    ensures PageOf(Slot(r.mem, r.dir, 2)) == TABLE_AREA_PAGE
    ensures forall v: nat :: v < PAGES ==> Walk(r.mem, r.dir, v) == Expected(ClearFirst, 0, v)
  {
    hide WellFormed, Walk, IdentityMapRange, MapPage, TableClear;
    BareDirectoryWellFormed(m);
    BareDirectoryMemory(m);
    var s := KernelMapped(BareDirectory(m));
    var cleared := s.(frames := NoneSet(FRAME_COUNT));
    WellFormedWhateverFrames(s, cleared);
    assert cleared.(tables := NoneSet(TABLE_COUNT)) == cleared;
    var t := TableAreaMapped(cleared);
    var u := t.(heapCurrent := HEAP_START, heapMapped := HEAP_START);
    WellFormedWhateverFrames(t, u);
    MapOnePage(u, VGA_PAGE, VGA_PAGE);
    r := MapPage(u, VGA_BUFFER, VGA_BUFFER).value;
    BitmapUnusedWhenPresent(u, NoneSet(TABLE_COUNT), VGA_BUFFER, VGA_BUFFER);
  }

  lemma WellFormedWhateverFrames(s: Vm, u: Vm)
    requires WellFormed(s) && u == s.(frames := u.frames, heapCurrent := u.heapCurrent, heapMapped := u.heapMapped)
    ensures WellFormed(u)
  {
  }

  /** A boot state is layout 0 with or without the mark on table 0. */
  lemma BootLayout(r: Vm, s: Vm, order: InitOrder)
    requires WellFormed(r) && r.tables == NoneSet(TABLE_COUNT)[0 := true]
    requires KERNEL_PAGE <= r.dir < KERNEL_PAGE_END
    requires forall d: nat :: d < ENTRIES ==> (Present(Slot(r.mem, r.dir, d)) <==> d < 3)
    requires forall d: nat :: d < 2 ==> KERNEL_PAGE <= PageOf(Slot(r.mem, r.dir, d)) < KERNEL_PAGE_END
    requires PageOf(Slot(r.mem, r.dir, 2)) == TABLE_AREA_PAGE
    requires forall v: nat :: v < PAGES ==> Walk(r.mem, r.dir, v) == Expected(ClearFirst, 0, v)
    requires s == if order.ClearFirst? then r else r.(tables := NoneSet(TABLE_COUNT))
    ensures TablesLaidOut(s, order, 0)
  {
    forall page: nat | FirstUnusedTable(order, 0) <= page < TABLE_AREA_PAGE_END
      ensures TableClear(s.mem, page)
    {
      assert !r.tables[page - TABLE_AREA_PAGE];
    }
    hide Walk, TableClear;
    assert forall d: nat :: d < 2 ==> PageOf(Slot(s.mem, s.dir, d)) != s.dir;
    assert forall v: nat :: v < PAGES ==> Expected(ClearFirst, 0, v) == Expected(order, 0, v);
  }

  /**
   * Both orders end with the heap invariant, so the heap theorems hold for the code as written.
   * Only the corrected order keeps every live table marked: as written, table 0 is free again.
   */
  lemma InitPagingCorrect(m: Image, order: InitOrder)
    requires Bootable(m)
    ensures InitPaging(m, order).Ok? && HeapInv(InitPaging(m, order).value, order)
    ensures Holds(InitPaging(m, order).value, []) && InitPaging(m, order).value.heapMapped == HEAP_START
    ensures WellFormed(InitPaging(m, order).value) <==> order.ClearFirst?
  {
    hide InitPaging, Walk, Expected, WellFormed, TableClear, TablesLaidOut;
    var r := InitPagingClearFirst(m);
    var s := InitPaging(m, order).value;
    BootLayout(r, s, order);
    assert IsPrefix(s.frames, 0);
    if order.AsWritten? {
      MarkMissing(s);
    }
  }

  lemma MarkMissing(s: Vm)
    requires |s.tables| == TABLE_COUNT && !s.tables[0]
    requires Present(Slot(s.mem, s.dir, 2)) && PageOf(Slot(s.mem, s.dir, 2)) == TABLE_AREA_PAGE
    ensures !WellFormed(s)
  {
    assert !TableMarked(s, PageOf(Slot(s.mem, s.dir, 2)));
  }
  // ----- Memory after boot, word by word -----

  /**
   * Word `i` of memory after `stage` of the five parts of boot: the bare directory, the kernel, the table area
   * under the second static table, the rest of it under table 0x500, and the VGA page.
   */
  function BootWord(m: Image, stage: nat, i: nat): int {
    var page, j := i / 1024, i % 1024;
    if page == m.dir then
      if j == 0 then m.first * 4096 + 3
      else if j == 1 then m.second * 4096 + 3
      else if j == 2 && stage >= 4 then 0x0050_0003
      else 2
    else if page == m.first && ((stage >= 2 && 0x100 <= j < 0x300) || (stage >= 5 && j == 0xB8)) then j * 4096 + 3
    else if page == m.second && stage >= 3 && 0x100 <= j then (0x400 + j) * 4096 + 3
    else if page == 0x500 && stage >= 4 && j < 0x100 then (0x800 + j) * 4096 + 3
    else Load(m.mem, i)
  }

  ghost predicate HasBootWords(m: Image, stage: nat, mem: Memory) {
    forall i: nat :: Load(mem, i) == BootWord(m, stage, i)
  }

  lemma BareDirectoryWords(m: Image)
    requires Bootable(m)
    ensures HasBootWords(m, 1, BareDirectory(m).mem)
  {
    hide TableClear;
    ClearedDirectory(m.mem, m.dir, ENTRIES);
    EntryBits(m.first * PAGE_SIZE);
    EntryBits(m.second * PAGE_SIZE);
  }

  /** Stages 2 to 4 each map a range to itself under one table page. */
  predicate IsStage(m: Image, stage: nat, lo: nat, hi: nat, t: nat) {
    || (stage == 1 && lo == 0x100 && hi == 0x300 && t == m.first)
    || (stage == 2 && lo == 0x500 && hi == 0x800 && t == m.second)
    || (stage == 3 && lo == 0x800 && hi == 0x900 && t == 0x500)
  }

  lemma RangeStageWord(m: Image, stage: nat, s: Vm, lo: nat, hi: nat, d: nat, t: nat, i: nat)
    requires m.dir != t && s.dir == m.dir && Load(s.mem, i) == BootWord(m, stage, i) && d == SlotOf(lo)
    requires m.dir < 0x300 && m.first < 0x300 && m.second < 0x300 && m.first != m.second
    requires IsStage(m, stage, lo, hi, t) && (Present(Slot(s.mem, s.dir, d)) <==> stage < 3)
    ensures WordAfterRange(s, lo, hi, d, t, i) == BootWord(m, stage + 1, i)
  {
    hide Present, Slot, Load;
    var page, j := i / 1024, i % 1024;
    assert i == EntryIndex(page, j);
  }

  /** Mapping a range takes the memory of one stage of boot to that of the next. */
  lemma RangeStage(m: Image, stage: nat, s: Vm, lo: nat, hi: nat, d: nat, t: nat)
    requires Bootable(m) && WellFormed(s) && s.dir == m.dir && HasBootWords(m, stage, s.mem)
    requires lo < hi < PAGES && SlotOf(lo) == SlotOf(hi - 1) == d && TableFor(s, d) == t
    requires IsStage(m, stage, lo, hi, t) && (Present(Slot(s.mem, s.dir, d)) <==> stage < 3)
    ensures IdentityMapRange(s, lo * PAGE_SIZE, hi * PAGE_SIZE).Ok?
    ensures HasBootWords(m, stage + 1, IdentityMapRange(s, lo * PAGE_SIZE, hi * PAGE_SIZE).value.mem)
  {
    hide WellFormed, IdentityMapRange, TableFor, TableClear, Load, Slot, BootWord, WordAfterRange;
    IdentityMapRangeWords(s, lo, hi, d);
    var r := IdentityMapRange(s, lo * PAGE_SIZE, hi * PAGE_SIZE).value;
    forall i: nat ensures Load(r.mem, i) == BootWord(m, stage + 1, i) {
      RangeStageWord(m, stage, s, lo, hi, d, t, i);
    }
  }

  lemma VgaStage(m: Image, s: Vm)
    requires Bootable(m) && WellFormed(s) && s.dir == m.dir && HasBootWords(m, 4, s.mem)
    requires Present(Slot(s.mem, s.dir, 0)) && PageOf(Slot(s.mem, s.dir, 0)) == m.first
    requires MapPage(s, VGA_BUFFER, VGA_BUFFER).Ok?
    ensures HasBootWords(m, 5, MapPage(s, VGA_BUFFER, VGA_BUFFER).value.mem)
  {
    SoundOfWellFormed(s);
    MapPageWords(s, VGA_BUFFER, VGA_BUFFER);
    var r := MapPage(s, VGA_BUFFER, VGA_BUFFER).value;
    hide WellFormed, MapPage, TableClear, Load, Sound;
    forall i: nat ensures Load(r.mem, i) == BootWord(m, 5, i) {
      assert Load(s.mem, i) == BootWord(m, 4, i);
      assert i == i / 1024 * 1024 + i % 1024;
    }
  }

  /** The two ranges of the table area, after which nothing but the VGA page is left. */
  lemma TableAreaStages(m: Image, s: Vm, t: Vm)
    requires Bootable(m) && WellFormed(s) && s.dir == m.dir && HasBootWords(m, 2, s.mem)
    requires s.tables == NoneSet(TABLE_COUNT)
    requires forall d: nat :: d < ENTRIES ==> (Present(Slot(s.mem, s.dir, d)) <==> d < 2)
    requires PageOf(Slot(s.mem, s.dir, 1)) == m.second
    requires IdentityMapRange(s, PAGE_TABLE_AREA_START, PAGE_TABLE_AREA_END) == Ok(t)
    ensures HasBootWords(m, 4, t.mem)
  {
    hide WellFormed, Walk, IdentityMapRange, TableClear, HasBootWords;
    IdentityMapRangeSplit(s, 0x500, 0x800, 0x900);
    IdentityMapRangeExact(s, 0x500, 0x800);
    IdentityMapRangeSlot(s, 0x500, 0x800, 1);
    RangeStage(m, 2, s, 0x500, 0x800, 1, m.second);
    var u := IdentityMapRange(s, 0x500 * PAGE_SIZE, 0x800 * PAGE_SIZE).value;
    FirstFitKeepsPrefix(s.tables, 0);
    assert !Present(Slot(u.mem, u.dir, 2)) && TableFor(u, 2) == 0x500;
    RangeStage(m, 3, u, 0x800, 0x900, 2, 0x500);
  }

  /**
   * Boot, word for word, in either order: directory entries 0 to 2 and the identity entries of the kernel, the
   * table area and the VGA page have the present and read/write bits, the other directory entries are 2, and
   * every other word of memory is what it was.
   */
  lemma BootMemory(m: Image, order: InitOrder)
    requires Bootable(m)
    ensures InitPaging(m, order).Ok? && HasBootWords(m, 5, InitPaging(m, order).value.mem)
  {
    hide WellFormed, Walk, IdentityMapRange, MapPage, TableClear, HasBootWords, Slot;
    BareDirectoryWellFormed(m);
    BareDirectoryMemory(m);
    BareDirectoryWords(m);
    var bare := BareDirectory(m);
    var s := KernelMapped(bare);
    PresentTableFor(bare, 0);
    RangeStage(m, 1, bare, 0x100, 0x300, 0, m.first);
    var cleared := s.(frames := NoneSet(FRAME_COUNT));
    WellFormedWhateverFrames(s, cleared);
    assert cleared.(tables := NoneSet(TABLE_COUNT)) == cleared;
    var t := TableAreaMapped(cleared);
    TableAreaStages(m, cleared, t);
    var u := t.(heapCurrent := HEAP_START, heapMapped := HEAP_START);
    WellFormedWhateverFrames(t, u);
    MapOnePage(u, VGA_PAGE, VGA_PAGE);
    VgaStage(m, u);
    BitmapUnusedWhenPresent(u, NoneSet(TABLE_COUNT), VGA_BUFFER, VGA_BUFFER);
  }
  /** The mapped pages after boot and the heap's first address, in numbers. */
  lemma BootInNumbers(m: Image, order: InitOrder)
    requires Bootable(m)
    ensures InitPaging(m, order).Ok?
    ensures var r := InitPaging(m, order).value;
      && r.dir == m.dir && r.heapCurrent == r.heapMapped == 0x0F00_0000
      && FirstFree(r.frames) == Some(0) && FirstFree(r.tables) == Some(if order.AsWritten? then 0 else 1)
      && forall v: nat :: v < 0x10_0000 ==>
           Walk(r.mem, r.dir, v) ==
           if 0x100 <= v < 0x300 || v == 0xB8 || 0x500 <= v < 0x900 then Some(v) else None
  {
    hide InitPaging, WellFormed, Walk, TableClear;
    var r := InitPagingClearFirst(m);
    FirstFitKeepsPrefix(r.frames, 0);
    FirstFitKeepsPrefix(NoneSet(TABLE_COUNT), 0);
    FirstFitKeepsPrefix(r.tables, 1);
  }
}
