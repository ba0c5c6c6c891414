/** The bump heap: `page_frame_allocate` and `heap_allocate` on top of the page tables. */
module Heap {
  import opened Machine
  import opened Bitmap
  import opened Paging
  import opened Mapper
  import opened PagedMapper
  import opened HeapLayout

  function PageFrameAllocate(s: Vm, va: Word): Result<Vm, Halt> {
    if !Aligned(va) then Stop(Unaligned)
    else
      match FirstFree(s.frames)
      case None => Stop(NoFrames)
      case Some(i) =>
        var t :- PagedMapPage(s.(frames := s.frames[i := true]), va, Wrap(FRAME_AREA_START + PAGE_SIZE * i));
        var mem :- ZeroBytes(t.mem, t.dir, va, PAGE_SIZE);
        Ok(t.(mem := mem))
  }

  /** `while (heap_current + size > heap_mapped)`, for a top that passed the overflow check. */
  function GrowHeap(s: Vm, top: Word): Result<Vm, Halt>
    requires top <= HEAP_END
    decreases top - s.heapMapped
  {
    if top <= s.heapMapped then Ok(s)
    else
      var t :- PageFrameAllocate(s, s.heapMapped);
      GrowHeap(t.(heapMapped := s.heapMapped + PAGE_SIZE), top)
  }

  function HeapAllocate(s: Vm, size: Word): Result<(Vm, Word), Halt> {
    var top := Wrap(s.heapCurrent + size);
    if top > HEAP_END then Stop(HeapOverflow)
    else
      var t :- GrowHeap(s, top);
      var mem :- ZeroBytes(t.mem, t.dir, s.heapCurrent, size);
      Ok((t.(mem := mem, heapCurrent := top), s.heapCurrent))
  }

  /** A client stores a byte through a virtual address. */
  function ClientStore(s: Vm, address: Word, b: Byte): Result<Vm, Halt> {
    match Translate(s.mem, s.dir, address)
    case None => Stop(PageFault)
    case Some(physical) => Ok(s.(mem := StoreByte(s.mem, physical, b)))
  }

  /** What a load of a virtual address returns. */
  function VirtualByte(s: Vm, address: Word): Option<Byte> {
    match Translate(s.mem, s.dir, address)
    case None => None
    case Some(physical) => Some(LoadByte(s.mem, physical))
  }

  // ----- The invariant -----

  /** Heap pages mapped so far. */
  function HeapPagesMapped(s: Vm): int {
    (s.heapMapped - HEAP_START) / PAGE_SIZE
  }

  /** `heap_mapped` is `heap_current` rounded up to a page, and memory is laid out accordingly. */
  ghost predicate HeapInv(s: Vm, order: InitOrder) {
    && HEAP_START <= s.heapCurrent <= s.heapMapped <= HEAP_END
    && Aligned(s.heapMapped)
    && s.heapMapped - s.heapCurrent < PAGE_SIZE
    && Layout(s, order, HeapPagesMapped(s))
  }

  /** The bytes handed out so far, in address order. */
  ghost predicate Holds(s: Vm, c: seq<Byte>) {
    && s.heapCurrent == HEAP_START + |c|
    && forall i :: 0 <= i < |c| ==> FrameByte(s.mem, i) == c[i]
  }

  /** Byte `i` of the frame area. */
  function FrameByte(mem: Memory, i: nat): Byte {
    LoadByte(mem, FRAME_AREA_START + i)
  }

  /** Every mapped heap address translates to itself minus 0x0E700000, whatever the init order. */
  lemma HeapTranslation(s: Vm, order: InitOrder, k: nat, address: Word)
    requires TablesLaidOut(s, order, k) && HEAP_START <= address < HEAP_START + PAGE_SIZE * k
    ensures Translate(s.mem, s.dir, address) == Some(address - HEAP_SHIFT)
    ensures FRAME_AREA_START <= address - HEAP_SHIFT < FRAME_AREA_END && |s.mem| == RAM_WORDS
  {
    var v := address / PAGE_SIZE;
    assert v < PAGES && Walk(s.mem, s.dir, v) == Expected(order, k, v);
  }

  // ----- Zeroing -----

  lemma ZeroBytesStep(mem: Memory, dir: nat, address: Word, n: nat)
    ensures n == 0 ==> ZeroBytes(mem, dir, address, n) == Ok(mem)
    ensures n > 0 && Translate(mem, dir, address).None? ==> ZeroBytes(mem, dir, address, n) == Stop(PageFault)
    ensures n > 0 && Translate(mem, dir, address).Some? ==>
      ZeroBytes(mem, dir, address, n) ==
      ZeroBytes(StoreByte(mem, Translate(mem, dir, address).value, 0), dir, Wrap(address + 1), n - 1)
  {
  }

  /** From `before` to `after`, frame bytes `lo` up to `lo + n` became zero and nothing else changed. */
  ghost predicate FrameBytesZeroed(before: Memory, after: Memory, lo: nat, n: nat) {
    && AgreeBelow(before, after, FRAME_PAGE)
    && forall i: nat :: FrameByte(after, i) == if lo <= i < lo + n then 0 else FrameByte(before, i)
  }

  lemma StoreFrameByte(mem: Memory, i: nat, b: Byte, j: nat)
    requires |mem| == RAM_WORDS && FRAME_AREA_START + i < FRAME_AREA_END
    ensures AgreeBelow(mem, StoreByte(mem, FRAME_AREA_START + i, b), FRAME_PAGE)
    ensures FrameByte(StoreByte(mem, FRAME_AREA_START + i, b), j) == if j == i then b else FrameByte(mem, j)
  {
    StoreByteAgreesBelow(mem, FRAME_AREA_START + i, b, FRAME_PAGE);
    StoreByteChangesOneByte(mem, FRAME_AREA_START + i, b, FRAME_AREA_START + j);
  }

  lemma ZeroOneThenRest(before: Memory, after: Memory, lo: nat, n: nat)
    requires |before| == RAM_WORDS && FRAME_AREA_START + lo < FRAME_AREA_END && n > 0
    requires FrameBytesZeroed(StoreByte(before, FRAME_AREA_START + lo, 0), after, lo + 1, n - 1)
    ensures FrameBytesZeroed(before, after, lo, n)
  {
    hide StoreByte, FrameByte;
    forall i: nat
      ensures FrameByte(after, i) == if lo <= i < lo + n then 0 else FrameByte(before, i)
    {
      StoreFrameByte(before, lo, 0, i);
    }
    StoreFrameByte(before, lo, 0, lo);
  }

  /** Zeroing mapped heap bytes zeroes exactly their frame bytes, and touches no table. */
  lemma {:induction false} ZeroHeapBytes(s: Vm, order: InitOrder, k: nat, address: Word, n: nat)
    requires TablesLaidOut(s, order, k)
    requires HEAP_START <= address && address + n <= HEAP_START + PAGE_SIZE * k
    ensures ZeroBytes(s.mem, s.dir, address, n).Ok?
    ensures FrameBytesZeroed(s.mem, ZeroBytes(s.mem, s.dir, address, n).value, address - HEAP_START, n)
    decreases n
  {
    hide ZeroBytes, TablesLaidOut, Translate, StoreByte;
    ZeroBytesStep(s.mem, s.dir, address, n);
    if n > 0 {
      hide FrameBytesZeroed;
      HeapTranslation(s, order, k, address);
      var lo := address - HEAP_START;
      StoreFrameByte(s.mem, lo, 0, lo);
      var t := s.(mem := StoreByte(s.mem, FRAME_AREA_START + lo, 0));
      LayoutStable(s, order, k, t.mem);
      ZeroHeapBytes(t, order, k, address + 1, n - 1);
      ZeroOneThenRest(s.mem, ZeroBytes(t.mem, s.dir, address + 1, n - 1).value, lo, n);
    }
  }

  lemma HeapAddressIsHighOrUnmapped(s: Vm, order: InitOrder, k: nat, mem: Memory, address: Word)
    requires TablesLaidOut(s, order, k) && AgreeBelow(s.mem, mem, LIVE_PAGE_END)
    requires HEAP_START <= address <= HEAP_END
    ensures var physical := Translate(mem, s.dir, address);
      && (physical.Some? ==> physical.value >= LIVE_PAGE_END * PAGE_SIZE)
      && (address == HEAP_END ==> physical.None?)
  {
    WalkStable(s, order, k, mem, address / PAGE_SIZE);
  }

  /** Zeroing that runs past the end of the heap area ends in the page-fault handler. */
  lemma {:induction false} ZeroPastHeapFaults(s: Vm, order: InitOrder, k: nat, mem: Memory, address: Word, n: nat)
    requires TablesLaidOut(s, order, k) && AgreeBelow(s.mem, mem, LIVE_PAGE_END)
    requires HEAP_START <= address <= HEAP_END < address + n
    ensures ZeroBytes(mem, s.dir, address, n) == Stop(PageFault)
    decreases n
  {
    hide ZeroBytes, TablesLaidOut, Translate, StoreByte;
    ZeroBytesStep(mem, s.dir, address, n);
    HeapAddressIsHighOrUnmapped(s, order, k, mem, address);
    var physical := Translate(mem, s.dir, address);
    if physical.Some? {
      StoreByteAgreesBelow(mem, physical.value, 0, LIVE_PAGE_END);
      ZeroPastHeapFaults(s, order, k, StoreByte(mem, physical.value, 0), Wrap(address + 1), n - 1);
    }
  }

  // ----- Growing -----

  /** The directory and the table of the next heap page are mapped to themselves ... */
  lemma HeapTablesAtHome(s: Vm, order: InitOrder, k: nat)
    requires TablesLaidOut(s, order, k) && k < HEAP_PAGES
    ensures ThroughThemselves(s, SlotOf(HEAP_PAGE + k)) && Sound(s)
  {
    NextHeapTable(s, order, k);
    LayoutIsSound(s, order, k);
    hide Walk, TableFor, SlotsLaidOut, UnusedTablesClear, IsPrefix, Sound;
    var t := TableFor(s, SlotOf(HEAP_PAGE + k));
    assert TABLE_AREA_PAGE <= t < LIVE_PAGE_END;
    assert Walk(s.mem, s.dir, t) == Expected(order, k, t);
  }

  /** ... so paging makes no difference. */
  lemma HeapPageThroughTables(s: Vm, order: InitOrder, k: nat, pa: Word)
    requires TablesLaidOut(s, order, k) && k < HEAP_PAGES
    ensures PagedMapPage(s, HEAP_START + PAGE_SIZE * k, pa) == MapPage(s, HEAP_START + PAGE_SIZE * k, pa)
  {
    hide TablesLaidOut, PagedMapPage, MapPage, ThroughThemselves, Sound;
    HeapTablesAtHome(s, order, k);
    assert (HEAP_START + PAGE_SIZE * k) / PAGE_SIZE == HEAP_PAGE + k;
    PagedMapPageDirect(s, HEAP_START + PAGE_SIZE * k, pa);
  }

  lemma HeapPageFrame(s: Vm, order: InitOrder, k: nat)
    requires Layout(s, order, k) && k < HEAP_PAGES
    ensures PageFrameAllocate(s, HEAP_START + PAGE_SIZE * k).Ok?
    ensures var r := PageFrameAllocate(s, HEAP_START + PAGE_SIZE * k).value;
      && Layout(r, order, k + 1)
      && r == s.(mem := r.mem, tables := r.tables, frames := r.frames)
      && OnlyNewEntries(s.mem, r.mem, s.dir, order, k, k + 1)
      && forall i: nat :: i < PAGE_SIZE * (k + 1) ==>
           FrameByte(r.mem, i) == if i < PAGE_SIZE * k then FrameByte(s.mem, i) else 0
  {
    hide TablesLaidOut, MapPage, PagedMapPage, ZeroBytes, FrameByte, AgreeBelow, OnlyNewEntries;
    var va := HEAP_START + PAGE_SIZE * k;
    FirstFitKeepsPrefix(s.frames, k);
    var u := s.(frames := s.frames[k := true]);
    LaidOutWhateverFrames(s, u, order, k);
    MapHeapPage(u, order, k);
    HeapPageThroughTables(u, order, k, FRAME_AREA_START + PAGE_SIZE * k);
    var t := MapPage(u, va, FRAME_AREA_START + PAGE_SIZE * k).value;
    ZeroHeapBytes(t, order, k + 1, va, PAGE_SIZE);
    LayoutStable(t, order, k + 1, ZeroBytes(t.mem, t.dir, va, PAGE_SIZE).value);
    SameFrameBytes(s.mem, t.mem);
    OnlyNewEntriesIfNone(t.mem, ZeroBytes(t.mem, t.dir, va, PAGE_SIZE).value, s.dir, order, k + 1);
    OnlyNewEntriesJoin(s.mem, t.mem, ZeroBytes(t.mem, t.dir, va, PAGE_SIZE).value, s.dir, order, k, k + 1, k + 1);
  }

  lemma LaidOutWhateverFrames(s: Vm, u: Vm, order: InitOrder, k: nat)
    requires TablesLaidOut(s, order, k) && u.mem == s.mem && u.dir == s.dir && u.tables == s.tables
    ensures TablesLaidOut(u, order, k)
  {
  }

  lemma LayoutWhateverPointers(s: Vm, u: Vm, order: InitOrder, k: nat)
    requires Layout(s, order, k) && u == s.(heapCurrent := u.heapCurrent, heapMapped := u.heapMapped)
    ensures Layout(u, order, k)
  {
    LaidOutWhateverFrames(s, u, order, k);
  }

  lemma SameFrameBytes(m: Memory, n: Memory)
    requires forall i: nat :: i >= LIVE_PAGE_END * ENTRIES ==> Load(n, i) == Load(m, i)
    ensures forall i: nat :: FrameByte(n, i) == FrameByte(m, i)
  {
  }

  lemma GrowHeapStep(s: Vm, top: Word)
    requires top <= HEAP_END
    ensures top <= s.heapMapped ==> GrowHeap(s, top) == Ok(s)
    ensures top > s.heapMapped && PageFrameAllocate(s, s.heapMapped).Ok? ==>
      GrowHeap(s, top) ==
      GrowHeap(PageFrameAllocate(s, s.heapMapped).value.(heapMapped := s.heapMapped + PAGE_SIZE), top)
  {
    hide PageFrameAllocate;
  }

  /** What growing establishes, besides the layout of the new pages. */
  ghost predicate Grown(s: Vm, r: Vm, order: InitOrder, top: Word) {
    && HEAP_START <= s.heapMapped <= r.heapMapped <= HEAP_END && Aligned(r.heapMapped) && top <= r.heapMapped
    && (r.heapMapped > s.heapMapped ==> r.heapMapped - top < PAGE_SIZE)
    && r.heapCurrent == s.heapCurrent && r.dir == s.dir
    && OnlyNewEntries(s.mem, r.mem, s.dir, order, HeapPagesMapped(s), HeapPagesMapped(r))
    && forall i: nat :: HEAP_START + i < s.heapMapped ==> FrameByte(r.mem, i) == FrameByte(s.mem, i)
  }

  lemma GrownOnce(s: Vm, t: Vm, r: Vm, order: InitOrder, top: Word)
    requires HEAP_START <= s.heapMapped < top && t.heapMapped == s.heapMapped + PAGE_SIZE
    requires t.heapCurrent == s.heapCurrent && t.dir == s.dir
    requires OnlyNewEntries(s.mem, t.mem, s.dir, order, HeapPagesMapped(s), HeapPagesMapped(t))
    requires forall i: nat :: HEAP_START + i < s.heapMapped ==> FrameByte(t.mem, i) == FrameByte(s.mem, i)
    requires Grown(t, r, order, top) && (r.heapMapped == t.heapMapped ==> t.heapMapped - top < PAGE_SIZE)
    ensures Grown(s, r, order, top)
  {
    hide FrameByte, OnlyNewEntries;
    OnlyNewEntriesJoin(s.mem, t.mem, r.mem, s.dir, order, HeapPagesMapped(s), HeapPagesMapped(t), HeapPagesMapped(r));
  }

  /** The growth loop ends with every page up to `top` mapped, and only those. */
  lemma {:induction false} GrowHeapCorrect(s: Vm, order: InitOrder, top: Word)
    requires top <= HEAP_END && HEAP_START <= s.heapMapped <= HEAP_END && Aligned(s.heapMapped)
    requires Layout(s, order, HeapPagesMapped(s))
    ensures GrowHeap(s, top).Ok? && Grown(s, GrowHeap(s, top).value, order, top)
    ensures Layout(GrowHeap(s, top).value, order, HeapPagesMapped(GrowHeap(s, top).value))
    decreases top - s.heapMapped
  {
    hide Layout, PageFrameAllocate, FrameByte, OnlyNewEntries, GrowHeap, Grown;
    GrowHeapStep(s, top);
    if top > s.heapMapped {
      var k := HeapPagesMapped(s);
      assert s.heapMapped == HEAP_START + PAGE_SIZE * k;
      HeapPageFrame(s, order, k);
      var t := PageFrameAllocate(s, s.heapMapped).value.(heapMapped := s.heapMapped + PAGE_SIZE);
      assert HeapPagesMapped(t) == k + 1;
      LayoutWhateverPointers(PageFrameAllocate(s, s.heapMapped).value, t, order, k + 1);
      GrowHeapCorrect(t, order, top);
      GrownOnce(s, t, GrowHeap(t, top).value, order, top);
    } else {
      GrownNone(s, order, top);
    }
  }

  lemma GrownNone(s: Vm, order: InitOrder, top: Word)
    requires HEAP_START <= s.heapMapped <= HEAP_END && Aligned(s.heapMapped) && top <= s.heapMapped
    ensures Grown(s, s, order, top)
  {
  }

  // ----- The heap refines a growing byte sequence -----

  /** What a caller sees of `heap_allocate`: `size` zero bytes appended, or one of two halts. */
  function PlainAllocate(c: seq<Byte>, size: Word): Result<(seq<Byte>, nat), Halt> {
    if |c| + size <= HEAP_BYTES then Ok((c + Zeros(size), HEAP_START + |c|))
    else if HEAP_START + |c| + size < WORD_LIMIT then Stop(HeapOverflow)
    else Stop(PageFault)
  }

  /** From `s` to `t` the directory and the tables changed only by the entries of new heap pages. */
  ghost predicate TablesKept(s: Vm, t: Vm, order: InitOrder) {
    && s.dir == t.dir && HEAP_START <= s.heapMapped <= t.heapMapped
    && OnlyNewEntries(s.mem, t.mem, s.dir, order, HeapPagesMapped(s), HeapPagesMapped(t))
  }

  /**
   * `heap_allocate` is exactly PlainAllocate. It never runs out of frames or tables, and a size
   * for which the 32-bit sum wraps slips past the overflow check only to page fault.
   */
  lemma HeapAllocateRefines(s: Vm, order: InitOrder, c: seq<Byte>, size: Word)
    requires HeapInv(s, order) && Holds(s, c)
    ensures match (HeapAllocate(s, size), PlainAllocate(c, size))
      case (Ok((t, ret)), Ok((d, address))) =>
        ret == address && HeapInv(t, order) && Holds(t, d) && TablesKept(s, t, order)
      case (Stop(why), Stop(reason)) => why == reason
      case _ => false
  {
    hide TablesLaidOut, PageFrameAllocate, GrowHeap, ZeroBytes, FrameByte, OnlyNewEntries;
    var k := HeapPagesMapped(s);
    var top := Wrap(s.heapCurrent + size);
    if s.heapCurrent + size >= WORD_LIMIT {
      GrowHeapStep(s, top);
      ZeroPastHeapFaults(s, order, k, s.mem, s.heapCurrent, size);
    } else if top <= HEAP_END {
      GrowHeapCorrect(s, order, top);
      var t := GrowHeap(s, top).value;
      var j := HeapPagesMapped(t);
      assert t.heapMapped == HEAP_START + PAGE_SIZE * j;
      ZeroHeapBytes(t, order, j, s.heapCurrent, size);
      var mem := ZeroBytes(t.mem, t.dir, s.heapCurrent, size).value;
      LayoutStable(t, order, j, mem);
      OnlyNewEntriesIfNone(t.mem, mem, s.dir, order, j);
      OnlyNewEntriesJoin(s.mem, t.mem, mem, s.dir, order, k, j, j);
      LaidOutWhateverFrames(t.(mem := mem), t.(mem := mem, heapCurrent := top), order, j);
    }
  }

  lemma ClientStoreRefines(s: Vm, order: InitOrder, c: seq<Byte>, i: nat, b: Byte)
    requires HeapInv(s, order) && Holds(s, c) && i < |c|
    ensures var r := ClientStore(s, HEAP_START + i, b);
      r.Ok? && HeapInv(r.value, order) && Holds(r.value, c[i := b]) && TablesKept(s, r.value, order)
  {
    hide TablesLaidOut, Translate, StoreByte;
    var k := HeapPagesMapped(s);
    HeapTranslation(s, order, k, HEAP_START + i);
    var after := StoreByte(s.mem, FRAME_AREA_START + i, b);
    StoreFrameByte(s.mem, i, b, i);
    forall j | 0 <= j < |c| ensures FrameByte(after, j) == c[i := b][j] {
      StoreFrameByte(s.mem, i, b, j);
    }
    LayoutStable(s, order, k, after);
    OnlyNewEntriesIfNone(s.mem, after, s.dir, order, k);
  }

  /** The bytes a client reads back through the page tables are the bytes of the sequence. */
  lemma VirtualContents(s: Vm, order: InitOrder, c: seq<Byte>, i: nat)
    requires HeapInv(s, order) && Holds(s, c) && i < |c|
    ensures VirtualByte(s, HEAP_START + i) == Some(c[i])
  {
    HeapTranslation(s, order, HeapPagesMapped(s), HEAP_START + i);
  }
}
