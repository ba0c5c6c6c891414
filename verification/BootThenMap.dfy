/** `map_page` and `unmap_page` from boot onwards, with paging on: which runs are runs of a plain map. */
module BootThenMap {
  import opened Machine
  import opened Bitmap
  import opened Paging
  import opened Mapper
  import opened PagingRuns
  import opened PagedMapper
  import opened PagedRuns
  import opened HeapLayout
  import opened Boot

  /** The pages of the directory and of the tables that boot puts into it. */
  ghost function BootTables(m: Image): set<nat> {
    {m.dir, m.first, m.second, TABLE_AREA_PAGE}
  }

  ghost function TableArea(): set<nat> {
    set page: nat | page < TABLE_AREA_PAGE_END && InTableArea(page)
  }

  /** At the end of boot both orders have the same memory, and its structures are mapped to themselves. */
  lemma BootGuarded(m: Image) returns (r: Vm)
    requires Bootable(m)
    ensures InitPaging(m, ClearFirst) == Ok(r) && InitPaging(m, AsWritten) == Ok(r.(tables := NoneSet(TABLE_COUNT)))
    ensures WellFormed(r) && r.dir == m.dir
    ensures forall d: nat :: d < ENTRIES ==> (Present(Slot(r.mem, r.dir, d)) <==> d < 3)
    ensures PageOf(Slot(r.mem, r.dir, 2)) == TABLE_AREA_PAGE
    ensures forall v: nat :: v < PAGES ==> Walk(r.mem, r.dir, v) == Expected(ClearFirst, 0, v)
    ensures Guarded(r, BootTables(m) + TableArea()) && Guarded(r, BootTables(m))
  {
    hide InitPaging, WellFormed, TableClear, Walk;
    r := InitPagingClearFirst(m);
    forall d: nat | d < ENTRIES && Present(Slot(r.mem, r.dir, d))
      ensures PageOf(Slot(r.mem, r.dir, d)) in BootTables(m)
    {
      assert d == 0 || d == 1 || d == 2;
    }
  }

  /**
   * Boot with the bitmap cleared first, then any run that leaves the directory, the static tables and the
   * table area mapped to themselves: the run is one of the plain map, without a fault or a missing table.
   */
  lemma BootThenMap(m: Image, ops: seq<PageOp>)
    requires Bootable(m) && SparesAll(ops, BootTables(m) + TableArea())
    ensures InitPaging(m, ClearFirst).Ok?
    ensures var s := InitPaging(m, ClearFirst).value;
      && Outcome(PagedRun(s, ops)) == PlainRun(Mapping(s.mem, s.dir), ops)
      && (PagedRun(s, ops).Stop? ==> PagedRun(s, ops).why in {Unaligned, NoDirectoryEntry, NotMapped})
  {
    hide InitPaging, Bootable, WellFormed, Guarded, Walk, Mapping;
    var r := BootGuarded(m);
    PagedRunRefinesPlainMap(r, BootTables(m) + TableArea(), ops);
  }

  // ----- The condition is needed -----

  /** A call that unmaps or moves page 0x500, made while that page holds the table of slot 2. */
  lemma TableZeroGoes(s: Vm, keep: set<nat>, op: PageOp)
    requires WellFormed(s) && Guarded(s, keep) && s.dir != TABLE_AREA_PAGE
    requires Present(Slot(s.mem, s.dir, 1)) && Present(Slot(s.mem, s.dir, 2))
    requires PageOf(Slot(s.mem, s.dir, 2)) == TABLE_AREA_PAGE
    requires op == Unmap(0x0050_0000) || op == Map(0x0050_0000, 0x00A0_0000)
    ensures PagedStep(s, op) == Step(s, op) && Step(s, op).Ok?
    ensures var r := Step(s, op).value;
      && WellFormed(r) && r.dir == s.dir && Slot(r.mem, s.dir, 2) == Slot(s.mem, s.dir, 2)
      && PlainStep(Mapping(s.mem, s.dir), op) == Some(Mapping(r.mem, s.dir))
      && Walk(r.mem, s.dir, TABLE_AREA_PAGE) == (if op.Map? then Some(0xA00) else None)
      && forall w: nat :: w < PAGES && w != TABLE_AREA_PAGE ==> Walk(r.mem, s.dir, w) == Walk(s.mem, s.dir, w)
  {
    hide WellFormed, Walk, PagedStep, Step;
    SoundOfWellFormed(s);
    assert SlotOf(TABLE_AREA_PAGE) == 1 && TABLE_AREA_PAGE in keep;
    GuardedStep(s, keep, op);
    StepRefinesPlainMap(s, op);
    assert TABLE_AREA_PAGE in Mapping(s.mem, s.dir);
    SlotsAfterStep(s, op, 2);
    var m, n := Mapping(s.mem, s.dir), Mapping(Step(s, op).value.mem, s.dir);
    forall w: nat | w < PAGES && w != TABLE_AREA_PAGE
      ensures Walk(Step(s, op).value.mem, s.dir, w) == Walk(s.mem, s.dir, w)
    {
      assert w in m <==> w in n;
    }
    assert op.Map? ==> TABLE_AREA_PAGE in n && n[TABLE_AREA_PAGE] == 0xA00;
    assert op.Unmap? ==> TABLE_AREA_PAGE !in n;
  }

  /**
   * Once page 0x500 is unmapped, mapping a page of slot 2 faults, although the slot, its table and the
   * bitmap are all in order.
   */
  lemma UnmappedTableFaults(m: Image)
    requires Bootable(m)
    ensures InitPaging(m, ClearFirst).Ok?
    ensures var s := InitPaging(m, ClearFirst).value;
      var ops := [Unmap(0x0050_0000), Map(0x0080_1000, 0x0090_1000)];
      PagedRun(s, ops) == Stop(PageFault) && Run(s, ops).Ok? && PlainRun(Mapping(s.mem, s.dir), ops).Some?
  {
    hide InitPaging, WellFormed, Expected, Walk;
    var s := BootGuarded(m);
    var ops := [Unmap(0x0050_0000), Map(0x0080_1000, 0x0090_1000)];
    TableZeroGoes(s, BootTables(m), ops[0]);
    var r := Step(s, ops[0]).value;
    assert Walk(r.mem, s.dir, s.dir) == Some(s.dir);
    assert ops[1..] == [ops[1]];
    assert PagedRun(r, [ops[1]]) == Stop(PageFault);
    assert Run(r, [ops[1]]).Ok?;
  }

  /** Once page 0x500 is mapped to page 0xA00, the entry goes there, and page 0x801 is not mapped to 0x901. */
  lemma MovedTableIsMissed(m: Image)
    requires Bootable(m)
    ensures InitPaging(m, ClearFirst).Ok?
    ensures var s := InitPaging(m, ClearFirst).value;
      var ops := [Map(0x0050_0000, 0x00A0_0000), Map(0x0080_1000, 0x0090_1000)];
      Outcome(PagedRun(s, ops)) != PlainRun(Mapping(s.mem, s.dir), ops)
  {
    hide InitPaging, WellFormed, Walk;
    var s := BootGuarded(m);
    var ops := [Map(0x0050_0000, 0x00A0_0000), Map(0x0080_1000, 0x0090_1000)];
    TableZeroGoes(s, BootTables(m), ops[0]);
    var r := Step(s, ops[0]).value;
    assert Walk(r.mem, s.dir, s.dir) == Some(s.dir);
    assert Walk(r.mem, s.dir, 0x801) == Some(0x801);
    MapPageNeedsItsTable(r, 0x0080_1000, 0x0090_1000);
    hide Mapping, PagedMapPage;
    assert ops[1..] == [ops[1]];
    assert PagedRun(r, [ops[1]]) == PagedStep(r, ops[1]);
  }

  // ----- The code as written, where the bitmap has lost table 0 -----

  /** Every page to be mapped lies under the three slots that boot has filled. */
  predicate MapsLow(ops: seq<PageOp>) {
    forall i :: 0 <= i < |ops| && ops[i].Map? ==> ops[i].va / PAGE_SIZE < 0xC00
  }

  /** The state that a written-order boot followed by a low run ends in. */
  ghost predicate ThreeSlots(s: Vm) {
    && Sound(s) && s.tables == NoneSet(TABLE_COUNT)
    && (forall d: nat :: d < ENTRIES ==> (Present(Slot(s.mem, s.dir, d)) <==> d < 3))
    && PageOf(Slot(s.mem, s.dir, 2)) == TABLE_AREA_PAGE
    && PageOf(Slot(s.mem, s.dir, 0)) != TABLE_AREA_PAGE && PageOf(Slot(s.mem, s.dir, 1)) != TABLE_AREA_PAGE
  }

  lemma WrittenBootState(m: Image) returns (s: Vm)
    requires Bootable(m)
    ensures InitPaging(m, AsWritten) == Ok(s)
    ensures ThreeSlots(s) && TablesDistinct(s) && Guarded(s, BootTables(m))
  {
    hide InitPaging, Walk, Expected;
    var r := BootGuarded(m);
    s := r.(tables := NoneSet(TABLE_COUNT));
  }

  lemma LowRunFillsSlots(s: Vm, ops: seq<PageOp>)
    requires ThreeSlots(s) && MapsLow(ops)
    ensures SlotsFilled(s, ops)
  {
    forall i | 0 <= i < |ops| && ops[i].Map?
      ensures Present(Slot(s.mem, s.dir, SlotOf(ops[i].va / PAGE_SIZE)))
    {
      assert SlotOf(ops[i].va / PAGE_SIZE) < 3;
    }
  }

  /**
   * The code as written: from boot, every run that maps only pages below 0xC00 and leaves the directory and
   * its three tables mapped to themselves is a run of the plain map.
   */
  lemma WrittenOrderLowRun(m: Image, ops: seq<PageOp>) returns (s: Vm)
    requires Bootable(m) && MapsLow(ops) && SparesAll(ops, BootTables(m))
    ensures InitPaging(m, AsWritten) == Ok(s)
    ensures Outcome(PagedRun(s, ops)) == PlainRun(Mapping(s.mem, s.dir), ops)
    ensures PagedRun(s, ops).Stop? ==> PagedRun(s, ops).why in {Unaligned, NoDirectoryEntry, NotMapped}
    ensures PagedRun(s, ops).Ok? ==>
      ThreeSlots(PagedRun(s, ops).value) && Guarded(PagedRun(s, ops).value, BootTables(m))
  {
    hide InitPaging, Walk, Guarded, Mapping, SlotsFilled, PagedRun;
    s := WrittenBootState(m);
    LowRunFillsSlots(s, ops);
    PagedRunUnderFilledSlots(s, BootTables(m), ops);
  }

  /** The part of a map that lies under one directory slot. */
  ghost function SlotPart(m: map<nat, nat>, d: nat): map<nat, nat> {
    map v: nat | v in m && SlotOf(v) == d :: m[v]
  }

  lemma SlotTwoEntry(s: Vm, i: nat)
    requires ThreeSlots(s) && i < ENTRIES
    ensures Walk(s.mem, s.dir, 0x800 + i) == EntryView(Load(s.mem, EntryIndex(TABLE_AREA_PAGE, i)))
  {
    assert SlotOf(0x800 + i) == 2 && IndexOf(0x800 + i) == i;
  }

  /** Slot 2 maps its page number `j` to `p`, and no other page. */
  ghost predicate OnlyInSlotTwo(s: Vm, j: nat, p: nat) {
    forall i: nat :: i < ENTRIES ==>
      EntryView(Load(s.mem, EntryIndex(TABLE_AREA_PAGE, i))) == if i == j then Some(p) else None
  }

  lemma SlotTwoPart(s: Vm, j: nat, p: nat)
    requires ThreeSlots(s) && j < ENTRIES
    ensures OnlyInSlotTwo(s, j, p) <==> SlotPart(Mapping(s.mem, s.dir), 2) == map[0x800 + j := p]
  {
    var part := SlotPart(Mapping(s.mem, s.dir), 2);
    hide Walk, ThreeSlots, EntryView;
    if part == map[0x800 + j := p] {
      forall i: nat | i < ENTRIES
        ensures EntryView(Load(s.mem, EntryIndex(TABLE_AREA_PAGE, i))) == if i == j then Some(p) else None
      {
        SlotTwoEntry(s, i);
        assert 0x800 + i in part <==> i == j;
      }
    }
    if OnlyInSlotTwo(s, j, p) {
      forall w: nat | w < PAGES && SlotOf(w) == 2
        ensures Walk(s.mem, s.dir, w) == if w == 0x800 + j then Some(p) else None
      {
        SlotTwoEntry(s, w - 0x800);
      }
    }
  }

  lemma NextTableIsTableZero(s: Vm, d: nat)
    requires ThreeSlots(s) && 3 <= d < ENTRIES
    ensures !Present(Slot(s.mem, s.dir, d)) && TableFor(s, d) == TABLE_AREA_PAGE && FirstFree(s.tables) == Some(0)
  {
    FirstFitKeepsPrefix(s.tables, 0);
  }

  /** With table 0 handed out twice, `map_page` is harmless only if slot 2 has the twin of `v` at `p`, and no more. */
  lemma SharedTableHarmless(s: Vm, v: nat, p: nat)
    requires ThreeSlots(s) && v < PAGES && SlotOf(v) >= 3
    ensures Harmless(s, v, p) <==> OnlyInSlotTwo(s, IndexOf(v), p)
  {
    hide Walk, NoneSet, TableFor, Sound;
    NextTableIsTableZero(s, SlotOf(v));
    SlotTwoEntry(s, IndexOf(v));
    assert 2 * ENTRIES + IndexOf(v) == 0x800 + IndexOf(v);
    assert Harmless(s, v, p) <==>
      && Walk(s.mem, s.dir, 0x800 + IndexOf(v)) == Some(p)
      && forall i: nat :: i < ENTRIES && i != IndexOf(v) ==> !Present(Load(s.mem, EntryIndex(TABLE_AREA_PAGE, i)));
  }

  lemma NextTableIsShared(t: Vm, va: Word, pa: Word)
    requires ThreeSlots(t) && ThroughThemselves(t, SlotOf(va / PAGE_SIZE))
    requires Aligned(va) && Aligned(pa) && va / PAGE_SIZE >= 0xC00
    ensures IsPlain(t, Map(va, pa)) <==>
      SlotPart(Mapping(t.mem, t.dir), 2) == map[0x800 + IndexOf(va / PAGE_SIZE) := pa / PAGE_SIZE]
  {
    var v, p := va / PAGE_SIZE, pa / PAGE_SIZE;
    assert SlotOf(v) >= 3 && Sound(t) && MapPage(t, va, pa).Ok? by {
      NextTableIsTableZero(t, SlotOf(v));
    }
    hide ThreeSlots, ThroughThemselves, MapPage, PagedMapPage, Walk, Mapping, Harmless, SlotPart, OnlyInSlotTwo;
    SharedTableHarmless(t, v, p);
    SlotTwoPart(t, IndexOf(v), p);
    PagedMapPageDirect(t, va, pa);
    MapPageExact(t, va, pa);
    MapPageKeepsDirectory(t, va, pa);
  }

  lemma MapPageKeepsDirectory(s: Vm, va: Word, pa: Word)
    requires MapPage(s, va, pa).Ok?
    ensures MapPage(s, va, pa).value.dir == s.dir
  {
  }

  /**
   * The exact price of the written order: after any such run, mapping a page `v` above them is the plain map's
   * step if and only if the plain map holds nothing in slot 2 but the twin of `v`, already at the same page.
   */
  lemma WrittenOrderNextTable(m: Image, ops: seq<PageOp>, va: Word, pa: Word) returns (s: Vm)
    requires Bootable(m) && MapsLow(ops) && SparesAll(ops, BootTables(m))
    requires Aligned(va) && Aligned(pa) && va / PAGE_SIZE >= 0xC00
    ensures InitPaging(m, AsWritten) == Ok(s)
    ensures PagedRun(s, ops).Ok? ==>
      var t, v, p := PagedRun(s, ops).value, va / PAGE_SIZE, pa / PAGE_SIZE;
      IsPlain(t, Map(va, pa)) <==> SlotPart(Mapping(t.mem, t.dir), 2) == map[0x800 + IndexOf(v) := p]
  {
    s := WrittenOrderLowRun(m, ops);
    if PagedRun(s, ops).Ok? {
      hide InitPaging, PagedRun, Walk, Mapping, SlotPart, Sound, IsPlain;
      var t, v := PagedRun(s, ops).value, va / PAGE_SIZE;
      NextTableIsTableZero(t, SlotOf(v));
      assert TABLE_AREA_PAGE in BootTables(m);
      NextTableIsShared(t, va, pa);
    }
  }

  // ----- Tables never run out -----

  lemma BootDirectoryHolds(m: Image, order: InitOrder) returns (s: Vm)
    requires Bootable(m)
    ensures InitPaging(m, order) == Ok(s) && s.dir == m.dir
    ensures DirectoryHolds(s, BootTables(m) + TableArea()) && TablesLast(s)
  {
    hide InitPaging, Walk, TableClear, FreeTablesClear, TableMarked;
    var r := InitPagingClearFirst(m);
    s := if order.ClearFirst? then r else r.(tables := NoneSet(TABLE_COUNT));
    NoneCounted(TABLE_COUNT);
    assert SlotOf(m.dir) == 0;
    forall w: nat | w in BootTables(m) + TableArea()
      ensures w < PAGES && AtHomeOrOutside(s, BootTables(m) + TableArea(), w)
    {
      assert SlotOf(w) < 3;
    }
    assert forall d: nat :: d < ENTRIES && Present(Slot(s.mem, s.dir, d)) ==> d == 0 || d == 1 || d == 2;
  }

  /** In either order: whatever is mapped where, as long as no page comes to lie on the directory or a table. */
  lemma BootNeverOutOfTables(m: Image, order: InitOrder, ops: seq<PageOp>)
    requires Bootable(m)
    requires forall i :: 0 <= i < |ops| ==> LeavesDirectory(ops[i], m.dir, BootTables(m) + TableArea())
    ensures InitPaging(m, order).Ok? && PagedRun(InitPaging(m, order).value, ops) != Stop(NoTables)
  {
    hide InitPaging, PagedRun, DirectoryHolds, LeavesDirectory;
    var s := BootDirectoryHolds(m, order);
    RunNeverOutOfTables(s, BootTables(m) + TableArea(), ops);
  }
}
