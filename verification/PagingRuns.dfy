/** With paging off, any sequence of `map_page` and `unmap_page` calls behaves like updates of a plain map. */
module PagingRuns {
  import opened Machine
  import opened Bitmap
  import opened Paging
  import opened Mapper

  function Count(flags: seq<bool>): (n: nat)
    ensures n <= |flags|
  {
    if flags == [] then 0 else (if flags[0] then 1 else 0) + Count(flags[1..])
  }

  lemma {:induction false} CountAfterSet(flags: seq<bool>, i: nat)
    requires i < |flags| && !flags[i]
    ensures Count(flags[i := true]) == Count(flags) + 1
  {
    if i == 0 {
      assert flags[i := true][1..] == flags[1..];
    } else {
      CountAfterSet(flags[1..], i - 1);
      assert flags[i := true][1..] == flags[1..][i - 1 := true];
    }
  }

  /** A count is full only when every flag is set. */
  lemma {:induction false} CountFull(flags: seq<bool>)
    ensures Count(flags) == |flags| <==> forall i :: 0 <= i < |flags| ==> flags[i]
  {
    if flags != [] {
      CountFull(flags[1..]);
      assert forall i :: 0 < i < |flags| ==> flags[i] == flags[1..][i - 1];
      if forall i :: 0 <= i < |flags| ==> flags[i] {
        assert forall i :: 0 <= i < |flags[1..]| ==> flags[1..][i] == flags[i + 1];
      }
    }
  }

  /** Which directory slots are present. */
  ghost function SlotFlags(mem: Memory, dir: nat): (flags: seq<bool>)
    ensures |flags| == ENTRIES
  {
    seq(ENTRIES, d requires 0 <= d < ENTRIES => Present(Slot(mem, dir, d)))
  }

  /** Distinct present slots own distinct tables. */
  ghost predicate TablesDistinct(s: Vm) {
    forall d: nat, e: nat :: d < e < ENTRIES && Present(Slot(s.mem, s.dir, d)) && Present(Slot(s.mem, s.dir, e)) ==>
      PageOf(Slot(s.mem, s.dir, d)) != PageOf(Slot(s.mem, s.dir, e))
  }

  /** Besides, a table in use is marked in the bitmap. */
  ghost predicate TablesOwned(s: Vm) {
    && TablesDistinct(s)
    && (forall d: nat :: d < ENTRIES && Present(Slot(s.mem, s.dir, d)) ==>
          TableMarked(s, PageOf(Slot(s.mem, s.dir, d))))
  }

  ghost predicate TableMarked(s: Vm, page: nat) {
    TABLE_AREA_PAGE <= page < TABLE_AREA_PAGE_END ==>
      page - TABLE_AREA_PAGE < |s.tables| && s.tables[page - TABLE_AREA_PAGE]
  }

  ghost predicate TableClear(mem: Memory, page: nat) {
    forall i: nat :: i < ENTRIES ==> !Present(Load(mem, EntryIndex(page, i)))
  }

  /** Tables not yet handed out have no present entry. */
  ghost predicate FreeTablesClear(s: Vm) {
    forall t :: 0 <= t < |s.tables| && !s.tables[t] ==> TableClear(s.mem, TABLE_AREA_PAGE + t)
  }

  ghost predicate WellFormed(s: Vm) {
    && Sound(s)
    && TablesOwned(s)
    && FreeTablesClear(s)
    && Count(s.tables) <= Count(SlotFlags(s.mem, s.dir))
  }

  lemma SoundOfWellFormed(s: Vm)
    requires WellFormed(s)
    ensures Sound(s)
  {
  }

  /** A missing slot leaves a free table, so the table-exhaustion panic is out of reach. */
  lemma NeverOutOfTables(s: Vm, d: nat)
    requires WellFormed(s) && d < ENTRIES && !Present(Slot(s.mem, s.dir, d))
    ensures FirstFree(s.tables).Some?
  {
    CountFull(s.tables);
    CountFull(SlotFlags(s.mem, s.dir));
    assert !SlotFlags(s.mem, s.dir)[d];
  }

  lemma MapPageIsHarmless(s: Vm, v: nat, p: nat)
    requires WellFormed(s) && v < PAGES
    requires Present(Slot(s.mem, s.dir, SlotOf(v))) || FirstFree(s.tables).Some?
    ensures Harmless(s, v, p)
  {
    var d := SlotOf(v);
    forall e: nat | e < ENTRIES && e != d && Present(Slot(s.mem, s.dir, e))
      ensures PageOf(Slot(s.mem, s.dir, e)) != TableFor(s, d)
    {
      assert TableMarked(s, PageOf(Slot(s.mem, s.dir, e)));
    }
  }

  /** `map_page` writes the directory and one table, nothing else. */
  lemma MapPageLeavesOtherTables(s: Vm, va: Word, pa: Word)
    requires Sound(s) && MapPage(s, va, pa).Ok?
    ensures forall q: nat, i: nat :: q != s.dir && q != TableFor(s, SlotOf(va / PAGE_SIZE)) && i < ENTRIES ==>
      Load(MapPage(s, va, pa).value.mem, EntryIndex(q, i)) == Load(s.mem, EntryIndex(q, i))
  {
    InstallTableSlots(s, SlotOf(va / PAGE_SIZE));
  }

  /** Giving slot `d` its table keeps every table with one owner. */
  lemma OwnershipKept(s: Vm, r: Vm, d: nat)
    requires TablesOwned(s) && d < ENTRIES && r.dir == s.dir
    requires |s.tables| == TABLE_COUNT
    requires !Present(Slot(s.mem, s.dir, d)) ==> FirstFree(s.tables).Some?
    requires r.tables == TablesAfterMap(s, d)
    requires forall e: nat :: e < ENTRIES && e != d ==> Slot(r.mem, s.dir, e) == Slot(s.mem, s.dir, e)
    requires Present(Slot(r.mem, s.dir, d)) && PageOf(Slot(r.mem, s.dir, d)) == TableFor(s, d)
    ensures TablesOwned(r)
  {
    forall e: nat | e < ENTRIES && Present(Slot(r.mem, s.dir, e))
      ensures TableMarked(r, PageOf(Slot(r.mem, s.dir, e)))
      ensures e != d ==> PageOf(Slot(r.mem, s.dir, e)) != PageOf(Slot(r.mem, s.dir, d))
    {
      if e != d {
        assert TableMarked(s, PageOf(Slot(s.mem, s.dir, e)));
      } else if Present(Slot(s.mem, s.dir, d)) {
        assert TableMarked(s, PageOf(Slot(s.mem, s.dir, d)));
      }
    }
  }

  /** A table that is free after `map_page` was free before, and is not the one it wrote. */
  lemma StillFree(s: Vm, d: nat, t: nat)
    requires WellFormed(s) && d < ENTRIES && t < TABLE_COUNT && !TablesAfterMap(s, d)[t]
    requires Present(Slot(s.mem, s.dir, d)) || FirstFree(s.tables).Some?
    ensures !s.tables[t] && TABLE_AREA_PAGE + t != TableFor(s, d)
  {
    assert Present(Slot(s.mem, s.dir, d)) ==> TableMarked(s, PageOf(Slot(s.mem, s.dir, d)));
  }

  lemma MapPageKeepsFreeTablesClear(s: Vm, va: Word, pa: Word)
    requires WellFormed(s) && MapPage(s, va, pa).Ok?
    ensures FreeTablesClear(MapPage(s, va, pa).value)
  {
    hide TablesAfterMap, TableFor, TablesOwned;
    var d := SlotOf(va / PAGE_SIZE);
    var r := MapPage(s, va, pa).value;
    InstallTableFrame(s, d);
    MapPageLeavesOtherTables(s, va, pa);
    forall t | 0 <= t < |r.tables| && !r.tables[t]
      ensures TableClear(r.mem, TABLE_AREA_PAGE + t)
    {
      StillFree(s, d, t);
      assert TableClear(s.mem, TABLE_AREA_PAGE + t);
    }
  }

  lemma MapPageKeepsWellFormed(s: Vm, va: Word, pa: Word)
    requires WellFormed(s) && MapPage(s, va, pa).Ok?
    ensures WellFormed(MapPage(s, va, pa).value)
  {
    var d := SlotOf(va / PAGE_SIZE);
    var r := MapPage(s, va, pa).value;
    MapPageWalks(s, va, pa);
    OwnershipKept(s, r, d);
    MapPageKeepsFreeTablesClear(s, va, pa);
    var flags := SlotFlags(s.mem, s.dir);
    assert SlotFlags(r.mem, r.dir) == flags[d := true];
    if Present(Slot(s.mem, s.dir, d)) {
      assert flags[d := true] == flags;
    } else {
      CountAfterSet(s.tables, FirstFree(s.tables).value);
      CountAfterSet(flags, d);
    }
  }

  /** Rewriting the entry of page `v` in its table leaves every other translation alone. */
  lemma EntryStoreWalks(s: Vm, v: nat, entry: Word)
    requires Sound(s) && TablesDistinct(s) && v < PAGES && Present(Slot(s.mem, s.dir, SlotOf(v)))
    ensures var mem := Store(s.mem, EntryIndex(PageOf(Slot(s.mem, s.dir, SlotOf(v))), IndexOf(v)), entry);
      && (forall e: nat :: e < ENTRIES ==> Slot(mem, s.dir, e) == Slot(s.mem, s.dir, e))
      && forall w: nat :: w < PAGES ==>
        Walk(mem, s.dir, w) ==
        (if w != v then Walk(s.mem, s.dir, w) else if Present(entry) then Some(PageOf(entry)) else None)
  {
    var mem := Store(s.mem, EntryIndex(PageOf(Slot(s.mem, s.dir, SlotOf(v))), IndexOf(v)), entry);
    forall w: nat | w < PAGES
      ensures Walk(mem, s.dir, w) ==
        (if w != v then Walk(s.mem, s.dir, w) else if Present(entry) then Some(PageOf(entry)) else None)
    {
      assert Slot(mem, s.dir, SlotOf(w)) == Slot(s.mem, s.dir, SlotOf(w));
      assert w == SlotOf(w) * ENTRIES + IndexOf(w) && v == SlotOf(v) * ENTRIES + IndexOf(v);
    }
  }

  lemma MappingRemove(before: Memory, after: Memory, dir: nat, v: nat)
    requires forall w: nat :: w < PAGES ==> Walk(after, dir, w) == (if w == v then None else Walk(before, dir, w))
    ensures Mapping(after, dir) == Mapping(before, dir) - {v}
  {
  }

  /** No other present slot uses the table of slot `d`. */
  ghost predicate SoleUser(s: Vm, d: nat) {
    forall e: nat :: e < ENTRIES && e != d && Present(Slot(s.mem, s.dir, e)) ==>
      PageOf(Slot(s.mem, s.dir, e)) != PageOf(Slot(s.mem, s.dir, d))
  }

  /** What `unmap_page` does to every translation, shared tables included. */
  lemma UnmapPageWalks(s: Vm, va: Word)
    requires Sound(s)
    ensures UnmapPage(s, va).Ok? <==> Aligned(va) && va / PAGE_SIZE in Mapping(s.mem, s.dir)
    ensures UnmapPage(s, va).Ok? ==>
      var r, v := UnmapPage(s, va).value, va / PAGE_SIZE;
      && r == s.(mem := r.mem) && Sound(r)
      && (forall e: nat :: e < ENTRIES ==> Slot(r.mem, s.dir, e) == Slot(s.mem, s.dir, e))
      && TableEntry(r.mem, s.dir, v) == TableEntry(s.mem, s.dir, v) - 1
      && forall w: nat :: w < PAGES ==>
           Walk(r.mem, s.dir, w) == if SharesEntry(s, v, w) then None else Walk(s.mem, s.dir, w)
  {
    var v := va / PAGE_SIZE;
    if UnmapPage(s, va).Ok? {
      var r := UnmapPage(s, va).value;
      assert forall e: nat :: e < ENTRIES ==> Slot(r.mem, s.dir, e) == Slot(s.mem, s.dir, e);
      forall w: nat | w < PAGES
        ensures Walk(r.mem, s.dir, w) == if SharesEntry(s, v, w) then None else Walk(s.mem, s.dir, w)
      {
        assert Slot(r.mem, s.dir, SlotOf(w)) == Slot(s.mem, s.dir, SlotOf(w));
      }
    }
  }

  /** `unmap_page` takes the present bit off one word of memory, and writes no other. */
  lemma UnmapPageWords(s: Vm, va: Word)
    requires Sound(s) && UnmapPage(s, va).Ok?
    ensures var v := va / PAGE_SIZE;
      var index := EntryIndex(PageOf(Slot(s.mem, s.dir, SlotOf(v))), IndexOf(v));
      forall i: nat :: Load(UnmapPage(s, va).value.mem, i) == Load(s.mem, i) - if i == index then 1 else 0
  {
  }

  /** Pages `v` and `w` are translated by the same word of memory. */
  predicate SharesEntry(s: Vm, v: nat, w: nat) {
    && IndexOf(w) == IndexOf(v) && Present(Slot(s.mem, s.dir, SlotOf(w))) && Present(Slot(s.mem, s.dir, SlotOf(v)))
    && PageOf(Slot(s.mem, s.dir, SlotOf(w))) == PageOf(Slot(s.mem, s.dir, SlotOf(v)))
  }

  /** `unmap_page` removes exactly the requested translation if and only if no other slot uses its table. */
  lemma UnmapPageExact(s: Vm, va: Word)
    requires Sound(s)
    ensures UnmapPage(s, va).Ok? <==> Aligned(va) && va / PAGE_SIZE in Mapping(s.mem, s.dir)
    ensures UnmapPage(s, va) == Stop(NoDirectoryEntry) <==>
      Aligned(va) && !SlotFlags(s.mem, s.dir)[va / 0x40_0000]
    ensures UnmapPage(s, va) == Stop(NotMapped) <==>
      Aligned(va) && SlotFlags(s.mem, s.dir)[va / 0x40_0000] && va / PAGE_SIZE !in Mapping(s.mem, s.dir)
    ensures UnmapPage(s, va).Ok? ==>
      (Mapping(UnmapPage(s, va).value.mem, s.dir) == Mapping(s.mem, s.dir) - {va / PAGE_SIZE}
       <==> SoleUser(s, SlotOf(va / PAGE_SIZE)))
  {
    var v := va / PAGE_SIZE;
    UnmapPageWalks(s, va);
    if UnmapPage(s, va).Ok? {
      var r := UnmapPage(s, va).value;
      var before, after := Mapping(s.mem, s.dir), Mapping(r.mem, s.dir);
      if SoleUser(s, SlotOf(v)) {
        SoleUserSharesNothing(s, v);
        hide Walk;
        MappingRemove(s.mem, r.mem, s.dir, v);
      } else {
        var e: nat :| e < ENTRIES && e != SlotOf(v) && Present(Slot(s.mem, s.dir, e)) &&
          PageOf(Slot(s.mem, s.dir, e)) == PageOf(Slot(s.mem, s.dir, SlotOf(v)));
        var w := e * ENTRIES + IndexOf(v);
        assert SlotOf(w) == e && IndexOf(w) == IndexOf(v) && w < PAGES;
        assert Walk(s.mem, s.dir, w) == Walk(s.mem, s.dir, v);
        assert w in before && w !in after;
      }
    }
  }

  lemma SoleUserSharesNothing(s: Vm, v: nat)
    requires SoleUser(s, SlotOf(v)) && v < PAGES
    ensures forall w: nat :: w < PAGES && SharesEntry(s, v, w) ==> w == v
  {
    forall w: nat | w < PAGES && SharesEntry(s, v, w) ensures w == v {
      assert w == SlotOf(w) * ENTRIES + IndexOf(w) && v == SlotOf(v) * ENTRIES + IndexOf(v);
    }
  }

  lemma UnmapPageKeepsWellFormed(s: Vm, va: Word)
    requires WellFormed(s) && UnmapPage(s, va).Ok?
    ensures WellFormed(UnmapPage(s, va).value)
  {
    var v := va / PAGE_SIZE;
    var r := UnmapPage(s, va).value;
    var t := PageOf(Slot(s.mem, s.dir, SlotOf(v)));
    EntryStoreWalks(s, v, UnsetPresent(TableEntry(s.mem, s.dir, v)));
    assert SlotFlags(r.mem, s.dir) == SlotFlags(s.mem, s.dir);
    assert TableMarked(s, t);
    forall k | 0 <= k < |s.tables| && !s.tables[k] ensures TableClear(r.mem, TABLE_AREA_PAGE + k) {
      assert TableClear(s.mem, TABLE_AREA_PAGE + k);
    }
    assert forall e: nat :: e < ENTRIES && Present(Slot(s.mem, s.dir, e)) ==>
      TableMarked(s, PageOf(Slot(s.mem, s.dir, e)));
  }

  // ----- Runs -----

  datatype PageOp = Map(va: Word, pa: Word) | Unmap(va: Word)

  function Step(s: Vm, op: PageOp): Result<Vm, Halt> {
    match op
    case Map(va, pa) => MapPage(s, va, pa)
    case Unmap(va) => UnmapPage(s, va)
  }

  function Run(s: Vm, ops: seq<PageOp>): Result<Vm, Halt>
    decreases |ops|
  {
    if ops == [] then Ok(s)
    else
      var t :- Step(s, ops[0]);
      Run(t, ops[1..])
  }

  /** The plain map: None is a call that a caller must not make. */
  function PlainStep(m: map<nat, nat>, op: PageOp): Option<map<nat, nat>> {
    match op
    case Map(va, pa) => if Aligned(va) && Aligned(pa) then Some(m[va / PAGE_SIZE := pa / PAGE_SIZE]) else None
    case Unmap(va) => if Aligned(va) && va / PAGE_SIZE in m then Some(m - {va / PAGE_SIZE}) else None
  }

  function PlainRun(m: map<nat, nat>, ops: seq<PageOp>): Option<map<nat, nat>>
    decreases |ops|
  {
    if ops == [] then Some(m)
    else
      match PlainStep(m, ops[0])
      case None => None
      case Some(n) => PlainRun(n, ops[1..])
  }

  lemma StepRefinesPlainMap(s: Vm, op: PageOp)
    requires WellFormed(s)
    ensures Step(s, op).Ok? ==> WellFormed(Step(s, op).value) && Step(s, op).value.dir == s.dir
    ensures Step(s, op).Stop? ==> Step(s, op).why in {Unaligned, NoDirectoryEntry, NotMapped}
    ensures PlainStep(Mapping(s.mem, s.dir), op) ==
      match Step(s, op) case Ok(t) => Some(Mapping(t.mem, s.dir)) case Stop(_) => None
  {
    match op
    case Map(va, pa) =>
      var v := va / PAGE_SIZE;
      if !Present(Slot(s.mem, s.dir, SlotOf(v))) {
        NeverOutOfTables(s, SlotOf(v));
      }
      if Aligned(va) && Aligned(pa) {
        MapPageKeepsWellFormed(s, va, pa);
        MapPageIsHarmless(s, v, pa / PAGE_SIZE);
        MapPageExact(s, va, pa);
      }
    case Unmap(va) =>
      UnmapPageExact(s, va);
      assert SoleUser(s, SlotOf(va / PAGE_SIZE)) || !Present(Slot(s.mem, s.dir, SlotOf(va / PAGE_SIZE)));
      if UnmapPage(s, va).Ok? {
        UnmapPageKeepsWellFormed(s, va);
      }
  }

  /**
   * Over any run the two-level tables agree with the plain map: same translations, and a halt
   * exactly when the plain map has no step. No run ever runs out of tables.
   */
  lemma {:induction false} RunRefinesPlainMap(s: Vm, ops: seq<PageOp>)
    requires WellFormed(s)
    ensures Run(s, ops).Ok? ==> WellFormed(Run(s, ops).value)
    ensures Run(s, ops).Stop? ==> Run(s, ops).why != NoTables
    ensures PlainRun(Mapping(s.mem, s.dir), ops) ==
      match Run(s, ops) case Ok(t) => Some(Mapping(t.mem, s.dir)) case Stop(_) => None
    decreases |ops|
  {
    if ops != [] {
      StepRefinesPlainMap(s, ops[0]);
      if Step(s, ops[0]).Ok? {
        RunRefinesPlainMap(Step(s, ops[0]).value, ops[1..]);
      }
    }
  }
}
