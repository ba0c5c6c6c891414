/** Runs of `map_page` and `unmap_page` with paging on, as long as the tables stay mapped to themselves. */
module PagedRuns {
  import opened Machine
  import opened Bitmap
  import opened Paging
  import opened Mapper
  import opened PagingRuns
  import opened PagedMapper

  /** The pages of `keep` are mapped to themselves, the directory and every table in use among them. */
  ghost predicate Guarded(s: Vm, keep: set<nat>) {
    && s.dir in keep
    && (forall d: nat :: d < ENTRIES && Present(Slot(s.mem, s.dir, d)) ==> PageOf(Slot(s.mem, s.dir, d)) in keep)
    && (forall x: nat :: x in keep ==> x < PAGES && Walk(s.mem, s.dir, x) == Some(x))
  }

  /** The call does not map a page of `keep` elsewhere, and does not unmap one. */
  predicate Spares(op: PageOp, keep: set<nat>) {
    match op
    case Map(va, pa) => va / PAGE_SIZE in keep ==> pa == va
    case Unmap(va) => va / PAGE_SIZE !in keep
  }

  ghost predicate SparesAll(ops: seq<PageOp>, keep: set<nat>) {
    forall i :: 0 <= i < |ops| ==> Spares(ops[i], keep)
  }

  /** The call stores through pages of `keep` only, so it is the call with paging off. */
  lemma GuardedStep(s: Vm, keep: set<nat>, op: PageOp)
    requires Sound(s) && Guarded(s, keep)
    requires op.Map? && Aligned(op.va) && Aligned(op.pa) ==> TableFor(s, SlotOf(op.va / PAGE_SIZE)) in keep
    ensures PagedStep(s, op) == Step(s, op)
  {
    hide Walk, Sound, PagedMapPage, MapPage, PagedUnmapPage, UnmapPage;
    match op
    case Map(va, pa) =>
      if Aligned(va) && Aligned(pa) {
        PagedMapPageDirect(s, va, pa);
      } else {
        UnalignedStops(s, va, pa);
      }
    case Unmap(va) =>
      assert SlotOf(va / PAGE_SIZE) < ENTRIES;
      PagedUnmapPageDirect(s, va);
  }

  lemma UnalignedStops(s: Vm, va: Word, pa: Word)
    requires !(Aligned(va) && Aligned(pa))
    ensures PagedMapPage(s, va, pa) == MapPage(s, va, pa) == Stop(Unaligned)
  {
  }

  /** A step of the plain map that spares a page leaves it mapped to itself. */
  lemma StaysMapped(before: Memory, after: Memory, dir: nat, op: PageOp, keep: set<nat>, x: nat)
    requires PlainStep(Mapping(before, dir), op) == Some(Mapping(after, dir)) && Spares(op, keep)
    requires x in keep && x < PAGES && Walk(before, dir, x) == Some(x)
    ensures Walk(after, dir, x) == Some(x)
  {
    hide Walk;
    var m, n := Mapping(before, dir), Mapping(after, dir);
    assert x in m && m[x] == x;
    assert x in n && n[x] == x;
  }

  /** The slots after a call: only `map_page` fills one, with the table it stores through. */
  lemma SlotsAfterStep(s: Vm, op: PageOp, d: nat)
    requires Sound(s) && Step(s, op).Ok? && d < ENTRIES
    ensures Sound(Step(s, op).value) && Step(s, op).value.dir == s.dir
    ensures var r, e := Step(s, op).value, SlotOf(op.va / PAGE_SIZE);
      if op.Map? && d == e then Present(Slot(r.mem, s.dir, d)) && PageOf(Slot(r.mem, s.dir, d)) == TableFor(s, d)
      else Slot(r.mem, s.dir, d) == Slot(s.mem, s.dir, d)
  {
    match op {
      case Map(va, pa) => MapPageWalks(s, va, pa);
      case Unmap(va) => UnmapPageWalks(s, va);
    }
  }

  /** A sparing call leaves the guarded pages where they are. */
  lemma StaysGuarded(s: Vm, keep: set<nat>, op: PageOp)
    requires Sound(s) && Guarded(s, keep) && Spares(op, keep) && Step(s, op).Ok?
    requires op.Map? ==> TableFor(s, SlotOf(op.va / PAGE_SIZE)) in keep
    requires PlainStep(Mapping(s.mem, s.dir), op) == Some(Mapping(Step(s, op).value.mem, s.dir))
    ensures Guarded(Step(s, op).value, keep)
  {
    hide Step, Sound, Walk, Mapping, PlainStep, Spares, Slot, TableFor;
    var r := Step(s, op).value;
    SlotsAfterStep(s, op, 0);
    forall d: nat | d < ENTRIES && Present(Slot(r.mem, s.dir, d)) ensures PageOf(Slot(r.mem, s.dir, d)) in keep {
      SlotsAfterStep(s, op, d);
    }
    forall x: nat | x in keep ensures Walk(r.mem, s.dir, x) == Some(x) {
      StaysMapped(s.mem, r.mem, s.dir, op, keep, x);
    }
  }

  // ----- Well-formed states -----

  predicate InTableArea(page: nat) {
    TABLE_AREA_PAGE <= page < TABLE_AREA_PAGE_END
  }

  ghost predicate KeepsTableArea(keep: set<nat>) {
    forall page: nat :: InTableArea(page) ==> page in keep
  }

  lemma TableForIsKept(s: Vm, keep: set<nat>, d: nat)
    requires WellFormed(s) && Guarded(s, keep) && KeepsTableArea(keep) && d < ENTRIES
    ensures TableFor(s, d) in keep
  {
    hide Walk;
    if !Present(Slot(s.mem, s.dir, d)) {
      NeverOutOfTables(s, d);
      assert InTableArea(TableFor(s, d));
    }
  }

  /**
   * Runs that spare the directory, the tables in use and the table area: with paging on the kernel does
   * what it does with paging off, and both do what the plain map does. No run faults or runs out of tables.
   */
  lemma {:induction false} PagedRunRefinesPlainMap(s: Vm, keep: set<nat>, ops: seq<PageOp>)
    requires WellFormed(s) && Guarded(s, keep) && KeepsTableArea(keep) && SparesAll(ops, keep)
    ensures PagedRun(s, ops) == Run(s, ops)
    ensures PagedRun(s, ops).Ok? ==> WellFormed(PagedRun(s, ops).value) && Guarded(PagedRun(s, ops).value, keep)
    ensures PagedRun(s, ops).Stop? ==> PagedRun(s, ops).why in {Unaligned, NoDirectoryEntry, NotMapped}
    ensures Outcome(PagedRun(s, ops)) == PlainRun(Mapping(s.mem, s.dir), ops)
    decreases |ops|
  {
    hide WellFormed, Guarded, Step, PagedStep, KeepsTableArea, Spares, Mapping, PlainStep, Sound, TableFor;
    if ops != [] {
      SoundOfWellFormed(s);
      var op := ops[0];
      assert Spares(op, keep);
      TableForIsKept(s, keep, SlotOf(op.va / PAGE_SIZE));
      GuardedStep(s, keep, op);
      StepRefinesPlainMap(s, op);
      if Step(s, op).Ok? {
        StaysGuarded(s, keep, op);
        assert SparesAll(ops[1..], keep);
        PagedRunRefinesPlainMap(Step(s, op).value, keep, ops[1..]);
      }
    }
  }

  // ----- Runs that need no new table, whatever the table bitmap says -----

  ghost predicate SlotsFilled(s: Vm, ops: seq<PageOp>) {
    forall i :: 0 <= i < |ops| && ops[i].Map? ==> Present(Slot(s.mem, s.dir, SlotOf(ops[i].va / PAGE_SIZE)))
  }

  /** Under a filled slot, with tables distinct, every call is the plain map's step, and slots keep their tables. */
  lemma StepUnderFilledSlot(s: Vm, op: PageOp)
    requires Sound(s) && TablesDistinct(s)
    requires op.Map? ==> Present(Slot(s.mem, s.dir, SlotOf(op.va / PAGE_SIZE)))
    ensures Step(s, op).Ok? ==>
      var r := Step(s, op).value;
      && Sound(r) && r.dir == s.dir && r.tables == s.tables
      && forall d: nat :: d < ENTRIES ==>
           && (Present(Slot(r.mem, s.dir, d)) <==> Present(Slot(s.mem, s.dir, d)))
           && PageOf(Slot(r.mem, s.dir, d)) == PageOf(Slot(s.mem, s.dir, d))
    ensures Step(s, op).Stop? ==> Step(s, op).why in {Unaligned, NoDirectoryEntry, NotMapped}
    ensures Outcome(Step(s, op)) == PlainStep(Mapping(s.mem, s.dir), op)
  {
    hide Walk, Mapping, Sound;
    match op
    case Map(va, pa) =>
      if Aligned(va) && Aligned(pa) {
        MapPageWalks(s, va, pa);
        MapPageExact(s, va, pa);
      }
    case Unmap(va) =>
      UnmapPageWalks(s, va);
      UnmapPageExact(s, va);
  }

  /** Runs that need no new table do what the plain map does even when the bitmap has lost its marks. */
  lemma {:induction false} PagedRunUnderFilledSlots(s: Vm, keep: set<nat>, ops: seq<PageOp>)
    requires Sound(s) && TablesDistinct(s) && Guarded(s, keep) && SlotsFilled(s, ops) && SparesAll(ops, keep)
    ensures PagedRun(s, ops) == Run(s, ops)
    ensures PagedRun(s, ops).Ok? ==>
      var r := PagedRun(s, ops).value;
      && Sound(r) && Guarded(r, keep) && r.dir == s.dir && r.tables == s.tables
      && forall d: nat :: d < ENTRIES ==>
           && (Present(Slot(r.mem, s.dir, d)) <==> Present(Slot(s.mem, s.dir, d)))
           && PageOf(Slot(r.mem, s.dir, d)) == PageOf(Slot(s.mem, s.dir, d))
    ensures PagedRun(s, ops).Stop? ==> PagedRun(s, ops).why in {Unaligned, NoDirectoryEntry, NotMapped}
    ensures Outcome(PagedRun(s, ops)) == PlainRun(Mapping(s.mem, s.dir), ops)
    decreases |ops|
  {
    hide Step, PagedStep, Spares, Mapping, PlainStep, Sound, Walk, Slot;
    if ops != [] {
      var op := ops[0];
      assert Spares(op, keep);
      assert SlotOf(op.va / PAGE_SIZE) < ENTRIES;
      GuardedStep(s, keep, op);
      StepUnderFilledSlot(s, op);
      if Step(s, op).Ok? {
        StaysGuarded(s, keep, op);
        PagedRunUnderFilledSlots(Step(s, op).value, keep, ops[1..]);
      }
    }
  }

  // ----- Runs that move tables about, and still never run out of them -----

  /**
   * The directory is mapped to itself by a table that is its own, every other page of `keep` is at home,
   * unmapped, or at a page outside `keep`, and there are at least as many filled slots as marked tables.
   */
  ghost predicate DirectoryHolds(s: Vm, keep: set<nat>) {
    && Sound(s)
    && Walk(s.mem, s.dir, s.dir) == Some(s.dir)
    && SoleUser(s, SlotOf(s.dir)) && !InTableArea(PageOf(Slot(s.mem, s.dir, SlotOf(s.dir))))
    && (forall d: nat :: d < ENTRIES && Present(Slot(s.mem, s.dir, d)) ==> PageOf(Slot(s.mem, s.dir, d)) in keep)
    && (forall w: nat :: w in keep ==> w < PAGES && AtHomeOrOutside(s, keep, w))
  }

  ghost predicate AtHomeOrOutside(s: Vm, keep: set<nat>, w: nat) {
    && Present(Slot(s.mem, s.dir, SlotOf(w)))
    && (Walk(s.mem, s.dir, w).Some? ==>
          Walk(s.mem, s.dir, w).value == w || Walk(s.mem, s.dir, w).value !in keep)
  }

  ghost predicate TablesLast(s: Vm) {
    Count(s.tables) <= Count(SlotFlags(s.mem, s.dir))
  }

  /** The call leaves the directory's own page alone and maps nothing onto a page of `keep`. */
  predicate LeavesDirectory(op: PageOp, dir: nat, keep: set<nat>) {
    op.va / PAGE_SIZE != dir && (op.Map? ==> op.pa / PAGE_SIZE !in keep)
  }

  /** Page `x` is the table of page `v`, or none of the kernel's. */
  ghost predicate OwnTableOrOutside(s: Vm, keep: set<nat>, v: nat, x: nat) {
    x !in keep || (Present(Slot(s.mem, s.dir, SlotOf(v))) && x == PageOf(Slot(s.mem, s.dir, SlotOf(v))))
  }

  lemma StoreKeepsSlots(s: Vm, x: nat, i: nat, entry: Word)
    requires x != s.dir && i < ENTRIES
    ensures forall d: nat :: d < ENTRIES ==>
      Slot(Store(s.mem, EntryIndex(x, i), entry), s.dir, d) == Slot(s.mem, s.dir, d)
  {
  }

  /** What the store does to the pages of `keep`: one of them can come to read the entry, but not the directory's. */
  lemma StoreKeepsPage(s: Vm, keep: set<nat>, v: nat, x: nat, entry: Word, w: nat)
    requires DirectoryHolds(s, keep) && s.dir in keep && v < PAGES && v != s.dir && w in keep
    requires OwnTableOrOutside(s, keep, v, x) && (Present(entry) ==> PageOf(entry) !in keep)
    ensures var r := s.(mem := Store(s.mem, EntryIndex(x, IndexOf(v)), entry));
      AtHomeOrOutside(r, keep, w) && (w == s.dir ==> Walk(r.mem, r.dir, w) == Some(w))
  {
    assert x != s.dir && AtHomeOrOutside(s, keep, w);
    StoreKeepsSlots(s, x, IndexOf(v), entry);
    WordStoreWalks(s, x, IndexOf(v), entry);
    hide Walk, Slot, Sound, SlotView;
    assert SlotOf(w) < ENTRIES && SlotOf(v) < ENTRIES;
    assert v == SlotOf(v) * ENTRIES + IndexOf(v) && w == SlotOf(w) * ENTRIES + IndexOf(w);
  }

  lemma SameSlotsKeepDirectory(s: Vm, r: Vm, keep: set<nat>)
    requires DirectoryHolds(s, keep) && r == s.(mem := r.mem) && |r.mem| == RAM_WORDS
    requires forall d: nat :: d < ENTRIES ==> Slot(r.mem, s.dir, d) == Slot(s.mem, s.dir, d)
    requires Walk(r.mem, s.dir, s.dir) == Some(s.dir)
    requires forall w: nat :: w in keep ==> AtHomeOrOutside(r, keep, w)
    ensures DirectoryHolds(r, keep) && SlotFlags(r.mem, r.dir) == SlotFlags(s.mem, s.dir)
  {
    hide Walk, Slot, AtHomeOrOutside;
    assert SlotOf(s.dir) < ENTRIES;
  }

  lemma StoreKeepsDirectory(s: Vm, keep: set<nat>, v: nat, x: nat, entry: Word)
    requires DirectoryHolds(s, keep) && s.dir in keep && v < PAGES && v != s.dir
    requires OwnTableOrOutside(s, keep, v, x) && (Present(entry) ==> PageOf(entry) !in keep)
    ensures var r := s.(mem := Store(s.mem, EntryIndex(x, IndexOf(v)), entry));
      DirectoryHolds(r, keep) && SlotFlags(r.mem, r.dir) == SlotFlags(s.mem, s.dir)
  {
    hide Walk, AtHomeOrOutside, SoleUser, InTableArea;
    var r := s.(mem := Store(s.mem, EntryIndex(x, IndexOf(v)), entry));
    assert x != s.dir;
    StoreKeepsSlots(s, x, IndexOf(v), entry);
    StoreKeepsPage(s, keep, v, x, entry, s.dir);
    forall w: nat | w in keep ensures AtHomeOrOutside(r, keep, w) {
      StoreKeepsPage(s, keep, v, x, entry, w);
    }
    SameSlotsKeepDirectory(s, r, keep);
  }

  /** A missing slot leaves a free table, and filling the slot takes one. */
  lemma MissingSlotTakesTable(s: Vm, d: nat)
    requires Sound(s) && TablesLast(s) && d < ENTRIES && !Present(Slot(s.mem, s.dir, d))
    ensures FirstFree(s.tables).Some? && InstallTable(s, d).Ok? && TablesLast(InstallTable(s, d).value)
  {
    CountFull(s.tables);
    CountFull(SlotFlags(s.mem, s.dir));
    assert !SlotFlags(s.mem, s.dir)[d];
    InstallTableSlots(s, d);
    var u := InstallTable(s, d).value;
    assert SlotFlags(u.mem, u.dir) == SlotFlags(s.mem, s.dir)[d := true];
    CountAfterSet(s.tables, FirstFree(s.tables).value);
    CountAfterSet(SlotFlags(s.mem, s.dir), d);
  }

  lemma NewTableKeepsPage(s: Vm, keep: set<nat>, d: nat, w: nat)
    requires DirectoryHolds(s, keep) && d < ENTRIES && InstallTable(s, d).Ok? && w in keep
    ensures var u := InstallTable(s, d).value; AtHomeOrOutside(u, keep, w) && u.dir == s.dir
    ensures Walk(InstallTable(s, d).value.mem, s.dir, w) == Walk(s.mem, s.dir, w)
  {
    assert AtHomeOrOutside(s, keep, w) && SlotOf(w) < ENTRIES;
    InstallTableSlots(s, d);
    InstallTableKeepsWalks(s, d, w);
    hide Walk, InstallTable, Sound;
  }

  lemma NewTableIsInArea(s: Vm, d: nat)
    requires Sound(s) && d < ENTRIES && !Present(Slot(s.mem, s.dir, d)) && InstallTable(s, d).Ok?
    ensures InTableArea(TableFor(s, d))
  {
  }

  lemma NewSlotKeepsDirectory(s: Vm, u: Vm, keep: set<nat>, d: nat)
    requires DirectoryHolds(s, keep) && KeepsTableArea(keep) && s.dir in keep && d < ENTRIES
    requires !Present(Slot(s.mem, s.dir, d)) && u.dir == s.dir && |u.mem| == RAM_WORDS && |u.tables| == TABLE_COUNT
    requires InTableArea(PageOf(Slot(u.mem, s.dir, d)))
    requires forall e: nat :: e < ENTRIES && e != d ==> Slot(u.mem, s.dir, e) == Slot(s.mem, s.dir, e)
    requires Walk(u.mem, s.dir, s.dir) == Some(s.dir)
    requires forall w: nat :: w in keep ==> AtHomeOrOutside(u, keep, w)
    ensures DirectoryHolds(u, keep)
  {
    assert AtHomeOrOutside(s, keep, s.dir) && SlotOf(s.dir) < ENTRIES;
    hide Walk, Slot, AtHomeOrOutside;
  }

  lemma NewTableKeepsDirectory(s: Vm, keep: set<nat>, d: nat)
    requires DirectoryHolds(s, keep) && KeepsTableArea(keep) && s.dir in keep && d < ENTRIES
    requires !Present(Slot(s.mem, s.dir, d)) && InstallTable(s, d).Ok?
    ensures DirectoryHolds(InstallTable(s, d).value, keep)
  {
    hide Walk, InstallTable, TableFor, InTableArea, AtHomeOrOutside, SoleUser;
    var u := InstallTable(s, d).value;
    InstallTableSlots(s, d);
    NewTableIsInArea(s, d);
    NewTableKeepsPage(s, keep, d, s.dir);
    forall w: nat | w in keep ensures AtHomeOrOutside(u, keep, w) {
      NewTableKeepsPage(s, keep, d, w);
    }
    NewSlotKeepsDirectory(s, u, keep, d);
  }

  lemma InstallTableKeepsDirectory(s: Vm, keep: set<nat>, d: nat)
    requires DirectoryHolds(s, keep) && TablesLast(s) && KeepsTableArea(keep) && s.dir in keep && d < ENTRIES
    ensures PagedInstallTable(s, d) == InstallTable(s, d) && InstallTable(s, d).Ok?
    ensures var u := InstallTable(s, d).value;
      && DirectoryHolds(u, keep) && TablesLast(u) && u.dir == s.dir
      && Present(Slot(u.mem, s.dir, d)) && PageOf(Slot(u.mem, s.dir, d)) in keep
  {
    PagedInstallTableDirect(s, d);
    if Present(Slot(s.mem, s.dir, d)) {
      PresentSlotIsKept(s, d);
    } else {
      MissingSlotTakesTable(s, d);
      NewTableKeepsDirectory(s, keep, d);
      hide InstallTable, Walk, PagedInstallTable;
      InstallTableSlots(s, d);
    }
  }

  /** A page reached through a page of `keep` is that page, or none of the kernel's. */
  lemma ReachesOwnTable(s: Vm, keep: set<nat>, v: nat, x: nat)
    requires DirectoryHolds(s, keep) && Present(Slot(s.mem, s.dir, SlotOf(v))) && v < PAGES
    requires Walk(s.mem, s.dir, PageOf(Slot(s.mem, s.dir, SlotOf(v)))) == Some(x)
    ensures OwnTableOrOutside(s, keep, v, x)
  {
    hide Walk;
    assert SlotOf(v) < ENTRIES;
    assert AtHomeOrOutside(s, keep, PageOf(Slot(s.mem, s.dir, SlotOf(v))));
  }

  lemma MapKeepsDirectory(s: Vm, keep: set<nat>, va: Word, pa: Word)
    requires DirectoryHolds(s, keep) && TablesLast(s) && KeepsTableArea(keep) && s.dir in keep
    requires va / PAGE_SIZE != s.dir && pa / PAGE_SIZE !in keep
    ensures match PagedMapPage(s, va, pa)
      case Ok(r) => DirectoryHolds(r, keep) && TablesLast(r) && r.dir == s.dir
      case Stop(why) => why != NoTables
  {
    hide DirectoryHolds, Walk, KeepsTableArea, InstallTable, SlotFlags;
    if Aligned(va) && Aligned(pa) {
      var v := va / PAGE_SIZE;
      InstallTableKeepsDirectory(s, keep, SlotOf(v));
      var u := InstallTable(s, SlotOf(v)).value;
      assert Walk(u.mem, u.dir, u.dir) == Some(u.dir) by {
        DirectoryAtHome(u, keep);
      }
      MapTargetIsWritten(s, va, pa);
      if MapTarget(s, SlotOf(v)).Ok? {
        EntryBits(pa);
        var x := MapTarget(s, SlotOf(v)).value.1;
        ReachesOwnTable(u, keep, v, x);
        hide OwnTableOrOutside, PagedMapPage;
        StoreKeepsDirectory(u, keep, v, x, SetReadWrite(SetPresent(pa)));
      }
    }
  }

  lemma DirectoryAtHome(s: Vm, keep: set<nat>)
    requires DirectoryHolds(s, keep)
    ensures Walk(s.mem, s.dir, s.dir) == Some(s.dir)
  {
  }

  lemma UnmapKeepsDirectory(s: Vm, keep: set<nat>, va: Word)
    requires DirectoryHolds(s, keep) && TablesLast(s) && s.dir in keep && va / PAGE_SIZE != s.dir
    ensures match PagedUnmapPage(s, va)
      case Ok(r) => DirectoryHolds(r, keep) && TablesLast(r) && r.dir == s.dir
      case Stop(why) => why != NoTables
  {
    hide DirectoryHolds, Walk, SlotFlags;
    if Aligned(va) {
      var v := va / PAGE_SIZE;
      DirectoryAtHome(s, keep);
      UnmapTargetIsWritten(s, va);
      if UnmapTarget(s, v).Ok? {
        var x := UnmapTarget(s, v).value;
        ReachesOwnTable(s, keep, v, x);
        hide OwnTableOrOutside, PagedUnmapPage;
        StoreKeepsDirectory(s, keep, v, x, UnsetPresent(Load(s.mem, EntryIndex(x, IndexOf(v)))));
      }
    }
  }

  /**
   * A run that leaves the directory's page alone and maps nothing onto a page of `keep` may move and unmap
   * tables, share them and fault, but it never stops for lack of a table.
   */
  lemma {:induction false} RunNeverOutOfTables(s: Vm, keep: set<nat>, ops: seq<PageOp>)
    requires DirectoryHolds(s, keep) && TablesLast(s) && KeepsTableArea(keep) && s.dir in keep
    requires forall i :: 0 <= i < |ops| ==> LeavesDirectory(ops[i], s.dir, keep)
    ensures PagedRun(s, ops) != Stop(NoTables)
    decreases |ops|
  {
    hide DirectoryHolds, TablesLast, KeepsTableArea, PagedMapPage, PagedUnmapPage;
    if ops != [] {
      var op := ops[0];
      assert LeavesDirectory(op, s.dir, keep);
      match op {
        case Map(va, pa) => MapKeepsDirectory(s, keep, va, pa);
        case Unmap(va) => UnmapKeepsDirectory(s, keep, va);
      }
      if PagedStep(s, op).Ok? {
        RunNeverOutOfTables(PagedStep(s, op).value, keep, ops[1..]);
      }
    }
  }
}
