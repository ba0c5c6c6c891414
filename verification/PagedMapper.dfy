/**
 * `map_page` and `unmap_page` once paging is on. The directory and the tables are then reached through
 * the tables themselves, so an access to them can fault, or land on another page.
 */
module PagedMapper {
  import opened Machine
  import opened Bitmap
  import opened Paging
  import opened Mapper
  import opened PagingRuns

  /** Word `i` of virtual page `v`. */
  function LoadThrough(s: Vm, v: nat, i: nat): Result<Word, Halt> {
    match Walk(s.mem, s.dir, v)
    case None => Stop(PageFault)
    case Some(x) => Ok(Load(s.mem, EntryIndex(x, i)))
  }

  function StoreThrough(s: Vm, v: nat, i: nat, w: Word): Result<Vm, Halt> {
    match Walk(s.mem, s.dir, v)
    case None => Stop(PageFault)
    case Some(x) => Ok(s.(mem := Store(s.mem, EntryIndex(x, i), w)))
  }

  function PagedInstallTable(s: Vm, d: nat): Result<Vm, Halt> {
    var pde :- LoadThrough(s, s.dir, d);
    if Present(pde) then Ok(s)
    else
      var (t, table) :- PageTableAllocate(s);
      StoreThrough(t, t.dir, d, SetReadWrite(SetPresent(table)))
  }

  function PagedMapPage(s: Vm, va: Word, pa: Word): Result<Vm, Halt> {
    if !Aligned(va) then Stop(Unaligned)
    else if !Aligned(pa) then Stop(Unaligned)
    else
      var v := va / PAGE_SIZE;
      var u :- PagedInstallTable(s, SlotOf(v));
      var pde :- LoadThrough(u, u.dir, SlotOf(v));
      StoreThrough(u, PageOf(pde), IndexOf(v), SetReadWrite(SetPresent(pa)))
  }

  function PagedUnmapPage(s: Vm, va: Word): Result<Vm, Halt> {
    var v := va / PAGE_SIZE;
    if !Aligned(va) then Stop(Unaligned)
    else
      var pde :- LoadThrough(s, s.dir, SlotOf(v));
      if !Present(pde) then Stop(NoDirectoryEntry)
      else
        var entry :- LoadThrough(s, PageOf(pde), IndexOf(v));
        if !Present(entry) then Stop(NotMapped)
        else StoreThrough(s, PageOf(pde), IndexOf(v), UnsetPresent(entry))
  }

  function PagedStep(s: Vm, op: PageOp): Result<Vm, Halt> {
    match op
    case Map(va, pa) => PagedMapPage(s, va, pa)
    case Unmap(va) => PagedUnmapPage(s, va)
  }

  function PagedRun(s: Vm, ops: seq<PageOp>): Result<Vm, Halt>
    decreases |ops|
  {
    if ops == [] then Ok(s)
    else
      var t :- PagedStep(s, ops[0]);
      PagedRun(t, ops[1..])
  }

  /** What a call or a run leaves mapped; None if it halted. */
  ghost function Outcome(r: Result<Vm, Halt>): Option<map<nat, nat>> {
    match r
    case Ok(t) => Some(Mapping(t.mem, t.dir))
    case Stop(_) => None
  }

  /** The call does what the plain map does: the same new map, or a halt where the plain map has no step. */
  ghost predicate IsPlain(s: Vm, op: PageOp) {
    Outcome(PagedStep(s, op)) == PlainStep(Mapping(s.mem, s.dir), op)
  }

  // ----- The accesses reach the pages they mean -----

  /** The directory and the table for slot `d` are mapped to themselves. */
  predicate ThroughThemselves(s: Vm, d: nat) {
    && Walk(s.mem, s.dir, s.dir) == Some(s.dir)
    && Walk(s.mem, s.dir, TableFor(s, d)) == Some(TableFor(s, d))
  }

  lemma PresentSlotIsKept(s: Vm, d: nat)
    requires Present(Slot(s.mem, s.dir, d))
    ensures InstallTable(s, d) == Ok(s)
  {
  }

  /** Giving a slot its table keeps the translations under every other slot. */
  lemma InstallTableKeepsWalks(s: Vm, d: nat, w: nat)
    requires Sound(s) && d < ENTRIES && InstallTable(s, d).Ok?
    requires w < PAGES && Present(Slot(s.mem, s.dir, SlotOf(w)))
    ensures Walk(InstallTable(s, d).value.mem, s.dir, w) == Walk(s.mem, s.dir, w)
  {
    hide InstallTable, TableFor;
    InstallTableSlots(s, d);
    if SlotOf(w) == d {
      PresentSlotIsKept(s, d);
    }
  }

  /** When the directory is mapped to itself, installing a table through it writes the directory. */
  lemma PagedInstallTableDirect(s: Vm, d: nat)
    requires Walk(s.mem, s.dir, s.dir) == Some(s.dir)
    ensures PagedInstallTable(s, d) == InstallTable(s, d)
  {
    hide Walk, SetPresent, SetReadWrite;
  }

  /** Then, and with the table mapped to itself, `map_page` does what it does with paging off. */
  lemma PagedMapPageDirect(s: Vm, va: Word, pa: Word)
    requires Sound(s) && ThroughThemselves(s, SlotOf(va / PAGE_SIZE))
    ensures PagedMapPage(s, va, pa) == MapPage(s, va, pa)
  {
    var d := SlotOf(va / PAGE_SIZE);
    PagedInstallTableDirect(s, d);
    if InstallTable(s, d).Ok? {
      InstallTableSlots(s, d);
      InstallTableKeepsWalks(s, d, s.dir);
      InstallTableKeepsWalks(s, d, TableFor(s, d));
      hide InstallTable, PagedInstallTable, TableFor, Walk, SetPresent, SetReadWrite, Sound;
    }
  }

  /** The same for `unmap_page`, which has no table to look at when the slot is empty. */
  lemma PagedUnmapPageDirect(s: Vm, va: Word)
    requires Walk(s.mem, s.dir, s.dir) == Some(s.dir)
    requires Present(Slot(s.mem, s.dir, SlotOf(va / PAGE_SIZE))) ==> ThroughThemselves(s, SlotOf(va / PAGE_SIZE))
    ensures PagedUnmapPage(s, va) == UnmapPage(s, va)
  {
    hide Walk, UnsetPresent;
  }

  // ----- What one store of a word does to every translation -----

  /** The table of page `w` is physical page `x`. */
  predicate InTable(s: Vm, w: nat, x: nat) {
    Present(Slot(s.mem, s.dir, SlotOf(w))) && PageOf(Slot(s.mem, s.dir, SlotOf(w))) == x
  }

  function EntryView(entry: Word): Option<nat> {
    if Present(entry) then Some(PageOf(entry)) else None
  }

  /** What the directory entry `entry`, just stored in slot `i`, makes of a page `w` of that slot. */
  function SlotView(s: Vm, i: nat, entry: Word, w: nat): Option<nat> {
    if !Present(entry) then None
    else if PageOf(entry) == s.dir && IndexOf(w) == i then Some(s.dir)
    else EntryView(Load(s.mem, EntryIndex(PageOf(entry), IndexOf(w))))
  }

  /** The translation of page `w` once word `i` of physical page `x` is `entry`. */
  function WalkAfterStore(s: Vm, x: nat, i: nat, entry: Word, w: nat): Option<nat> {
    if x == s.dir then
      if SlotOf(w) == i then SlotView(s, i, entry, w) else Walk(s.mem, s.dir, w)
    else
      if IndexOf(w) == i && InTable(s, w, x) then EntryView(entry) else Walk(s.mem, s.dir, w)
  }

  lemma WordStoreWalks(s: Vm, x: nat, i: nat, entry: Word)
    requires Sound(s) && i < ENTRIES
    ensures forall w: nat :: w < PAGES ==>
      Walk(Store(s.mem, EntryIndex(x, i), entry), s.dir, w) == WalkAfterStore(s, x, i, entry, w)
  {
    var mem := Store(s.mem, EntryIndex(x, i), entry);
    forall w: nat | w < PAGES
      ensures Walk(mem, s.dir, w) == WalkAfterStore(s, x, i, entry, w)
    {
      var slot := Slot(s.mem, s.dir, SlotOf(w));
      assert SlotOf(w) < ENTRIES && IndexOf(w) < ENTRIES;
      assert Slot(mem, s.dir, SlotOf(w)) == if x == s.dir && SlotOf(w) == i then entry else slot;
    }
  }

  // ----- map_page: when the store lands where it should -----

  /** The entry that `map_page` writes for physical page `p`: present and read/write. */
  function EntryFor(p: nat): Word
    requires p < PAGES
  {
    p * PAGE_SIZE + 3
  }

  /** The state once slot `d` has a table, and the physical page that the table's address leads to. */
  function MapTarget(s: Vm, d: nat): Result<(Vm, nat), Halt> {
    var u :- PagedInstallTable(s, d);
    var pde :- LoadThrough(u, u.dir, d);
    match Walk(u.mem, u.dir, PageOf(pde))
    case None => Stop(PageFault)
    case Some(x) => Ok((u, x))
  }

  /**
   * From `s`, with `u` the state after the table was installed: an entry for physical page `p` stored in
   * page `x`, at the place of page `v`, shows as `v` translated to `p` and as nothing else.
   */
  ghost predicate Lands(s: Vm, u: Vm, x: nat, v: nat, p: nat)
    requires p < PAGES
  {
    if x == s.dir then
      // it is a directory entry: page `p` has become the table of slot `IndexOf(v)`
      forall w: nat :: w < PAGES ==>
        (if SlotOf(w) == IndexOf(v) then SlotView(u, IndexOf(v), EntryFor(p), w) else Walk(u.mem, s.dir, w)) ==
        (if w == v then Some(p) else Walk(s.mem, s.dir, w))
    else
      // `x` is the table of `v`, or `v` was at `p` already
      && (InTable(u, v, x) || Walk(u.mem, s.dir, v) == Some(p))
      // another page that reads the same word was at `p` too, and the new table shows nothing else
      && forall w: nat :: w < PAGES && w != v ==>
        if IndexOf(w) == IndexOf(v) && InTable(u, w, x) then Walk(s.mem, s.dir, w) == Some(p)
        else Walk(u.mem, s.dir, w) == Walk(s.mem, s.dir, w)
  }

  lemma MapTargetIsWritten(s: Vm, va: Word, pa: Word)
    requires Aligned(va) && Aligned(pa)
    ensures PagedMapPage(s, va, pa) ==
      match MapTarget(s, SlotOf(va / PAGE_SIZE))
      case Stop(why) => Stop(why)
      case Ok((u, x)) => Ok(u.(mem := Store(u.mem, EntryIndex(x, IndexOf(va / PAGE_SIZE)),
                                            SetReadWrite(SetPresent(pa)))))
  {
    hide Walk, PagedInstallTable, SetPresent, SetReadWrite;
  }

  lemma PagedInstallTableSound(s: Vm, d: nat)
    requires Sound(s) && d < ENTRIES && PagedInstallTable(s, d).Ok?
    ensures Sound(PagedInstallTable(s, d).value) && PagedInstallTable(s, d).value.dir == s.dir
  {
    hide SetPresent, SetReadWrite, Walk;
    var x := Walk(s.mem, s.dir, s.dir).value;
    if !Present(Load(s.mem, EntryIndex(x, d))) {
      EntryBits(PageTableAllocate(s).value.1);
      var u := PagedInstallTable(s, d).value;
      assert forall e: nat :: e < ENTRIES && !(x == s.dir && e == d) ==>
        Slot(u.mem, s.dir, e) == Slot(s.mem, s.dir, e);
    }
  }

  /** The store changes only page `v`, as `m[v := p]` would have it. */
  ghost predicate StoreChangesOnly(s: Vm, u: Vm, x: nat, v: nat, p: nat)
    requires p < PAGES
  {
    forall w: nat :: w < PAGES ==>
      WalkAfterStore(u, x, IndexOf(v), EntryFor(p), w) == (if w == v then Some(p) else Walk(s.mem, s.dir, w))
  }

  lemma LandsIsNeeded(s: Vm, u: Vm, x: nat, v: nat, p: nat)
    requires u.dir == s.dir && v < PAGES && p < PAGES && StoreChangesOnly(s, u, x, v, p)
    ensures Lands(s, u, x, v, p)
  {
    hide Walk, SlotView, Slot;
    EntryBits(p * PAGE_SIZE);
    assert WalkAfterStore(u, x, IndexOf(v), EntryFor(p), v) == Some(p);
  }

  lemma LandsSuffices(s: Vm, u: Vm, x: nat, v: nat, p: nat)
    requires u.dir == s.dir && v < PAGES && p < PAGES && Lands(s, u, x, v, p)
    ensures StoreChangesOnly(s, u, x, v, p)
  {
    hide Walk, SlotView, Slot;
    EntryBits(p * PAGE_SIZE);
  }

  lemma LandsExactly(s: Vm, u: Vm, x: nat, v: nat, p: nat)
    requires Sound(u) && u.dir == s.dir && v < PAGES && p < PAGES
    ensures Mapping(Store(u.mem, EntryIndex(x, IndexOf(v)), EntryFor(p)), s.dir) == Mapping(s.mem, s.dir)[v := p]
      <==> Lands(s, u, x, v, p)
  {
    var entry: Word := EntryFor(p);
    var mem := Store(u.mem, EntryIndex(x, IndexOf(v)), entry);
    WordStoreWalks(u, x, IndexOf(v), entry);
    hide Walk, WalkAfterStore, Lands, Sound;
    MappingUpdate(s.mem, mem, s.dir, v, p);
    if Lands(s, u, x, v, p) {
      LandsSuffices(s, u, x, v, p);
    }
    if StoreChangesOnly(s, u, x, v, p) {
      LandsIsNeeded(s, u, x, v, p);
    }
  }

  /** For every sound state and aligned call: `map_page` is the plain map's step if and only if its store lands. */
  lemma PagedMapPageExact(s: Vm, va: Word, pa: Word)
    requires Sound(s) && Aligned(va) && Aligned(pa)
    ensures IsPlain(s, Map(va, pa)) <==>
      match MapTarget(s, SlotOf(va / PAGE_SIZE))
      case Stop(_) => false
      case Ok((u, x)) => Lands(s, u, x, va / PAGE_SIZE, pa / PAGE_SIZE)
  {
    hide Walk, PagedInstallTable, Lands, Mapping, Sound, PagedMapPage;
    var d := SlotOf(va / PAGE_SIZE);
    MapTargetIsWritten(s, va, pa);
    if MapTarget(s, d).Ok? {
      EntryBits(pa);
      var (u, x) := MapTarget(s, d).value;
      PagedInstallTableSound(s, d);
      LandsExactly(s, u, x, va / PAGE_SIZE, pa / PAGE_SIZE);
    }
  }

  /** The accesses go astray and the call is the plain map's step all the same. */
  ghost predicate AliasHarmless(s: Vm, v: nat, p: nat)
    requires p < PAGES
  {
    && !ThroughThemselves(s, SlotOf(v))
    && MapTarget(s, SlotOf(v)).Ok?
    && Lands(s, MapTarget(s, SlotOf(v)).value.0, MapTarget(s, SlotOf(v)).value.1, v, p)
  }

  /** In a well-formed state a call that reaches the directory and the table it means takes the plain map's step. */
  lemma PagedMapPagePlain(s: Vm, va: Word, pa: Word)
    requires WellFormed(s) && Aligned(va) && Aligned(pa) && ThroughThemselves(s, SlotOf(va / PAGE_SIZE))
    ensures IsPlain(s, Map(va, pa))
  {
    hide WellFormed, MapPage, PagedMapPage, Mapping, ThroughThemselves;
    StepRefinesPlainMap(s, Map(va, pa));
    SoundOfWellFormed(s);
    PagedMapPageDirect(s, va, pa);
  }

  /**
   * In a well-formed state `map_page` is the plain map's step if and only if the directory and the table
   * it stores through are mapped to themselves, or the stray store is one of the harmless ones.
   */
  lemma MapPageThroughTables(s: Vm, va: Word, pa: Word)
    requires WellFormed(s) && Aligned(va) && Aligned(pa)
    ensures IsPlain(s, Map(va, pa)) <==>
      ThroughThemselves(s, SlotOf(va / PAGE_SIZE)) || AliasHarmless(s, va / PAGE_SIZE, pa / PAGE_SIZE)
  {
    SoundOfWellFormed(s);
    hide WellFormed, ThroughThemselves, IsPlain, Lands, MapTarget, Sound;
    PagedMapPageExact(s, va, pa);
    if ThroughThemselves(s, SlotOf(va / PAGE_SIZE)) {
      PagedMapPagePlain(s, va, pa);
    }
  }

  /** A new table of a well-formed state shows nothing. */
  lemma InstallTableShowsNothing(s: Vm, d: nat, w: nat)
    requires WellFormed(s) && d < ENTRIES && InstallTable(s, d).Ok? && w < PAGES
    ensures Walk(InstallTable(s, d).value.mem, s.dir, w) == Walk(s.mem, s.dir, w)
  {
    hide InstallTable;
    InstallTableSlots(s, d);
    if Present(Slot(s.mem, s.dir, d)) {
      PresentSlotIsKept(s, d);
    } else if SlotOf(w) == d {
      NeverOutOfTables(s, d);
      assert TableClear(s.mem, TableFor(s, d));
    }
  }

  /**
   * With the directory mapped to itself the harmless corners are two: `v` was at `p` before the call, or the
   * table's address leads to the directory. Outside them the call is the plain map's step exactly when the
   * table is mapped to itself.
   */
  lemma MapPageNeedsItsTable(s: Vm, va: Word, pa: Word)
    requires WellFormed(s) && Aligned(va) && Aligned(pa)
    requires Walk(s.mem, s.dir, s.dir) == Some(s.dir)
    requires Walk(s.mem, s.dir, va / PAGE_SIZE) != Some(pa / PAGE_SIZE)
    requires Walk(s.mem, s.dir, TableFor(s, SlotOf(va / PAGE_SIZE))) != Some(s.dir)
    ensures var t := TableFor(s, SlotOf(va / PAGE_SIZE));
      IsPlain(s, Map(va, pa)) <==> Walk(s.mem, s.dir, t) == Some(t)
  {
    var v := va / PAGE_SIZE;
    var d, t := SlotOf(v), TableFor(s, SlotOf(v));
    if !Present(Slot(s.mem, s.dir, d)) {
      NeverOutOfTables(s, d);
    }
    PagedInstallTableDirect(s, d);
    InstallTableSlots(s, d);
    var u := InstallTable(s, d).value;
    InstallTableShowsNothing(s, d, s.dir);
    InstallTableShowsNothing(s, d, t);
    InstallTableShowsNothing(s, d, v);
    MapPageThroughTables(s, va, pa);
    hide WellFormed, Walk, IsPlain, InstallTable, PagedInstallTable, TableFor, Sound;
  }

  /** A directory that is not mapped stops every call. */
  lemma NoDirectoryNoCall(s: Vm, op: PageOp)
    requires Walk(s.mem, s.dir, s.dir) == None
    ensures PagedStep(s, op).Stop? && PagedStep(s, op).why in {Unaligned, PageFault}
  {
    hide Walk;
  }

  // ----- unmap_page -----

  /** The physical page in which `unmap_page` finds a present entry at the place of page `v`. */
  function UnmapTarget(s: Vm, v: nat): Result<nat, Halt> {
    var pde :- LoadThrough(s, s.dir, SlotOf(v));
    if !Present(pde) then Stop(NoDirectoryEntry)
    else
      match Walk(s.mem, s.dir, PageOf(pde))
      case None => Stop(PageFault)
      case Some(x) => if Present(Load(s.mem, EntryIndex(x, IndexOf(v)))) then Ok(x) else Stop(NotMapped)
  }

  /** Clearing the present bit of that entry in page `x` shows as `v` unmapped and as nothing else. */
  ghost predicate Unhooks(s: Vm, x: nat, v: nat) {
    if x == s.dir then
      // it is a directory entry: that of the slot of `v`, which has no other page
      && SlotOf(v) == IndexOf(v)
      && forall w: nat :: w < PAGES && w != v && SlotOf(w) == IndexOf(v) ==> Walk(s.mem, s.dir, w) == None
    else
      InTable(s, v, x) && SoleUser(s, SlotOf(v))
  }

  lemma UnmapTargetIsWritten(s: Vm, va: Word)
    requires Aligned(va)
    ensures PagedUnmapPage(s, va) ==
      match UnmapTarget(s, va / PAGE_SIZE)
      case Stop(why) => Stop(why)
      case Ok(x) =>
        var index := EntryIndex(x, IndexOf(va / PAGE_SIZE));
        Ok(s.(mem := Store(s.mem, index, UnsetPresent(Load(s.mem, index)))))
  {
    hide Walk, UnsetPresent;
  }

  lemma MappingRemoved(before: Memory, after: Memory, dir: nat, v: nat)
    ensures Mapping(after, dir) == Mapping(before, dir) - {v} <==>
      forall w: nat :: w < PAGES ==> Walk(after, dir, w) == (if w == v then None else Walk(before, dir, w))
  {
    var m, n := Mapping(before, dir), Mapping(after, dir);
    if n == m - {v} {
      forall w: nat | w < PAGES
        ensures Walk(after, dir, w) == (if w == v then None else Walk(before, dir, w))
      {
        assert w in n <==> w != v && w in m;
      }
    }
  }

  ghost predicate StoreRemovesOnly(s: Vm, x: nat, v: nat, entry: Word) {
    forall w: nat :: w < PAGES ==>
      WalkAfterStore(s, x, IndexOf(v), entry, w) == (if w == v then None else Walk(s.mem, s.dir, w))
  }

  lemma UnhooksIsNeeded(s: Vm, x: nat, v: nat, entry: Word)
    requires v < PAGES && Walk(s.mem, s.dir, v).Some? && !Present(entry) && StoreRemovesOnly(s, x, v, entry)
    requires Present(Load(s.mem, EntryIndex(x, IndexOf(v))))
    ensures Unhooks(s, x, v)
  {
    assert WalkAfterStore(s, x, IndexOf(v), entry, v) == None;
    if x == s.dir {
      hide Walk;
      forall w: nat | w < PAGES && w != v && SlotOf(w) == IndexOf(v) ensures Walk(s.mem, s.dir, w) == None {
        assert WalkAfterStore(s, x, IndexOf(v), entry, w) == None;
      }
    } else {
      forall e: nat | e < ENTRIES && e != SlotOf(v) && Present(Slot(s.mem, s.dir, e))
        ensures PageOf(Slot(s.mem, s.dir, e)) != PageOf(Slot(s.mem, s.dir, SlotOf(v)))
      {
        var w := e * ENTRIES + IndexOf(v);
        assert SlotOf(w) == e && IndexOf(w) == IndexOf(v) && w < PAGES && w != v;
        assert WalkAfterStore(s, x, IndexOf(v), entry, w) == Walk(s.mem, s.dir, w);
      }
    }
  }

  lemma UnhooksSuffices(s: Vm, x: nat, v: nat, entry: Word)
    requires v < PAGES && !Present(entry) && Unhooks(s, x, v)
    ensures StoreRemovesOnly(s, x, v, entry)
  {
    hide Walk, Slot;
    forall w: nat | w < PAGES
      ensures WalkAfterStore(s, x, IndexOf(v), entry, w) == (if w == v then None else Walk(s.mem, s.dir, w))
    {
      assert w == SlotOf(w) * ENTRIES + IndexOf(w) && v == SlotOf(v) * ENTRIES + IndexOf(v);
      assert SlotOf(w) < ENTRIES;
    }
  }

  /** For every sound state and aligned address: when `unmap_page` is the plain map's step, or rightly halts. */
  lemma PagedUnmapPageExact(s: Vm, va: Word)
    requires Sound(s) && Aligned(va)
    ensures IsPlain(s, Unmap(va)) <==>
      match UnmapTarget(s, va / PAGE_SIZE)
      case Stop(_) => Walk(s.mem, s.dir, va / PAGE_SIZE) == None
      case Ok(x) => Walk(s.mem, s.dir, va / PAGE_SIZE).Some? && Unhooks(s, x, va / PAGE_SIZE)
  {
    hide Walk, Unhooks, Sound, PagedUnmapPage, WalkAfterStore;
    var v := va / PAGE_SIZE;
    UnmapTargetIsWritten(s, va);
    assert v in Mapping(s.mem, s.dir) <==> Walk(s.mem, s.dir, v).Some?;
    if UnmapTarget(s, v).Ok? && Walk(s.mem, s.dir, v).Some? {
      var x := UnmapTarget(s, v).value;
      var index := EntryIndex(x, IndexOf(v));
      var entry := UnsetPresent(Load(s.mem, index));
      WordStoreWalks(s, x, IndexOf(v), entry);
      MappingRemoved(s.mem, Store(s.mem, index, entry), s.dir, v);
      hide Mapping;
      if Unhooks(s, x, v) {
        UnhooksSuffices(s, x, v, entry);
      }
      if StoreRemovesOnly(s, x, v, entry) {
        UnhooksIsNeeded(s, x, v, entry);
      }
    }
  }

  /** A mapped page with a table of its own, whose address does not lead to the directory. */
  lemma UnmapPageNeedsItsTable(s: Vm, va: Word)
    requires Sound(s) && Aligned(va) && Walk(s.mem, s.dir, s.dir) == Some(s.dir)
    requires Walk(s.mem, s.dir, va / PAGE_SIZE).Some? && SoleUser(s, SlotOf(va / PAGE_SIZE))
    requires Walk(s.mem, s.dir, TableFor(s, SlotOf(va / PAGE_SIZE))) != Some(s.dir)
    ensures var t := TableFor(s, SlotOf(va / PAGE_SIZE));
      IsPlain(s, Unmap(va)) <==> Walk(s.mem, s.dir, t) == Some(t)
  {
    PagedUnmapPageExact(s, va);
    hide Sound, IsPlain, SoleUser;
  }
}
