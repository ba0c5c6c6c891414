/** `map_page` and `unmap_page` with paging off: the two-level tables refine a plain map of pages. */
module Mapper {
  import opened Machine
  import opened Bitmap
  import opened Paging

  /** The state of the memory manager. Bitmaps are flags here; class `Vmm` keeps them as words. */
  datatype Vm = Vm(
    mem: Memory,          // physical memory, with the directory and all tables in it
    dir: nat,             // the physical page of `page_directory`
    tables: seq<bool>,    // page_table_bitmap
    frames: seq<bool>,    // page_frame_bitmap
    heapCurrent: Word,
    heapMapped: Word)

  function PageTableAllocate(s: Vm): Result<(Vm, Word), Halt> {
    match FirstFree(s.tables)
    case None => Stop(NoTables)
    case Some(i) => Ok((s.(tables := s.tables[i := true]), Wrap(PAGE_TABLE_AREA_START + PAGE_SIZE * i)))
  }

  /** Tables come from 0x00500000 on, the lowest free one first, and run out when all 1024 are taken. */
  lemma TableAddresses(s: Vm)
    requires |s.tables| == 1024
    ensures match PageTableAllocate(s)
      case Ok((t, table)) =>
        && 0x0050_0000 <= table < 0x0090_0000 && table % 4096 == 0
        && (forall i :: 0 <= i < (table - 0x0050_0000) / 4096 ==> s.tables[i])
        && !s.tables[(table - 0x0050_0000) / 4096]
        && t == s.(tables := s.tables[(table - 0x0050_0000) / 4096 := true])
      case Stop(why) => why == NoTables && forall i :: 0 <= i < 1024 ==> s.tables[i]
  {
    hide FirstFree;
    var r := FirstFree(s.tables);
    if r.Some? {
      assert 0x0050_0000 + 4096 * r.value < 0x0090_0000;
    }
  }

  /** The first half of `map_page`: make sure that directory slot `d` holds a table. */
  function InstallTable(s: Vm, d: nat): Result<Vm, Halt> {
    if Present(Slot(s.mem, s.dir, d)) then Ok(s)
    else
      var (t, table) :- PageTableAllocate(s);
      Ok(t.(mem := Store(t.mem, EntryIndex(t.dir, d), SetReadWrite(SetPresent(table)))))
  }

  function MapPage(s: Vm, va: Word, pa: Word): Result<Vm, Halt> {
    if !Aligned(va) then Stop(Unaligned)
    else if !Aligned(pa) then Stop(Unaligned)
    else
      var v := va / PAGE_SIZE;
      var t :- InstallTable(s, SlotOf(v));
      Ok(t.(mem := Store(t.mem, EntryIndex(PageOf(Slot(t.mem, t.dir, SlotOf(v))), IndexOf(v)),
                         SetReadWrite(SetPresent(pa)))))
  }

  function UnmapPage(s: Vm, va: Word): Result<Vm, Halt> {
    var v := va / PAGE_SIZE;
    if !Aligned(va) then Stop(Unaligned)
    else if !Present(Slot(s.mem, s.dir, SlotOf(v))) then Stop(NoDirectoryEntry)
    else
      var index := EntryIndex(PageOf(Slot(s.mem, s.dir, SlotOf(v))), IndexOf(v));
      if !Present(Load(s.mem, index)) then Stop(NotMapped)
      else Ok(s.(mem := Store(s.mem, index, UnsetPresent(Load(s.mem, index)))))
  }

  // ----- What a single call does to every translation -----

  /** Memory has its full size and no table lies on the directory. */
  ghost predicate Sound(s: Vm) {
    && |s.mem| == RAM_WORDS
    && |s.tables| == TABLE_COUNT
    && s.dir < RAM_PAGES
    && !(TABLE_AREA_PAGE <= s.dir < TABLE_AREA_PAGE_END)
    && (forall d: nat :: d < ENTRIES && Present(Slot(s.mem, s.dir, d)) ==>
          PageOf(Slot(s.mem, s.dir, d)) != s.dir && PageOf(Slot(s.mem, s.dir, d)) < RAM_PAGES)
  }

  /** The table page that mapping a page under slot `d` writes to. */
  function TableFor(s: Vm, d: nat): nat {
    if Present(Slot(s.mem, s.dir, d)) then PageOf(Slot(s.mem, s.dir, d))
    else TABLE_AREA_PAGE + FirstFree(s.tables).GetOr(0)
  }

  /** The table bitmap after mapping a page under slot `d`. */
  function TablesAfterMap(s: Vm, d: nat): seq<bool> {
    if Present(Slot(s.mem, s.dir, d)) || FirstFree(s.tables).None? then s.tables
    else s.tables[FirstFree(s.tables).value := true]
  }

  /** No call can reach another slot's table, or find old entries in the table it is handed. */
  ghost predicate Harmless(s: Vm, v: nat, p: nat) {
    var d, t := SlotOf(v), TableFor(s, SlotOf(v));
    // another slot that uses the same table already has this very entry ...
    && (forall e: nat ::
          e < ENTRIES && e != d && Present(Slot(s.mem, s.dir, e)) && PageOf(Slot(s.mem, s.dir, e)) == t ==>
          Walk(s.mem, s.dir, e * ENTRIES + IndexOf(v)) == Some(p))
    // ... and a table that is handed out has no other present entry
    && (Present(Slot(s.mem, s.dir, d)) ||
        forall i: nat :: i < ENTRIES && i != IndexOf(v) ==> !Present(Load(s.mem, EntryIndex(t, i))))
  }

  /** The translation of any page `w` after `map_page` has put page `p` at page `v`. */
  function WalkAfterMap(s: Vm, v: nat, p: nat, w: nat): Option<nat> {
    var t := TableFor(s, SlotOf(v));
    if IndexOf(w) == IndexOf(v) && (SlotOf(w) == SlotOf(v) ||
         (Present(Slot(s.mem, s.dir, SlotOf(w))) && PageOf(Slot(s.mem, s.dir, SlotOf(w))) == t)) then
      Some(p)
    else if SlotOf(w) == SlotOf(v) && !Present(Slot(s.mem, s.dir, SlotOf(v))) then
      var entry := Load(s.mem, EntryIndex(t, IndexOf(w)));
      if Present(entry) then Some(PageOf(entry)) else None
    else Walk(s.mem, s.dir, w)
  }

  lemma MapPageWalks(s: Vm, va: Word, pa: Word)
    requires Sound(s) && MapPage(s, va, pa).Ok?
    ensures var r := MapPage(s, va, pa).value;
      && Sound(r) && r.dir == s.dir
      && (forall e: nat :: e < ENTRIES && e != SlotOf(va / PAGE_SIZE) ==>
            Slot(r.mem, r.dir, e) == Slot(s.mem, s.dir, e))
      && Present(Slot(r.mem, r.dir, SlotOf(va / PAGE_SIZE)))
      && PageOf(Slot(r.mem, r.dir, SlotOf(va / PAGE_SIZE))) == TableFor(s, SlotOf(va / PAGE_SIZE))
      && r == s.(mem := r.mem, tables := TablesAfterMap(s, SlotOf(va / PAGE_SIZE)))
    ensures forall w: nat :: w < PAGES ==>
      Walk(MapPage(s, va, pa).value.mem, s.dir, w) == WalkAfterMap(s, va / PAGE_SIZE, pa / PAGE_SIZE, w)
  {
    hide InstallTable, TablesAfterMap, SetPresent, SetReadWrite, FirstFree;
    var v := va / PAGE_SIZE;
    var d := SlotOf(v);
    var t := InstallTable(s, d).value;
    var r := MapPage(s, va, pa).value;
    InstallTableSlots(s, d);
    InstallTableFrame(s, d);
    assert forall e: nat :: e < ENTRIES ==> Slot(r.mem, r.dir, e) == Slot(t.mem, t.dir, e);
    EntryBits(pa);
    forall w: nat | w < PAGES
      ensures Walk(r.mem, s.dir, w) == WalkAfterMap(s, v, pa / PAGE_SIZE, w)
    {
      assert Slot(r.mem, r.dir, SlotOf(w)) == Slot(t.mem, t.dir, SlotOf(w));
    }
  }

  /** The table entry written is the physical address with present and read/write set. */
  lemma MapPageTableEntry(s: Vm, va: Word, pa: Word)
    requires Sound(s) && MapPage(s, va, pa).Ok?
    ensures TableEntry(MapPage(s, va, pa).value.mem, s.dir, va / PAGE_SIZE) == pa + 3
  {
    var d := SlotOf(va / PAGE_SIZE);
    InstallTableSlots(s, d);
    EntryBits(pa);
    hide SetPresent, SetReadWrite, FirstFree, InstallTable, TableFor;
    var t := InstallTable(s, d).value;
    assert Slot(MapPage(s, va, pa).value.mem, s.dir, d) == Slot(t.mem, s.dir, d);
  }

  /** A present directory entry is kept; a missing one becomes the new table's address with the same bits. */
  lemma InstallTableEntry(s: Vm, d: nat)
    requires Sound(s) && d < ENTRIES && InstallTable(s, d).Ok?
    ensures Slot(InstallTable(s, d).value.mem, s.dir, d) ==
      if Present(Slot(s.mem, s.dir, d)) then Slot(s.mem, s.dir, d) else TableFor(s, d) * PAGE_SIZE + 3
  {
    hide SetPresent, SetReadWrite;
    if !Present(Slot(s.mem, s.dir, d)) {
      EntryBits(PageTableAllocate(s).value.1);
    }
  }

  /** Word `i` of memory after `map_page`, which writes one table entry, and a directory entry if that was missing. */
  function WordAfterMap(s: Vm, v: nat, p: nat, i: nat): int {
    var d := SlotOf(v);
    if i == EntryIndex(TableFor(s, d), IndexOf(v)) then p * 4096 + 3
    else if i == EntryIndex(s.dir, d) && !Present(Slot(s.mem, s.dir, d)) then TableFor(s, d) * 4096 + 3
    else Load(s.mem, i)
  }

  lemma MapPageWords(s: Vm, va: Word, pa: Word)
    requires Sound(s) && MapPage(s, va, pa).Ok?
    ensures forall i: nat ::
      Load(MapPage(s, va, pa).value.mem, i) == WordAfterMap(s, va / PAGE_SIZE, pa / PAGE_SIZE, i)
  {
    hide SetPresent, SetReadWrite, FirstFree, Present;
    var d := SlotOf(va / PAGE_SIZE);
    InstallTableSlots(s, d);
    EntryBits(pa);
    InstallTableEntry(s, d);
    InstallTableWords(s, d);
    hide InstallTable, TableFor;
    var t := InstallTable(s, d).value;
    assert pa == pa / PAGE_SIZE * 4096;
  }

  lemma InstallTableWords(s: Vm, d: nat)
    requires InstallTable(s, d).Ok?
    ensures forall i: nat :: i != EntryIndex(s.dir, d) || Present(Slot(s.mem, s.dir, d)) ==>
      Load(InstallTable(s, d).value.mem, i) == Load(s.mem, i)
  {
    hide SetPresent, SetReadWrite, FirstFree;
  }

  lemma InstallTableSlots(s: Vm, d: nat)
    requires Sound(s) && d < ENTRIES && InstallTable(s, d).Ok?
    ensures var t := InstallTable(s, d).value;
      && t.dir == s.dir && |t.mem| == RAM_WORDS && |t.tables| == TABLE_COUNT
      && Present(Slot(t.mem, s.dir, d)) && PageOf(Slot(t.mem, s.dir, d)) == TableFor(s, d)
      && TableFor(s, d) != s.dir && TableFor(s, d) < RAM_PAGES
      && (forall e: nat :: e < ENTRIES && e != d ==> Slot(t.mem, s.dir, e) == Slot(s.mem, s.dir, e))
      && (forall p: nat, i: nat :: p != s.dir && i < ENTRIES ==>
            Load(t.mem, EntryIndex(p, i)) == Load(s.mem, EntryIndex(p, i)))
  {
    hide SetPresent, SetReadWrite;
    if !Present(Slot(s.mem, s.dir, d)) {
      EntryBits(PageTableAllocate(s).value.1);
    }
  }

  lemma InstallTableFrame(s: Vm, d: nat)
    requires InstallTable(s, d).Ok?
    ensures var t := InstallTable(s, d).value; t == s.(mem := t.mem, tables := TablesAfterMap(s, d))
  {
    hide SetPresent, SetReadWrite, Store;
  }

  /** `address | 3` for an aligned address is a present entry for its page. */
  lemma EntryBits(address: Word)
    requires Aligned(address)
    ensures SetReadWrite(SetPresent(address)) == address + 3
    ensures Present(address + 3) && PageOf(address + 3) == address / PAGE_SIZE
  {
    LowBits(address / PAGE_SIZE);
    assert address == 4096 * (address / PAGE_SIZE);
  }

  lemma LowBits(p: nat)
    ensures 4096 * p % 2 == 0 && (4096 * p + 3) % 2 == 1
    ensures (4096 * p + 1) / 2 % 2 == 0 && (4096 * p + 3) / 4096 == p
  {
    EvenAndOdd(2048 * p);
    EvenAndOdd(2048 * p + 1);
    EvenAndOdd(1024 * p);
    PageAndOffset(p);
  }

  lemma EvenAndOdd(q: nat)
    ensures 2 * q % 2 == 0 && (2 * q + 1) % 2 == 1 && (2 * q + 1) / 2 == q
  {
  }

  lemma PageAndOffset(p: nat)
    ensures (4096 * p + 3) / 4096 == p
  {
  }

  /** Only page `v` changes, as `m[v := p]` would have it. */
  ghost predicate ChangesOnly(s: Vm, v: nat, p: nat) {
    forall w: nat :: w < PAGES ==> WalkAfterMap(s, v, p, w) == (if w == v then Some(p) else Walk(s.mem, s.dir, w))
  }

  lemma HarmlessIsNeeded(s: Vm, v: nat, p: nat)
    requires v < PAGES && ChangesOnly(s, v, p)
    ensures Harmless(s, v, p)
  {
    forall e: nat | e < ENTRIES && e != SlotOf(v) && Present(Slot(s.mem, s.dir, e)) &&
                    PageOf(Slot(s.mem, s.dir, e)) == TableFor(s, SlotOf(v))
      ensures Walk(s.mem, s.dir, e * ENTRIES + IndexOf(v)) == Some(p)
    {
      var w := e * ENTRIES + IndexOf(v);
      assert SlotOf(w) == e && IndexOf(w) == IndexOf(v) && w < PAGES;
      assert WalkAfterMap(s, v, p, w) == Some(p);
    }
    if !Present(Slot(s.mem, s.dir, SlotOf(v))) {
      forall i: nat | i < ENTRIES && i != IndexOf(v)
        ensures !Present(Load(s.mem, EntryIndex(TableFor(s, SlotOf(v)), i)))
      {
        var w := SlotOf(v) * ENTRIES + i;
        assert SlotOf(w) == SlotOf(v) && IndexOf(w) == i && w < PAGES && w != v;
        assert WalkAfterMap(s, v, p, w) == None;
      }
    }
  }

  lemma HarmlessSuffices(s: Vm, v: nat, p: nat)
    requires v < PAGES && Harmless(s, v, p)
    ensures ChangesOnly(s, v, p)
  {
    forall w: nat | w < PAGES
      ensures WalkAfterMap(s, v, p, w) == (if w == v then Some(p) else Walk(s.mem, s.dir, w))
    {
      assert w == SlotOf(w) * ENTRIES + IndexOf(w) && v == SlotOf(v) * ENTRIES + IndexOf(v);
      if IndexOf(w) == IndexOf(v) && SlotOf(w) != SlotOf(v) {
        assert w == SlotOf(w) * ENTRIES + IndexOf(v);
      }
    }
  }

  /** A mapping is determined by its walks. */
  lemma MappingUpdate(before: Memory, after: Memory, dir: nat, v: nat, p: nat)
    requires v < PAGES
    ensures Mapping(after, dir) == Mapping(before, dir)[v := p] <==>
      forall w: nat :: w < PAGES ==> Walk(after, dir, w) == (if w == v then Some(p) else Walk(before, dir, w))
  {
    var m, n := Mapping(before, dir), Mapping(after, dir);
    if n == m[v := p] {
      forall w: nat | w < PAGES
        ensures Walk(after, dir, w) == (if w == v then Some(p) else Walk(before, dir, w))
      {
        assert w in n <==> w == v || w in m;
      }
    }
  }

  /**
   * `map_page` changes exactly the requested translation if and only if the table it writes is
   * not shared in a way that matters and, when it is a new table, held no other present entry.
   */
  lemma MapPageExact(s: Vm, va: Word, pa: Word)
    requires Sound(s) && MapPage(s, va, pa).Ok?
    ensures Mapping(MapPage(s, va, pa).value.mem, s.dir) == Mapping(s.mem, s.dir)[va / PAGE_SIZE := pa / PAGE_SIZE]
      <==> Harmless(s, va / PAGE_SIZE, pa / PAGE_SIZE)
  {
    var v, p := va / PAGE_SIZE, pa / PAGE_SIZE;
    MapPageWalks(s, va, pa);
    MappingUpdate(s.mem, MapPage(s, va, pa).value.mem, s.dir, v, p);
    if Harmless(s, v, p) {
      HarmlessSuffices(s, v, p);
    }
    if ChangesOnly(s, v, p) {
      HarmlessIsNeeded(s, v, p);
    }
  }
}
