/** Two-level translation of 32-bit paging (section 4.3 of the Intel SDM, volume 3A), read from memory. */
module Paging {
  import opened Machine

  predicate Present(entry: Word) {
    entry % 2 == 1
  }

  /** The page an entry points at: `entry & 0xFFFFF000`, as a page number. */
  function PageOf(entry: Word): nat {
    entry / PAGE_SIZE
  }

  /** `entry |= 1`, `entry |= 2` and `entry &= ~1` */
  function SetPresent(entry: Word): Word {
    entry - entry % 2 + 1
  }

  function SetReadWrite(entry: Word): Word {
    if entry / 2 % 2 == 0 then Wrap(entry + 2) else entry
  }

  function UnsetPresent(entry: Word): Word {
    entry - entry % 2
  }

  predicate Aligned(address: Word) {
    address % PAGE_SIZE == 0
  }

  /** Word index of an entry of the directory or table held in a page. */
  function EntryIndex(page: nat, i: nat): nat {
    page * ENTRIES + i
  }

  /** Directory slot `d`. */
  function Slot(mem: Memory, dir: nat, d: nat): Word {
    Load(mem, EntryIndex(dir, d))
  }

  function SlotOf(v: nat): nat {
    v / ENTRIES
  }

  function IndexOf(v: nat): nat {
    v % ENTRIES
  }

  /** The page table entry the processor reads for virtual page `v` once its slot is present. */
  function TableEntry(mem: Memory, dir: nat, v: nat): Word {
    Load(mem, EntryIndex(PageOf(Slot(mem, dir, SlotOf(v))), IndexOf(v)))
  }

  /** The page walk: the physical page of virtual page `v`, or None for a page fault. */
  function Walk(mem: Memory, dir: nat, v: nat): Option<nat> {
    if Present(Slot(mem, dir, SlotOf(v))) && Present(TableEntry(mem, dir, v))
    then Some(PageOf(TableEntry(mem, dir, v)))
    else None
  }

  /** The plain map from virtual to physical pages that the tables stand for. */
  ghost function Mapping(mem: Memory, dir: nat): map<nat, nat> {
    map v: nat | v < PAGES && Walk(mem, dir, v).Some? :: Walk(mem, dir, v).value
  }

  function Translate(mem: Memory, dir: nat, address: Word): Option<nat> {
    match Walk(mem, dir, address / PAGE_SIZE)
    case Some(page) => Some(page * PAGE_SIZE + address % PAGE_SIZE)
    case None => None
  }

  /** `memset(address, 0, size)` through the page tables, one byte at a time. */
  function ZeroBytes(mem: Memory, dir: nat, address: Word, size: nat): Result<Memory, Halt>
    decreases size
  {
    if size == 0 then Ok(mem)
    else
      match Translate(mem, dir, address)
      case None => Stop(PageFault)
      case Some(physical) => ZeroBytes(StoreByte(mem, physical, 0), dir, Wrap(address + 1), size - 1)
  }

  /** A virtual address splits into slot, index and offset as the processor splits it. */
  lemma AddressParts(address: Word)
    ensures address / 0x40_0000 == SlotOf(address / PAGE_SIZE) < ENTRIES
    ensures address / PAGE_SIZE % 0x400 == IndexOf(address / PAGE_SIZE)
    ensures address / PAGE_SIZE < PAGES
  {
  }
}
