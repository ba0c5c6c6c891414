/** The 32-bit machine the kernel runs on: words, bytes, physical memory, and the layout constants. */
module Machine {

  const WORD_LIMIT: int := 0x1_0000_0000

  type Word = w: int | 0 <= w < WORD_LIMIT
  type Byte = b: int | 0 <= b < 256

  /** Unsigned 32-bit arithmetic: every sum in the C code is reduced like this. */
  function Wrap(n: int): Word {
    n % WORD_LIMIT
  }

  // kernel/includes/memory.h, lines 12-19
  const PAGE_SIZE: int := 4096
  const KERNEL_START: Word := 0x0010_0000
  const KERNEL_END: Word := 0x0030_0000
  const PAGE_TABLE_AREA_START: Word := 0x0050_0000
  const PAGE_TABLE_AREA_END: Word := 0x0090_0000
  const FRAME_AREA_START: Word := 0x0090_0000
  const FRAME_AREA_END: Word := 0x0F00_0000
  const HEAP_START: Word := 0x0F00_0000
  const HEAP_END: Word := 0x1100_0000

  const VGA_BUFFER: Word := 0x000B_8000

  /** The same markers as page numbers. */
  const KERNEL_PAGE: nat := 0x100
  const KERNEL_PAGE_END: nat := 0x300
  const TABLE_AREA_PAGE: nat := 0x500
  const TABLE_AREA_PAGE_END: nat := 0x900
  const FRAME_PAGE: nat := 0x900
  const HEAP_PAGE: nat := 0xF000
  const VGA_PAGE: nat := 0xB8

  const TABLE_COUNT: nat := 1024
  const FRAME_COUNT: nat := 59136
  const HEAP_PAGES: nat := 8192
  const HEAP_BYTES: nat := 0x0200_0000

  /** Number of entries in a page directory or a page table, and words in a page. */
  const ENTRIES: nat := 1024

  /** Number of virtual pages. */
  const PAGES: nat := 0x10_0000

  /** Physical memory reaches to the end of the frame area. */
  const RAM_PAGES: nat := 0xF000
  const RAM_WORDS: nat := 0xF000 * 1024

  datatype Option<T> = None | Some(value: T)
  {
    function GetOr(default: T): T {
      if Some? then value else default
    }
  }

  /** Why the kernel stopped. Neither `panic` nor the page-fault handler ever returns. */
  datatype Halt =
    | Unaligned
    | NoFrames
    | NoTables
    | NoDirectoryEntry
    | NotMapped
    | HeapOverflow
    | PageFault

  datatype Result<+T, +E> = Ok(value: T) | Stop(why: E)
  {
    predicate IsFailure() {
      Stop?
    }

    function PropagateFailure<U>(): Result<U, E>
      requires Stop?
    {
      Stop(why)
    }

    function Extract(): T
      requires Ok?
    {
      value
    }
  }

  /** Physical memory is a sequence of words; reading outside it sees a floating bus, writing is lost. */
  type Memory = seq<Word>

  function Load(mem: Memory, index: nat): Word {
    if index < |mem| then mem[index] else 0xFFFF_FFFF
  }

  function Store(mem: Memory, index: nat, w: Word): (r: Memory)
    ensures |r| == |mem|
    ensures forall i: nat :: Load(r, i) == if i == index && index < |mem| then w else Load(mem, i)
  {
    if index < |mem| then mem[index := w] else mem
  }

  function Zeros(n: nat): (z: seq<Byte>)
    ensures |z| == n && forall i :: 0 <= i < n ==> z[i] == 0
  {
    seq(n, _ => 0)
  }

  /** Byte `i` of a word, little-endian. */
  function ByteOf(w: Word, i: nat): Byte
    requires i < 4
  {
    match i
    case 0 => w % 0x100
    case 1 => w / 0x100 % 0x100
    case 2 => w / 0x1_0000 % 0x100
    case _ => w / 0x100_0000
  }

  /** The word with the given little-endian bytes. */
  function FromBytes(b0: Byte, b1: Byte, b2: Byte, b3: Byte): Word {
    b0 + 0x100 * b1 + 0x1_0000 * b2 + 0x100_0000 * b3
  }

  lemma BytesOfWord(b0: Byte, b1: Byte, b2: Byte, b3: Byte)
    ensures var w := FromBytes(b0, b1, b2, b3);
      ByteOf(w, 0) == b0 && ByteOf(w, 1) == b1 && ByteOf(w, 2) == b2 && ByteOf(w, 3) == b3
  {
    var w := FromBytes(b0, b1, b2, b3);
    assert w / 0x100 == b1 + 0x100 * b2 + 0x1_0000 * b3;
    assert w / 0x1_0000 == b2 + 0x100 * b3;
    assert w / 0x100_0000 == b3;
  }

  /** The bytes of a word make it up again, the lowest first. */
  lemma WordOfBytes(w: Word)
    ensures FromBytes(ByteOf(w, 0), ByteOf(w, 1), ByteOf(w, 2), ByteOf(w, 3)) == w
    ensures ByteOf(w, 0) + 256 * ByteOf(w, 1) + 65536 * ByteOf(w, 2) + 16777216 * ByteOf(w, 3) == w
  {
    var a := w / 0x100;
    var b := a / 0x100;
    assert b == w / 0x1_0000 && b / 0x100 == w / 0x100_0000;
  }

  function WithByte(w: Word, i: nat, b: Byte): Word
    requires i < 4
  {
    FromBytes(if i == 0 then b else ByteOf(w, 0),
              if i == 1 then b else ByteOf(w, 1),
              if i == 2 then b else ByteOf(w, 2),
              if i == 3 then b else ByteOf(w, 3))
  }

  lemma WithByteChangesOneByte(w: Word, i: nat, b: Byte, j: nat)
    requires i < 4 && j < 4
    ensures ByteOf(WithByte(w, i, b), j) == if j == i then b else ByteOf(w, j)
  {
    BytesOfWord(if i == 0 then b else ByteOf(w, 0),
                if i == 1 then b else ByteOf(w, 1),
                if i == 2 then b else ByteOf(w, 2),
                if i == 3 then b else ByteOf(w, 3));
  }

  function LoadByte(mem: Memory, address: nat): Byte {
    ByteOf(Load(mem, address / 4), address % 4)
  }

  function StoreByte(mem: Memory, address: nat, b: Byte): (r: Memory)
    ensures |r| == |mem|
  {
    Store(mem, address / 4, WithByte(Load(mem, address / 4), address % 4, b))
  }

  /** The byte at the lowest address is the lowest of its word. */
  lemma LowByteFirst()
    ensures ByteOf(0x0102_0304, 0) == 4 && ByteOf(0x0102_0304, 3) == 1 && FromBytes(4, 3, 2, 1) == 0x0102_0304
    ensures LoadByte([0, 0x0102_0304], 4) == 4 && LoadByte([0, 0x0102_0304], 7) == 1
  {
  }

  /** A byte store changes exactly that byte. */
  lemma StoreByteChangesOneByte(mem: Memory, address: nat, b: Byte, a: nat)
    ensures LoadByte(StoreByte(mem, address, b), a) ==
      if a == address && address / 4 < |mem| then b else LoadByte(mem, a)
  {
    WithByteChangesOneByte(Load(mem, address / 4), address % 4, b, a % 4);
  }

  ghost predicate AgreeBelow(m: Memory, n: Memory, page: nat) {
    && |m| == |n|
    && forall i: nat :: i < page * ENTRIES ==> Load(m, i) == Load(n, i)
  }

  lemma StoreByteAgreesBelow(mem: Memory, address: nat, b: Byte, page: nat)
    requires page * PAGE_SIZE <= address
    ensures AgreeBelow(mem, StoreByte(mem, address, b), page)
  {
  }
}
