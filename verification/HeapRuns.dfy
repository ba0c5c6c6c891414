/** Whole runs of heap allocations mixed with client stores into the blocks they returned. */
module HeapRuns {
  import opened Machine
  import opened Bitmap
  import opened Paging
  import opened Mapper
  import opened HeapLayout
  import opened Heap

  datatype HeapOp = Alloc(size: Word) | StoreAt(address: Word, b: Byte)

  datatype Block = Block(start: nat, size: nat)

  /** What the clients know: the bytes of all their blocks in address order, and the blocks. */
  datatype Client = Client(contents: seq<Byte>, blocks: seq<Block>)

  /** The kernel's side of a run: the final state and the blocks that were returned. */
  function HeapRun(s: Vm, blocks: seq<Block>, ops: seq<HeapOp>): Result<(Vm, seq<Block>), Halt>
    decreases |ops|
  {
    if ops == [] then Ok((s, blocks))
    else
      match ops[0]
      case Alloc(size) =>
        var (t, start) :- HeapAllocate(s, size);
        HeapRun(t, blocks + [Block(start, size)], ops[1..])
      case StoreAt(address, b) =>
        var t :- ClientStore(s, address, b);
        HeapRun(t, blocks, ops[1..])
  }

  function ClientRun(c: Client, ops: seq<HeapOp>): Result<Client, Halt>
    requires Tiled(c) && StoresIntoBlocks(c, ops)
    ensures ClientRun(c, ops).Ok? ==> Tiled(ClientRun(c, ops).value)
    decreases |ops|
  {
    if ops == [] then Ok(c)
    else
      var d :- ClientStep(c, ops[0]);
      ClientRun(d, ops[1..])
  }

  function ClientStep(c: Client, op: HeapOp): (r: Result<Client, Halt>)
    requires Tiled(c) && (op.StoreAt? ==> InSomeBlock(c, op.address))
    ensures r.Ok? ==> Tiled(r.value)
    ensures r.Stop? ==> r.why in {HeapOverflow, PageFault}
  {
    match op
    case Alloc(size) =>
      var (d, start) :- PlainAllocate(c.contents, size);
      Ok(Client(d, c.blocks + [Block(start, size)]))
    case StoreAt(address, b) =>
      BlocksInHeap(c);
      Ok(c.(contents := c.contents[address - HEAP_START := b]))
  }

  /** Blocks lie back to back from the start of the heap and cover exactly the contents. */
  ghost predicate Tiled(c: Client) {
    && |c.contents| <= HEAP_BYTES
    && (c.blocks == [] ==> c.contents == [])
    && (c.blocks != [] ==>
          var last := c.blocks[|c.blocks| - 1];
          c.blocks[0].start == HEAP_START && last.start + last.size == HEAP_START + |c.contents|)
    && forall i :: 0 < i < |c.blocks| ==> c.blocks[i].start == c.blocks[i - 1].start + c.blocks[i - 1].size
  }

  ghost predicate InSomeBlock(c: Client, address: Word) {
    exists i :: 0 <= i < |c.blocks| && c.blocks[i].start <= address < c.blocks[i].start + c.blocks[i].size
  }

  /** The one thing asked of clients: every store goes to a block handed out before it. */
  ghost predicate StoresIntoBlocks(c: Client, ops: seq<HeapOp>)
    requires Tiled(c)
    decreases |ops|
  {
    ops == [] ||
    (&& (ops[0].StoreAt? ==> InSomeBlock(c, ops[0].address))
     && (ClientStep(c, ops[0]).Ok? ==> StoresIntoBlocks(ClientStep(c, ops[0]).value, ops[1..])))
  }

  lemma {:induction false} BlocksApart(c: Client, i: nat, j: nat)
    requires Tiled(c) && i < j < |c.blocks|
    ensures HEAP_START <= c.blocks[i].start
    ensures c.blocks[i].start + c.blocks[i].size <= c.blocks[j].start
    decreases i + j
  {
    assert c.blocks[j].start == c.blocks[j - 1].start + c.blocks[j - 1].size;
    if i < j - 1 {
      BlocksApart(c, i, j - 1);
    } else if i > 0 {
      BlocksApart(c, i - 1, i);
    }
  }

  lemma BlocksInHeap(c: Client)
    requires Tiled(c)
    ensures forall i :: 0 <= i < |c.blocks| ==>
      HEAP_START <= c.blocks[i].start && c.blocks[i].start + c.blocks[i].size <= HEAP_START + |c.contents|
  {
    forall i | 0 <= i < |c.blocks|
      ensures HEAP_START <= c.blocks[i].start && c.blocks[i].start + c.blocks[i].size <= HEAP_START + |c.contents|
    {
      if i < |c.blocks| - 1 {
        BlocksApart(c, i, |c.blocks| - 1);
      } else if i > 0 {
        BlocksApart(c, i - 1, i);
      }
    }
  }

  lemma TablesKeptJoin(s: Vm, t: Vm, u: Vm, order: InitOrder)
    requires TablesKept(s, t, order) && TablesKept(t, u, order)
    ensures TablesKept(s, u, order)
  {
    OnlyNewEntriesJoin(s.mem, t.mem, u.mem, s.dir, order, HeapPagesMapped(s), HeapPagesMapped(t), HeapPagesMapped(u));
  }

  lemma TablesKeptIdle(s: Vm, order: InitOrder)
    requires HeapInv(s, order)
    ensures TablesKept(s, s, order)
  {
    OnlyNewEntriesIfNone(s.mem, s.mem, s.dir, order, HeapPagesMapped(s));
  }

  /** After the kernel's run the invariant holds, clients see their bytes, and the tables are intact. */
  ghost predicate Agrees(s: Vm, order: InitOrder, run: Result<(Vm, seq<Block>), Halt>, plain: Result<Client, Halt>) {
    match (run, plain)
    case (Ok((t, blocks)), Ok(d)) =>
      HeapInv(t, order) && Holds(t, d.contents) && blocks == d.blocks && TablesKept(s, t, order)
    case (Stop(why), Stop(reason)) => why == reason && why in {HeapOverflow, PageFault}
    case _ => false
  }

  /**
   * Over any run of allocations and client stores the paged heap is a growing byte sequence. Both
   * sides return the same blocks and halt at the same point for the same reason, which is never
   * exhaustion of frames or tables; below the frame area only new heap entries are ever written.
   */
  lemma {:induction false} HeapRunRefinesClient(s: Vm, order: InitOrder, c: Client, ops: seq<HeapOp>)
    requires HeapInv(s, order) && Holds(s, c.contents)
    requires Tiled(c) && StoresIntoBlocks(c, ops)
    ensures Agrees(s, order, HeapRun(s, c.blocks, ops), ClientRun(c, ops))
    decreases |ops|
  {
    hide HeapInv, Holds, HeapAllocate, ClientStore, TablesKept, Tiled;
    if ops == [] {
      TablesKeptIdle(s, order);
    } else {
      var step := ClientStep(c, ops[0]);
      var t: Vm;
      match ops[0] {
        case Alloc(size) =>
          HeapAllocateRefines(s, order, c.contents, size);
          if step.Ok? {
            t := HeapAllocate(s, size).value.0;
          }
        case StoreAt(address, b) =>
          StoreInBlockRefines(s, order, c, address, b);
          t := ClientStore(s, address, b).value;
      }
      if step.Ok? {
        HeapRunRefinesClient(t, order, step.value, ops[1..]);
        var run := HeapRun(t, step.value.blocks, ops[1..]);
        if run.Ok? {
          TablesKeptJoin(s, t, run.value.0, order);
        }
      }
    }
  }

  lemma InBlockIsInHeap(c: Client, address: Word)
    requires Tiled(c) && InSomeBlock(c, address)
    ensures HEAP_START <= address < HEAP_START + |c.contents|
  {
    BlocksInHeap(c);
  }

  lemma StoreInBlockRefines(s: Vm, order: InitOrder, c: Client, address: Word, b: Byte)
    requires HeapInv(s, order) && Holds(s, c.contents)
    requires Tiled(c) && InSomeBlock(c, address)
    ensures var r := ClientStore(s, address, b);
      && r.Ok? && HeapInv(r.value, order) && TablesKept(s, r.value, order)
      && HEAP_START <= address < HEAP_START + |c.contents|
      && Holds(r.value, c.contents[address - HEAP_START := b])
  {
    hide HeapInv, Holds, ClientStore, TablesKept, Tiled, InSomeBlock;
    InBlockIsInHeap(c, address);
    ClientStoreRefines(s, order, c.contents, address - HEAP_START, b);
  }
}
