/** The heap of the scheduler's model is the kernel's: the two blocks of a task, allocated through the page tables. */
module TaskHeap {
  import opened Machine
  import opened Mapper
  import opened HeapLayout
  import opened Heap
  import HeapRuns
  import Tasks

  /** The flat memory of the scheduler holds what loads of the heap return. */
  ghost predicate SameHeap(k: Tasks.Kernel, s: Vm) {
    && k.heap == s.heapCurrent
    && forall a: Word :: HEAP_START <= a < k.heap ==> VirtualByte(s, a) == Some(LoadByte(k.mem, a))
  }

  /** The calls `halloc(sizeof(process_t))` and `halloc(4096)` of `create_kernel_task`. */
  function TaskAllocations(): seq<HeapRuns.HeapOp> {
    [HeapRuns.Alloc(Tasks.PCB_SIZE), HeapRuns.Alloc(Tasks.STACK_SIZE)]
  }

  /** The heap once a task's blocks are taken and zeroed. */
  function WithTaskBlocks(k: Tasks.Kernel): Tasks.Kernel
    requires k.heap + Tasks.TASK_SIZE <= HEAP_END
  {
    k.(heap := k.heap + Tasks.TASK_SIZE, mem := Tasks.ZeroWords(k.mem, k.heap / 4, Tasks.TASK_SIZE / 4))
  }

  lemma ZeroedBytes(k: Tasks.Kernel, a: Word)
    requires k.heap % 4 == 0 && k.heap + Tasks.TASK_SIZE <= HEAP_END <= |k.mem| * 4
    ensures a < k.heap ==> LoadByte(WithTaskBlocks(k).mem, a) == LoadByte(k.mem, a)
    ensures k.heap <= a < k.heap + Tasks.TASK_SIZE ==> LoadByte(WithTaskBlocks(k).mem, a) == 0
  {
    hide Tasks.ZeroWords, Load;
    Tasks.ZeroedWords(k.mem, k.heap / 4, Tasks.TASK_SIZE / 4);
  }

  /** Two allocations in a row hand out adjacent blocks of zeros, or stop with the heap overflow panic. */
  lemma TwoAllocations(s: Vm, order: InitOrder, c: seq<Byte>, blocks: seq<HeapRuns.Block>)
    requires HeapInv(s, order) && Holds(s, c)
    ensures match HeapRuns.HeapRun(s, blocks, TaskAllocations())
      case Ok((t, after)) =>
        && |c| + Tasks.TASK_SIZE <= HEAP_BYTES
        && HeapInv(t, order) && Holds(t, c + Zeros(Tasks.TASK_SIZE))
        && after == blocks + [HeapRuns.Block(s.heapCurrent, Tasks.PCB_SIZE),
                              HeapRuns.Block(s.heapCurrent + Tasks.PCB_SIZE, Tasks.STACK_SIZE)]
      case Stop(why) => |c| + Tasks.TASK_SIZE > HEAP_BYTES && why == HeapOverflow
  {
    hide Layout, HeapAllocate, FrameByte;
    HeapAllocateRefines(s, order, c, Tasks.PCB_SIZE);
    var ops := TaskAllocations();
    assert ops[1..] == [ops[1]] && ops[1..][1..] == [];
    if |c| + Tasks.PCB_SIZE <= HEAP_BYTES {
      var t := HeapAllocate(s, Tasks.PCB_SIZE).value.0;
      HeapAllocateRefines(t, order, c + Zeros(Tasks.PCB_SIZE), Tasks.STACK_SIZE);
      assert c + Zeros(Tasks.PCB_SIZE) + Zeros(Tasks.STACK_SIZE) == c + Zeros(Tasks.TASK_SIZE);
    }
  }

  /**
   * What the scheduler's model takes for granted about the heap is what `heap_allocate` does: `SpawnTask` has
   * heap exactly when the two allocations succeed, its blocks are theirs, and so is every byte of memory.
   */
  lemma SpawnAllocates(k: Tasks.Kernel, s: Vm, order: InitOrder, c: seq<Byte>, blocks: seq<HeapRuns.Block>, start: Word)
    requires HeapInv(s, order) && Holds(s, c) && SameHeap(k, s)
    requires k.heap % 4 == 0 && HEAP_END <= |k.mem| * 4
    ensures match HeapRuns.HeapRun(s, blocks, TaskAllocations())
      case Ok((t, after)) =>
        && Tasks.SpawnTask(k, start).Ok? && Tasks.SpawnTask(k, start).value.heap == t.heapCurrent
        && after == blocks + [HeapRuns.Block(k.heap, 44), HeapRuns.Block(k.heap + 44, 4096)]
        && k.heap + Tasks.TASK_SIZE <= HEAP_END && SameHeap(WithTaskBlocks(k), t)
      case Stop(why) => why == HeapOverflow && Tasks.SpawnTask(k, start) == Stop(Tasks.NoHeap)
  {
    hide HeapInv, FrameByte, VirtualByte, HeapRuns.HeapRun, Tasks.ZeroWords, LoadByte;
    TwoAllocations(s, order, c, blocks);
    var run := HeapRuns.HeapRun(s, blocks, TaskAllocations());
    if run.Ok? {
      var t := run.value.0;
      var d := c + Zeros(Tasks.TASK_SIZE);
      forall a: Word | HEAP_START <= a < t.heapCurrent
        ensures VirtualByte(t, a) == Some(LoadByte(WithTaskBlocks(k).mem, a))
      {
        VirtualContents(t, order, d, a - HEAP_START);
        ZeroedBytes(k, a);
        if a < k.heap {
          VirtualContents(s, order, c, a - HEAP_START);
        }
      }
    }
  }
}
