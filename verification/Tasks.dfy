/** The cooperative scheduler as a state machine: queues, time accounting, stacks and the processor. */
module Tasks {
  import opened Machine

  // ----- Time (kernel/timer.c) -----

  const UINT64_MAX: int := 0xFFFF_FFFF_FFFF_FFFF

  /** `elapsed_time`: the wrap branch computes in 64 bits and truncates. */
  function ElapsedTime(start: Word, end: Word): Word {
    if end >= start then end - start else Wrap(UINT64_MAX - start + end)
  }

  /** Elapsed ticks are exact, modulo 2^32, if and only if the counter has not wrapped; else one short. */
  lemma ElapsedTimeExact(start: Word, end: Word)
    ensures ElapsedTime(start, end) == Wrap(end - start) <==> end >= start
    ensures end < start ==> ElapsedTime(start, end) == Wrap(end - start - 1)
  {
    assert UINT64_MAX - start + end == (end - start - 1) + 0x1_0000_0000 * WORD_LIMIT;
    assert Wrap(UINT64_MAX - start + end) == Wrap(end - start - 1);
  }

  // ----- State -----

  /** The registers the System V ABI i386 makes the callee save, and the two that say where to go on. */
  datatype Cpu = Cpu(ebx: Word, esi: Word, edi: Word, ebp: Word, esp: Word, eip: Word)

  /** The fields of process_t that change what the scheduler does. A task is known by its address. */
  datatype Pcb = Pcb(pid: Word, top: Word, timeUsed: Word)

  datatype Kernel = Kernel(
    ready: seq<Word>,        // the ready_to_run list; its head is the current task
    dead: seq<Word>,         // the terminated list
    tasks: map<Word, Pcb>,
    lastTime: Word,
    ticks: Word,
    nextPid: Word,
    heap: Word,              // heap_current
    bootLow: Word,           // the stack the kernel was entered on, which task 0 keeps
    bootHigh: Word,
    cpu: Cpu,
    mem: Memory)

  const PCB_SIZE: nat := 44
  const STACK_SIZE: nat := 4096
  const TASK_SIZE: nat := 4140

  /** What the processor does next, or what an interrupt does. */
  datatype Event =
    | Tick
    | Compute(cpu: Cpu, mem: Memory)   // the current task runs code of its own
    | Yield(ret: Word)                 // `schedule`; `ret` is where the stub call returns to
    | Terminate(ret: Word)
    | Spawn(start: Word)               // create_kernel_task and enqueue_task

  datatype Panic = KernelTaskTerminated | SwitchToNull | NoHeap

  // ----- switch_to_task_stub (kernel/utility.asm) -----

  /** Memory after the words `ws` have been pushed, the first one first. */
  function PushAll(mem: Memory, esp: Word, ws: seq<Word>): (r: Memory)
    ensures |r| == |mem|
    decreases |ws|
  {
    if ws == [] then mem
    else PushAll(Store(mem, Wrap(esp - 4) / 4, ws[0]), Wrap(esp - 4), ws[1..])
  }

  /** The call pushes the argument and the return address, the stub four registers. */
  function PushFrame(cpu: Cpu, mem: Memory, other: Word, ret: Word): Memory {
    PushAll(mem, cpu.esp, [other, ret, cpu.ebx, cpu.esi, cpu.edi, cpu.ebp])
  }

  /** `kernel_stack_top` as the stub stores it. */
  function SavedTop(cpu: Cpu): Word {
    Wrap(cpu.esp - 24)
  }

  /** The registers after the stub has popped the frame at `top` and returned. */
  function PopFrame(mem: Memory, top: Word): Cpu {
    Cpu(ebp := Load(mem, top / 4), edi := Load(mem, Wrap(top + 4) / 4), esi := Load(mem, Wrap(top + 8) / 4),
        ebx := Load(mem, Wrap(top + 12) / 4), eip := Load(mem, Wrap(top + 16) / 4), esp := Wrap(top + 20))
  }

  /** The registers a task expects when the stub returns: its own, with the argument still pushed. */
  function ResumePoint(cpu: Cpu, ret: Word): Cpu {
    cpu.(esp := Wrap(cpu.esp - 4), eip := ret)
  }

  // ----- Steps (kernel/tasking.c) -----

  /** `update_time` followed by the stub; `k.ready` and `k.dead` are as the caller left them. */
  function SwitchTo(k: Kernel, from: Word, other: Word, ret: Word): Kernel
    requires from in k.tasks && other in k.tasks
  {
    var used := Wrap(k.tasks[from].timeUsed + ElapsedTime(k.lastTime, k.ticks));
    var mem := PushFrame(k.cpu, k.mem, other, ret);
    var tasks := k.tasks[from := k.tasks[from].(timeUsed := used, top := SavedTop(k.cpu))];
    k.(lastTime := k.ticks, tasks := tasks, mem := mem, cpu := PopFrame(mem, tasks[other].top))
  }

  function ZeroWords(mem: Memory, from: nat, n: nat): (r: Memory)
    ensures |r| == |mem|
  {
    if n == 0 then mem else Store(ZeroWords(mem, from, n - 1), from + (n - 1), 0)
  }

  /** `create_kernel_task` for a task with an entry point, on zeroed heap blocks, then `enqueue_task`. */
  function SpawnTask(k: Kernel, start: Word): Result<Kernel, Panic> {
    if k.heap + TASK_SIZE > HEAP_END then Stop(NoHeap)
    else
      var area := k.heap + PCB_SIZE;
      var zeroed := ZeroWords(k.mem, k.heap / 4, TASK_SIZE / 4);
      Ok(k.(ready := k.ready + [k.heap],
            tasks := k.tasks[k.heap := Pcb(k.nextPid, area + 4092 - 16, 0)],
            nextPid := Wrap(k.nextPid + 1),
            heap := k.heap + TASK_SIZE,
            mem := Store(zeroed, (area + 4092) / 4, start)))
  }

  function Step(k: Kernel, e: Event): Result<Kernel, Panic>
    requires k.ready != [] && forall t :: t in k.ready ==> t in k.tasks
  {
    var current := k.ready[0];
    match e
    case Tick => Ok(k.(ticks := Wrap(k.ticks + 1)))
    case Compute(cpu, mem) => Ok(k.(cpu := cpu, mem := mem))
    case Yield(ret) =>
      if |k.ready| == 1 then Ok(k)
      else Ok(SwitchTo(k.(ready := k.ready[1..] + [current]), current, k.ready[1], ret))
    case Terminate(ret) =>
      if k.tasks[current].pid == 0 then Stop(KernelTaskTerminated)
      else if |k.ready| == 1 then Stop(SwitchToNull)
      else Ok(SwitchTo(k.(ready := k.ready[1..], dead := k.dead + [current]), current, k.ready[1], ret))
    case Spawn(start) => SpawnTask(k, start)
  }

  // ----- Invariant -----

  predicate Distinct(s: seq<Word>) {
    forall i, j :: 0 <= i < j < |s| ==> s[i] != s[j]
  }

  /** The stack block of a task: the boot stack for pid 0, else the 4096 bytes after its process_t. */
  function StackLow(k: Kernel, t: Word): nat
    requires t in k.tasks
  {
    if k.tasks[t].pid == 0 then k.bootLow else t + PCB_SIZE
  }

  function StackHigh(k: Kernel, t: Word): nat
    requires t in k.tasks
  {
    if k.tasks[t].pid == 0 then k.bootHigh else t + TASK_SIZE
  }

  ghost predicate QueuesOk(k: Kernel) {
    && k.ready != []
    && Distinct(k.ready) && Distinct(k.dead)
    && (forall t :: t in k.ready ==> t !in k.dead)
    && (forall t :: t in k.tasks <==> t in k.ready || t in k.dead)
  }

  /** Pids are distinct and pid 0 is live; records and stacks are separate heap blocks. */
  ghost predicate TasksOk(k: Kernel) {
    && (forall t, u :: t in k.tasks && u in k.tasks && t != u ==> k.tasks[t].pid != k.tasks[u].pid)
    && (forall t :: t in k.tasks ==> k.tasks[t].pid < k.nextPid)
    && (exists t :: t in k.ready && t in k.tasks && k.tasks[t].pid == 0)
    && k.heap <= HEAP_END && HEAP_START + TASK_SIZE * k.nextPid <= k.heap
    && k.heap % 4 == 0 && k.bootLow % 4 == 0 && k.bootHigh % 4 == 0
    && k.bootLow <= k.bootHigh <= HEAP_START
    && (forall t :: t in k.tasks ==> HEAP_START <= t && t + TASK_SIZE <= k.heap && t % 4 == 0)
    && (forall t, u :: t in k.tasks && u in k.tasks && t < u ==> t + TASK_SIZE <= u)
    && |k.mem| * 4 >= HEAP_END
  }

  /** Every ready task but the current one has its frame inside its own stack block. */
  ghost predicate FramesOk(k: Kernel)
    requires forall t :: t in k.ready ==> t in k.tasks
  {
    forall i :: 0 < i < |k.ready| ==> FrameInStack(k, k.ready[i])
  }

  predicate FrameInStack(k: Kernel, t: Word)
    requires t in k.tasks
  {
    StackLow(k, t) <= k.tasks[t].top && k.tasks[t].top + 20 <= StackHigh(k, t) && k.tasks[t].top % 4 == 0
  }

  ghost predicate Inv(k: Kernel) {
    QueuesOk(k) && TasksOk(k) && FramesOk(k)
  }

  /** What a task may do: use its own stack block, and leave room for the frame when it switches. */
  ghost predicate Legal(k: Kernel, e: Event)
    requires QueuesOk(k)
  {
    match e
    case Tick => true
    case Compute(cpu, mem) =>
      |mem| == |k.mem| && forall i: nat :: !InStack(k, k.ready[0], i) ==> Load(mem, i) == Load(k.mem, i)
    case Yield(_) => |k.ready| == 1 || RoomForFrame(k)
    case Terminate(_) => RoomForFrame(k)
    case Spawn(start) => start != 0
  }

  /** Word `i` belongs to the stack block of `t`. */
  predicate InStack(k: Kernel, t: Word, i: nat)
    requires t in k.tasks
  {
    StackLow(k, t) <= 4 * i < StackHigh(k, t)
  }

  predicate RoomForFrame(k: Kernel)
    requires k.ready != [] && k.ready[0] in k.tasks
  {
    StackLow(k, k.ready[0]) + 24 <= k.cpu.esp <= StackHigh(k, k.ready[0]) && k.cpu.esp % 4 == 0
  }

  // ----- The queues -----

  lemma DistinctSplit(a: seq<Word>, b: seq<Word>)
    ensures Distinct(a + b) <==> Distinct(a) && Distinct(b) && forall x :: x in a ==> x !in b
  {
    var s := a + b;
    if Distinct(a + b) {
      assert forall i :: 0 <= i < |a| ==> a[i] == s[i];
      assert forall i :: 0 <= i < |b| ==> b[i] == s[|a| + i];
    }
    if Distinct(a) && Distinct(b) && forall x :: x in a ==> x !in b {
      forall i, j | 0 <= i < j < |s| ensures s[i] != s[j] {
        if i < |a| <= j {
          assert a[i] in a && b[j - |a|] in b;
        }
      }
    }
  }

  /** Taking the head off and putting it at the end of one queue or the other keeps both well formed. */
  lemma QueuesKept(k: Kernel, e: Event)
    requires Inv(k) && Legal(k, e) && Step(k, e).Ok?
    ensures QueuesOk(Step(k, e).value)
  {
    var r := Step(k, e).value;
    var current := k.ready[0];
    var rest := k.ready[1..];
    assert k.ready == [current] + rest;
    DistinctSplit([current], rest);
    match e
    case Tick =>
    case Compute(_, _) =>
    case Yield(_) =>
      DistinctSplit(rest, [current]);
    case Terminate(_) =>
      DistinctSplit(k.dead, [current]);
    case Spawn(_) =>
      assert k.heap !in k.tasks;
      DistinctSplit(k.ready, [k.heap]);
  }

  /** Steps that leave the pids, the heap and the boot stack alone keep TasksOk while pid 0 is ready. */
  lemma SamePids(k: Kernel, r: Kernel, zero: Word)
    requires TasksOk(k) && r.tasks.Keys == k.tasks.Keys
    requires forall t :: t in k.tasks ==> r.tasks[t].pid == k.tasks[t].pid
    requires r.heap == k.heap && r.nextPid == k.nextPid && r.bootLow == k.bootLow && r.bootHigh == k.bootHigh
    requires |r.mem| == |k.mem|
    requires zero in r.ready && zero in r.tasks && r.tasks[zero].pid == 0
    ensures TasksOk(r)
  {
  }

  /** One more record at the top of the heap, with the next pid. */
  lemma OneMoreTask(k: Kernel, r: Kernel, zero: Word)
    requires TasksOk(k) && k.heap + TASK_SIZE <= HEAP_END && k.heap !in k.tasks
    requires r.tasks.Keys == k.tasks.Keys + {k.heap} && r.tasks[k.heap].pid == k.nextPid
    requires forall t :: t in k.tasks ==> r.tasks[t] == k.tasks[t]
    requires r.nextPid == k.nextPid + 1 && r.heap == k.heap + TASK_SIZE
    requires r.bootLow == k.bootLow && r.bootHigh == k.bootHigh && |r.mem| == |k.mem|
    requires zero in r.ready && zero in k.tasks && k.tasks[zero].pid == 0
    ensures TasksOk(r)
  {
    assert r.tasks[zero].pid == 0;
    assert forall t :: t in r.tasks ==> t == k.heap || t in k.tasks;
  }

  lemma HeapLimitsPids(k: Kernel)
    requires TasksOk(k)
    ensures k.nextPid < 0x1_0000 && k.heap !in k.tasks && Wrap(k.nextPid + 1) == k.nextPid + 1
  {
  }

  lemma SpawnKeepsTasks(k: Kernel, start: Word)
    requires QueuesOk(k) && TasksOk(k) && SpawnTask(k, start).Ok?
    ensures TasksOk(SpawnTask(k, start).value)
  {
    var zero :| zero in k.ready && zero in k.tasks && k.tasks[zero].pid == 0;
    HeapLimitsPids(k);
    hide ZeroWords, Store, QueuesOk, TasksOk;
    OneMoreTask(k, SpawnTask(k, start).value, zero);
  }

  /** A switch between queues `q` that differ from `k`'s only in order and place of the current task. */
  lemma SwitchKeepsTasks(k: Kernel, q: Kernel, from: Word, other: Word, ret: Word)
    requires TasksOk(k) && q == k.(ready := q.ready, dead := q.dead)
    requires from in k.tasks && other in k.tasks
    requires forall t :: t in k.ready && t != from ==> t in q.ready
    requires from in q.ready || k.tasks[from].pid != 0
    ensures TasksOk(SwitchTo(q, from, other, ret))
  {
    var r := SwitchTo(q, from, other, ret);
    var zero :| zero in k.ready && zero in k.tasks && k.tasks[zero].pid == 0;
    hide TasksOk, PopFrame, PushAll, ElapsedTime;
    SamePids(k, r, zero);
  }

  lemma TasksKept(k: Kernel, e: Event)
    requires Inv(k) && Legal(k, e) && Step(k, e).Ok?
    ensures TasksOk(Step(k, e).value)
  {
    var current, rest := k.ready[0], k.ready[1..];
    assert k.ready == [current] + rest;
    hide TasksOk, FramesOk, SwitchTo, SpawnTask;
    match e
    case Tick => SameTasks(k, Step(k, e).value);
    case Compute(_, _) => SameTasks(k, Step(k, e).value);
    case Yield(ret) =>
      if rest != [] {
        SwitchKeepsTasks(k, k.(ready := rest + [current]), current, rest[0], ret);
      }
    case Terminate(ret) =>
      SwitchKeepsTasks(k, k.(ready := rest, dead := k.dead + [current]), current, rest[0], ret);
    case Spawn(start) => SpawnKeepsTasks(k, start);
  }

  lemma SameTasks(k: Kernel, r: Kernel)
    requires TasksOk(k) && r == k.(ticks := r.ticks, cpu := r.cpu, mem := r.mem) && |r.mem| == |k.mem|
    ensures TasksOk(r)
  {
  }

  lemma {:induction false} ZeroedWords(mem: Memory, from: nat, n: nat)
    ensures forall i: nat ::
      Load(ZeroWords(mem, from, n), i) == (if from <= i < from + n && i < |mem| then 0 else Load(mem, i))
  {
    if n > 0 {
      ZeroedWords(mem, from, n - 1);
    }
  }

  // ----- Stack frames -----

  lemma {:induction false} PushedWords(mem: Memory, esp: Word, w: nat, ws: seq<Word>)
    requires esp == 4 * w && |ws| <= w <= |mem|
    ensures forall i: nat ::
      Load(PushAll(mem, esp, ws), i) == (if w - |ws| <= i < w then ws[w - 1 - i] else Load(mem, i))
    decreases |ws|
  {
    if ws != [] {
      assert Wrap(esp - 4) / 4 == w - 1;
      PushedWords(Store(mem, w - 1, ws[0]), Wrap(esp - 4), w - 1, ws[1..]);
    }
  }

  /** The stub stores a frame from which it would resume exactly where it was called, in 24 bytes. */
  lemma FramePushed(cpu: Cpu, mem: Memory, other: Word, ret: Word)
    requires 24 <= cpu.esp <= 4 * |mem| && cpu.esp % 4 == 0
    ensures forall i: nat :: !(SavedTop(cpu) <= 4 * i < cpu.esp) ==>
      Load(PushFrame(cpu, mem, other, ret), i) == Load(mem, i)
    ensures PopFrame(PushFrame(cpu, mem, other, ret), SavedTop(cpu)) == ResumePoint(cpu, ret)
    ensures Load(PushFrame(cpu, mem, other, ret), Wrap(SavedTop(cpu) + 20) / 4) == other
  {
    hide PushAll;
    var w := cpu.esp / 4;
    var ws := [other, ret, cpu.ebx, cpu.esi, cpu.edi, cpu.ebp];
    PushedWords(mem, cpu.esp, w, ws);
    var after := PushFrame(cpu, mem, other, ret);
    assert Load(after, w - 1) == ws[0] && Load(after, w - 2) == ws[1] && Load(after, w - 3) == ws[2];
    assert Load(after, w - 4) == ws[3] && Load(after, w - 5) == ws[4] && Load(after, w - 6) == ws[5];
    hide PushFrame, Load;
    FrameWords(after, SavedTop(cpu), w - 6);
  }

  /** The words a frame is made of. */
  lemma FrameWords(mem: Memory, top: Word, w: nat)
    requires top == 4 * w && top + 20 < WORD_LIMIT
    ensures PopFrame(mem, top) == Cpu(ebp := Load(mem, w), edi := Load(mem, w + 1), esi := Load(mem, w + 2),
                                      ebx := Load(mem, w + 3), eip := Load(mem, w + 4), esp := top + 20)
  {
    hide Load, Wrap;
    FrameOffset(w, 0);
    FrameOffset(w, 1);
    FrameOffset(w, 2);
    FrameOffset(w, 3);
    FrameOffset(w, 4);
    FrameOffset(w, 5);
  }

  lemma FrameOffset(w: nat, c: nat)
    requires 4 * w + 4 * c < WORD_LIMIT
    ensures Wrap(4 * w + 4 * c) == 4 * w + 4 * c && (4 * w + 4 * c) / 4 == w + c
  {
  }

  /** A frame is five words; memory that agrees on them resumes alike. */
  lemma FrameDependsOnFiveWords(m: Memory, n: Memory, top: Word)
    requires top % 4 == 0 && top + 20 < WORD_LIMIT
    requires forall i: nat :: top <= 4 * i < top + 20 ==> Load(m, i) == Load(n, i)
    ensures PopFrame(m, top) == PopFrame(n, top)
  {
    FrameWords(m, top, top / 4);
    FrameWords(n, top, top / 4);
  }

  lemma StacksDisjoint(k: Kernel, t: Word, u: Word)
    requires TasksOk(k) && t in k.tasks && u in k.tasks && t != u
    ensures StackHigh(k, t) <= StackLow(k, u) || StackHigh(k, u) <= StackLow(k, t)
    ensures StackHigh(k, t) <= HEAP_END
  {
  }

  /** Only the current task's stack block, or a block fresh from the heap, can change. */
  ghost predicate OnlyStackChanges(k: Kernel, mem: Memory)
    requires k.ready != [] && k.ready[0] in k.tasks
  {
    forall i: nat :: !InStack(k, k.ready[0], i) && 4 * i < k.heap ==> Load(mem, i) == Load(k.mem, i)
  }

  lemma SwitchChangesOnlyItsStack(k: Kernel, q: Kernel, other: Word, ret: Word)
    requires TasksOk(k) && k.ready != [] && k.ready[0] in k.tasks && other in k.tasks && RoomForFrame(k)
    requires q == k.(ready := q.ready, dead := q.dead)
    ensures OnlyStackChanges(k, SwitchTo(q, k.ready[0], other, ret).mem)
  {
    StacksInMemory(k, k.ready[0]);
    assert SavedTop(k.cpu) == k.cpu.esp - 24;
    assert SwitchTo(q, k.ready[0], other, ret).mem == PushFrame(k.cpu, k.mem, other, ret);
    hide TasksOk, PushFrame, PopFrame, ElapsedTime, SwitchTo, SavedTop, Load;
    FramePushed(k.cpu, k.mem, other, ret);
  }

  lemma StepChangesOnlyItsStack(k: Kernel, e: Event)
    requires Inv(k) && Legal(k, e) && Step(k, e).Ok?
    ensures OnlyStackChanges(k, Step(k, e).value.mem)
  {
    var current, rest := k.ready[0], k.ready[1..];
    assert k.ready == [current] + rest;
    StacksInMemory(k, current);
    hide TasksOk, FramesOk, SwitchTo, ZeroWords, RoomForFrame;
    match e
    case Tick =>
    case Compute(_, mem) =>
    case Spawn(start) =>
      ZeroedWords(k.mem, k.heap / 4, TASK_SIZE / 4);
    case Yield(ret) =>
      if rest != [] {
        SwitchChangesOnlyItsStack(k, k.(ready := rest + [current]), rest[0], ret);
      }
    case Terminate(ret) =>
      SwitchChangesOnlyItsStack(k, k.(ready := rest, dead := k.dead + [current]), rest[0], ret);
  }

  lemma StacksInMemory(k: Kernel, t: Word)
    requires TasksOk(k) && t in k.tasks
    ensures StackHigh(k, t) <= k.heap <= HEAP_END <= 4 * |k.mem| && k.heap % 4 == 0
  {
  }

  /** What a step may do to the frame of a task that is not running: nothing. */
  lemma OtherFramesKept(k: Kernel, e: Event, t: Word)
    requires Inv(k) && Legal(k, e) && Step(k, e).Ok?
    requires t in k.ready && t != k.ready[0]
    ensures PopFrame(Step(k, e).value.mem, k.tasks[t].top) == PopFrame(k.mem, k.tasks[t].top)
  {
    var r := Step(k, e).value;
    StepChangesOnlyItsStack(k, e);
    StacksDisjoint(k, t, k.ready[0]);
    StacksInMemory(k, t);
    assert FrameInStack(k, t) by {
      var i :| 0 <= i < |k.ready| && k.ready[i] == t;
    }
    hide PopFrame, QueuesOk, TasksOk, FramesOk, Step, Legal;
    FrameDependsOnFiveWords(k.mem, r.mem, k.tasks[t].top);
  }
}
