/**
 * kernel/tasking.c and switch_to_task_stub as they run: task records linked through `next_task`,
 * two head/tail lists, global pointers, and a processor whose stack is memory.
 */
module Tasking {
  import opened Machine
  import opened Tasks
  import opened TaskRuns
  import opened TaskTime

  datatype ProcessState = Running | ReadyToRun | Blocked | Terminated

  class Process {
    const address: Word
    var pid: Word
    var kernelStackTop: Word
    var nextTask: Process?
    var state: ProcessState
    var timeUsed: Word

    /** A record as the heap hands it out: all zero. */
    constructor (address: Word)
      ensures this.address == address && timeUsed == 0 && nextTask == null
    {
      this.address := address;
      pid, kernelStackTop, nextTask, state, timeUsed := 0, 0, null, Running, 0;
    }

    function Record(): Pcb
      reads `pid, `kernelStackTop, `timeUsed
    {
      Pcb(pid, kernelStackTop, timeUsed)
    }
  }

  class TaskList {
    var head: Process?
    var tail: Process?

    constructor ()
      ensures head == null && tail == null
    {
      head, tail := null, null;
    }

    /** The list is the segment from `head` to `tail`; what the tail links to does not matter. */
    ghost predicate Is(s: seq<Process>)
      reads this, s`nextTask
    {
      && (forall i, j :: 0 <= i < j < |s| ==> s[i] != s[j])
      && (s == [] ==> head == null)
      && (s != [] ==> head == s[0] && tail == s[|s| - 1])
      && forall i :: 0 <= i < |s| - 1 ==> s[i].nextTask == s[i + 1]
    }
  }

  /** `enqueue_task`. Into an empty list, `next_task` of the new entry is left as it was. */
  method EnqueueTask(queue: TaskList, proc: Process, ghost s: seq<Process>)
    requires queue.Is(s) && proc !in s
    modifies queue, proc`nextTask, s`nextTask
    ensures queue.Is(s + [proc])
    ensures proc.nextTask == if s == [] then old(proc.nextTask) else null
  {
    if queue.head == null {
      queue.head := proc;
      queue.tail := proc;
      return;
    }
    queue.tail.nextTask := proc;
    proc.nextTask := null;
    queue.tail := proc;
  }

  function Addresses(s: seq<Process>): seq<Word> {
    seq(|s|, i requires 0 <= i < |s| => s[i].address)
  }

  class Scheduler {
    const readyToRun: TaskList
    const terminated: TaskList
    const mem: array<Word>
    const bootLow: Word
    const bootHigh: Word
    var currentTask: Process?
    var previousTask: Process?
    var lastTime: Word
    var ticks: Word
    var nextAvailablePid: Word
    var heapCurrent: Word
    var cpu: Cpu
    var processAt: map<Word, Process>   // what a process_t pointer points at
    ghost var ready: seq<Process>
    ghost var dead: seq<Process>

    /** The statics of tasking.c, on a machine in the given state. */
    constructor (ram: array<Word>, low: Word, high: Word, heap: Word, now: Word, registers: Cpu)
      ensures mem == ram && bootLow == low && bootHigh == high
      ensures heapCurrent == heap && ticks == now && cpu == registers
      ensures fresh(readyToRun) && fresh(terminated) && readyToRun != terminated
      ensures readyToRun.head == null && terminated.head == null && currentTask == null
      ensures ready == [] && dead == [] && processAt == map[] && lastTime == 0 && nextAvailablePid == 0
    {
      mem, bootLow, bootHigh, heapCurrent, ticks, cpu := ram, low, high, heap, now, registers;
      readyToRun := new TaskList();
      terminated := new TaskList();
      currentTask, previousTask := null, null;
      lastTime, nextAvailablePid := 0, 0;
      processAt := map[];
      ready, dead := [], [];
    }

    /** The record at each address is the process of that address, and each is in one of the queues. */
    ghost predicate RecordsOk()
      reads `processAt, `ready, `dead
    {
      && (forall a :: a in processAt ==> processAt[a].address == a && (processAt[a] in ready || processAt[a] in dead))
      && (forall p :: p in ready ==> p.address in processAt && processAt[p.address] == p)
      && (forall p :: p in dead ==> p.address in processAt && processAt[p.address] == p)
    }

    ghost predicate StatesOk()
      reads `ready, `dead, ready`state, dead`state
    {
      && (forall i :: 0 <= i < |ready| ==> ready[i].state == ReadyToRun)
      && (forall i :: 0 <= i < |dead| ==> dead[i].state == Terminated)
    }

    /** Both lists are well linked and disjoint, and the current task heads the ready one. */
    ghost predicate Valid()
      reads this, readyToRun, terminated, ready`nextTask, dead`nextTask, ready`state, dead`state
    {
      && readyToRun != terminated
      && RecordsOk() && StatesOk()
      && readyToRun.Is(ready) && terminated.Is(dead)
      && (forall i, j :: 0 <= i < |ready| && 0 <= j < |dead| ==> ready[i] != dead[j])
      && ready != [] && currentTask == ready[0] && ready[|ready| - 1].nextTask == null
    }

    ghost function Records(): map<Word, Pcb>
      reads `processAt, processAt.Values`pid, processAt.Values`kernelStackTop, processAt.Values`timeUsed
    {
      map a | a in processAt :: processAt[a].Record()
    }

    /** The state of the machine in module `Tasks` that this object stands for. */
    ghost function Abs(): Kernel
      reads this, mem, processAt.Values`pid, processAt.Values`kernelStackTop, processAt.Values`timeUsed
    {
      Kernel(Addresses(ready), Addresses(dead), Records(),
             lastTime, ticks, nextAvailablePid, heapCurrent, bootLow, bootHigh, cpu, mem[..])
    }

    /** `push w`, when the words `ws` have been pushed since the stack pointer was `top`. */
    method Push(w: Word, ghost memBefore: Memory, ghost top: Word, ghost ws: seq<Word>)
      requires cpu.esp == top - 4 * |ws| >= 4 && mem[..] == PushAll(memBefore, top, ws)
      modifies this`cpu, mem
      ensures cpu == old(cpu).(esp := old(cpu).esp - 4)
      ensures mem[..] == PushAll(memBefore, top, ws + [w])
    {
      PushOneMore(memBefore, top, ws, w);
      cpu := cpu.(esp := Wrap(cpu.esp - 4));
      if cpu.esp / 4 < mem.Length {
        mem[cpu.esp / 4] := w;
      }
    }

    method Pop() returns (w: Word)
      modifies this`cpu
      ensures cpu == old(cpu).(esp := Wrap(old(cpu).esp + 4))
      ensures w == Load(mem[..], old(cpu).esp / 4)
    {
      w := if cpu.esp / 4 < mem.Length then mem[cpu.esp / 4] else 0xFFFF_FFFF;
      cpu := cpu.(esp := Wrap(cpu.esp + 4));
    }

    /** `update_time` */
    method UpdateTime()
      requires currentTask != null
      modifies this`lastTime, currentTask`timeUsed
      ensures lastTime == ticks
      ensures currentTask.timeUsed == Wrap(old(currentTask.timeUsed) + ElapsedTime(old(lastTime), ticks))
    {
      var elapsed := ElapsedTime(lastTime, ticks);
      lastTime := ticks;
      currentTask.timeUsed := Wrap(currentTask.timeUsed + elapsed);
    }

    /** The stub's pushes: after the call has pushed `other` and `ret`, the frame is complete. */
    method PushRegisters(ghost before: Cpu, ghost memBefore: Memory, ghost other: Word, ghost ret: Word)
      requires 24 <= before.esp && cpu == before.(esp := before.esp - 8)
      requires mem[..] == PushAll(memBefore, before.esp, [other, ret])
      modifies this`cpu, mem
      ensures mem[..] == PushFrame(before, memBefore, other, ret)
      ensures cpu == before.(esp := SavedTop(before))
    {
      hide PushAll, Store;
      Push(cpu.ebx, memBefore, before.esp, [other, ret]);
      Push(cpu.esi, memBefore, before.esp, [other, ret] + [before.ebx]);
      Push(cpu.edi, memBefore, before.esp, [other, ret] + [before.ebx] + [before.esi]);
      Push(cpu.ebp, memBefore, before.esp, [other, ret] + [before.ebx] + [before.esi] + [before.edi]);
      assert [other, ret] + [before.ebx] + [before.esi] + [before.edi] + [before.ebp] ==
             [other, ret, before.ebx, before.esi, before.edi, before.ebp];
    }

    /** The stub's pops and its `ret`. */
    method PopRegisters()
      modifies this`cpu
      ensures cpu == PopFrame(mem[..], old(cpu).esp)
    {
      hide Load, Wrap;
      ghost var top: int := cpu.esp;
      var w := Pop();
      cpu := cpu.(ebp := w);
      w := Pop();
      WrapSum(top + 4, 4);
      cpu := cpu.(edi := w);
      w := Pop();
      WrapSum(top + 8, 4);
      cpu := cpu.(esi := w);
      w := Pop();
      WrapSum(top + 12, 4);
      cpu := cpu.(ebx := w);
      w := Pop();
      WrapSum(top + 16, 4);
      cpu := cpu.(eip := w);
    }

    /** `switch_to_task_stub`, entered with the argument and the return address on the stack. */
    method SwitchToTaskStub(ghost before: Cpu, ghost memBefore: Memory, ghost other: Process, ghost ret: Word)
      requires previousTask != null && other != previousTask
      requires 24 <= before.esp <= 4 * mem.Length && before.esp % 4 == 0 && |memBefore| == mem.Length
      requires cpu == before.(esp := before.esp - 8)
      requires mem[..] == PushAll(memBefore, before.esp, [other.address, ret])
      requires other.address in processAt && processAt[other.address] == other
      modifies this`cpu, mem, previousTask`kernelStackTop
      ensures mem[..] == PushFrame(before, memBefore, other.address, ret)
      ensures previousTask.kernelStackTop == SavedTop(before)
      ensures cpu == PopFrame(mem[..], other.kernelStackTop)
    {
      hide PushAll, Store, PushFrame, PopFrame;
      PushRegisters(before, memBefore, other.address, ret);
      previousTask.kernelStackTop := cpu.esp;
      FramePushed(before, memBefore, other.address, ret);
      cpu := cpu.(esi := mem[Wrap(cpu.esp + 20) / 4]);
      cpu := cpu.(esp := processAt[cpu.esi].kernelStackTop);
      PopRegisters();
    }

    /** `switch_to_task_stub(other)` as the caller compiles it. */
    method CallStub(other: Process, ret: Word)
      requires previousTask != null && other != previousTask
      requires other.address in processAt && processAt[other.address] == other
      requires 24 <= cpu.esp <= 4 * mem.Length && cpu.esp % 4 == 0
      modifies this`cpu, mem, previousTask`kernelStackTop
      ensures mem[..] == PushFrame(old(cpu), old(mem[..]), other.address, ret)
      ensures previousTask.kernelStackTop == SavedTop(old(cpu))
      ensures cpu == PopFrame(mem[..], other.kernelStackTop)
    {
      hide PushFrame, PopFrame;
      ghost var before, memBefore := cpu, mem[..];
      Push(other.address, memBefore, before.esp, []);
      Push(ret, memBefore, before.esp, [] + [other.address]);
      assert [] + [other.address] + [ret] == [other.address, ret];
      SwitchToTaskStub(before, memBefore, other, ret);
    }

    /** The body of `switch_to_task`. */
    method UpdateAndSwitch(other: Process, ret: Word)
      requires currentTask != null && other != currentTask
      requires other.address in processAt && processAt[other.address] == other
      requires 24 <= cpu.esp <= 4 * mem.Length && cpu.esp % 4 == 0
      modifies this`lastTime, this`previousTask, this`currentTask, this`cpu, mem
      modifies currentTask`timeUsed, currentTask`kernelStackTop
      ensures currentTask == other && previousTask == old(currentTask) && lastTime == ticks
      ensures var from := old(currentTask);
        && from.timeUsed == Wrap(old(from.timeUsed) + ElapsedTime(old(lastTime), ticks))
        && from.kernelStackTop == SavedTop(old(cpu))
      ensures mem[..] == PushFrame(old(cpu), old(mem[..]), other.address, ret)
      ensures cpu == PopFrame(mem[..], other.kernelStackTop)
    {
      hide PushFrame, PopFrame, ElapsedTime;
      UpdateTime();
      previousTask := currentTask;
      currentTask := other;
      CallStub(other, ret);
    }

    /** `switch_to_task`, when the queues are already as the switch leaves them. */
    method SwitchToTask(other: Process, ret: Word)
      requires RecordsOk() && currentTask != null && other != currentTask
      requires other.address in processAt && processAt[other.address] == other
      requires currentTask.address in processAt && processAt[currentTask.address] == currentTask
      requires 24 <= cpu.esp <= 4 * mem.Length && cpu.esp % 4 == 0
      modifies this`lastTime, this`previousTask, this`currentTask, this`cpu, mem
      modifies currentTask`timeUsed, currentTask`kernelStackTop
      ensures currentTask == other && previousTask == old(currentTask)
      ensures Abs() == SwitchTo(old(Abs()), old(currentTask).address, other.address, ret)
    {
      hide PushFrame, PopFrame, ElapsedTime;
      ghost var k, current := Abs(), currentTask;
      assert forall a :: a in processAt && a != current.address ==> processAt[a] != current;
      UpdateAndSwitch(other, ret);
      assert Records() == k.tasks[current.address := current.Record()];
    }

    /** The list part of `schedule`: the current task goes to the back of the ready list. */
    method RequeueCurrent()
      requires Valid() && |ready| > 1
      modifies this`ready, readyToRun, ready`nextTask, ready`state
      ensures ready == old(ready)[1..] + [old(ready)[0]]
      ensures readyToRun.Is(ready) && ready[|ready| - 1].nextTask == null
      ensures terminated.Is(dead) && RecordsOk() && StatesOk()
      ensures forall i, j :: 0 <= i < |ready| && 0 <= j < |dead| ==> ready[i] != dead[j]
    {
      assert forall j :: 0 <= j < |dead| ==> dead[j] !in ready && dead[j] !in ready[1..];
      readyToRun.head := currentTask.nextTask;
      currentTask.state := ReadyToRun;
      EnqueueTask(readyToRun, currentTask, ready[1..]);
      ready := ready[1..] + [currentTask];
    }

    /** In a reachable state, a task that leaves room on its stack may always yield or terminate. */
    lemma LegalMeansMaySwitch(e: Event)
      requires Valid() && Inv(Abs()) && Legal(Abs(), e) && (e.Yield? || e.Terminate?)
      ensures |ready| > 1 ==> 24 <= cpu.esp <= 4 * mem.Length && cpu.esp % 4 == 0
    {
      StacksInMemory(Abs(), Abs().ready[0]);
    }

    /** The current task links to the next ready one, or to nothing. */
    lemma NextIsSecond()
      requires Valid()
      ensures currentTask.nextTask == if |ready| > 1 then ready[1] else null
    {
      if |ready| > 1 {
        assert ready[0].nextTask == ready[0 + 1];
      }
    }

    /** `schedule` */
    method Schedule(ret: Word)
      requires Valid() && (|ready| > 1 ==> 24 <= cpu.esp <= 4 * mem.Length && cpu.esp % 4 == 0)
      modifies this`ready, this`lastTime, this`previousTask, this`currentTask, this`cpu, mem, readyToRun
      modifies ready`nextTask, ready`state, ready`timeUsed, ready`kernelStackTop
      ensures Valid() && Step(old(Abs()), Yield(ret)) == Ok(Abs())
    {
      hide SwitchTo, TaskList.Is, Addresses, Records, Step, RecordsOk, StatesOk;
      NextIsSecond();
      StepDefined();
      AddressesSplit(ready);
      SwitchSteps(Abs(), ret);
      if currentTask.nextTask != null {
        RecordOf(ready[0]);
        RecordOf(ready[1]);
        var next := currentTask.nextTask;
        RequeueCurrent();
        SwitchToTask(next, ret);
      }
    }

    lemma RecordOf(p: Process)
      requires RecordsOk() && p in ready
      ensures p.address in processAt && processAt[p.address] == p
      ensures p.address in Records() && Records()[p.address] == p.Record()
    {
    }

    lemma StepDefined()
      requires RecordsOk()
      ensures forall t :: t in Addresses(ready) ==> t in Records()
    {
    }

    /** The list part of `terminate_task`: the current task moves to the terminated list. */
    method RetireCurrent()
      requires Valid() && |ready| > 1
      modifies this`ready, this`dead, readyToRun, terminated, currentTask`nextTask, currentTask`state, dead`nextTask
      ensures ready == old(ready)[1..] && dead == old(dead) + [old(ready)[0]]
      ensures readyToRun.Is(ready) && ready[|ready| - 1].nextTask == null
      ensures terminated.Is(dead) && RecordsOk() && StatesOk()
      ensures forall i, j :: 0 <= i < |ready| && 0 <= j < |dead| ==> ready[i] != dead[j]
    {
      assert forall i :: 0 <= i < |ready| ==> ready[i] !in dead;
      assert forall i :: 0 < i < |ready| ==> ready[i] != currentTask;
      readyToRun.head := currentTask.nextTask;
      currentTask.state := Terminated;
      EnqueueTask(terminated, currentTask, dead);
      ready, dead := ready[1..], dead + [currentTask];
    }

    /** `terminate_task` */
    method TerminateTask(ret: Word) returns (halt: Option<Panic>)
      requires Valid() && (|ready| > 1 ==> 24 <= cpu.esp <= 4 * mem.Length && cpu.esp % 4 == 0)
      modifies this`ready, this`dead, this`lastTime, this`previousTask, this`currentTask, this`cpu, mem
      modifies readyToRun, terminated, dead`nextTask
      modifies currentTask`nextTask, currentTask`state, currentTask`timeUsed, currentTask`kernelStackTop
      ensures match halt
        case None => Valid() && Step(old(Abs()), Terminate(ret)) == Ok(Abs())
        case Some(why) => Step(old(Abs()), Terminate(ret)) == Stop(why)
    {
      hide SwitchTo, TaskList.Is, Addresses, Records, Step, RecordsOk, StatesOk;
      NextIsSecond();
      StepDefined();
      RecordOf(currentTask);
      AddressesSplit(ready);
      SwitchSteps(Abs(), ret);
      AddressesJoin(dead, ready[0]);
      if currentTask.pid == 0 {
        return Some(KernelTaskTerminated);
      }
      var next := currentTask.nextTask;
      if next == null {
        return Some(SwitchToNull);
      }
      RecordOf(next);
      RetireCurrent();
      SwitchToTask(next, ret);
      return None;
    }

    /** The tick of `timer_callback`. */
    method TimerCallback()
      modifies this`ticks
      ensures Abs() == old(Abs()).(ticks := Wrap(old(ticks) + 1))
      ensures old(Valid()) ==> Valid() && Step(old(Abs()), Tick) == Ok(Abs())
    {
      ticks := Wrap(ticks + 1);
    }

    /** `heap_allocate` for a multiple of four bytes, on a heap that holds only such blocks. */
    method Halloc(size: nat) returns (address: Word, ok: bool)
      requires size % 4 == 0 && heapCurrent % 4 == 0
      modifies this`heapCurrent, mem
      ensures address == old(heapCurrent) && (ok <==> old(heapCurrent) + size <= HEAP_END)
      ensures ok ==> heapCurrent == address + size
      ensures ok ==> mem[..] == ZeroWords(old(mem[..]), address / 4, size / 4)
    {
      address := heapCurrent;
      if heapCurrent + size > HEAP_END {
        return address, false;
      }
      var i := 0;
      while i < size / 4
        invariant 0 <= i <= size / 4 && heapCurrent == address
        invariant mem[..] == ZeroWords(old(mem[..]), address / 4, i)
      {
        if address / 4 + i < mem.Length {
          mem[address / 4 + i] := 0;
        }
        i := i + 1;
      }
      heapCurrent := heapCurrent + size;
      ok := true;
    }

    /** `create_kernel_task`; a zero `startEip` makes the record of the code already running. */
    method CreateKernelTask(startEip: Word) returns (task: Process, ok: bool)
      requires heapCurrent % 4 == 0 && 4 * mem.Length >= HEAP_END
      modifies this`heapCurrent, this`nextAvailablePid, this`processAt, mem
      ensures fresh(task) && task.nextTask == null && task.address == old(heapCurrent)
      ensures ok <==> old(heapCurrent) + TASK_SIZE <= HEAP_END
      ensures ok ==> heapCurrent == old(heapCurrent) + TASK_SIZE && nextAvailablePid == Wrap(old(nextAvailablePid) + 1)
      ensures ok ==> processAt == old(processAt)[task.address := task] && task.state == ReadyToRun
      ensures ok ==>
        var area := old(heapCurrent) + PCB_SIZE;
        var zeroed := ZeroWords(old(mem[..]), old(heapCurrent) / 4, TASK_SIZE / 4);
        && task.Record() == Pcb(old(nextAvailablePid), if startEip != 0 then area + 4092 - 16 else area + 4092, 0)
        && mem[..] == if startEip != 0 then Store(zeroed, (area + 4092) / 4, startEip) else zeroed
    {
      hide ZeroWords;
      ghost var memBefore := mem[..];
      var address, fits := Halloc(PCB_SIZE);
      task := new Process(address);
      if !fits {
        return task, false;
      }
      task.pid := nextAvailablePid;
      nextAvailablePid := Wrap(nextAvailablePid + 1);
      var stackArea;
      stackArea, fits := Halloc(STACK_SIZE);
      if !fits {
        return task, false;
      }
      ZeroWordsJoin(memBefore, address / 4, PCB_SIZE / 4, STACK_SIZE / 4);
      task.kernelStackTop := stackArea + 4 * 1023;
      task.nextTask := null;
      task.state := ReadyToRun;
      if startEip != 0 {
        mem[task.kernelStackTop / 4] := startEip;
        task.kernelStackTop := task.kernelStackTop - 4 * 4;
      }
      processAt := processAt[address := task];
      ok := true;
    }

    /** The new record is the only one that is new. */
    method CreateReadyTask(startEip: Word) returns (task: Process, ok: bool)
      requires heapCurrent % 4 == 0 && 4 * mem.Length >= HEAP_END && startEip != 0
      modifies this`heapCurrent, this`nextAvailablePid, this`processAt, mem
      ensures fresh(task) && task.nextTask == null && task.address == old(heapCurrent)
      ensures ok <==> old(heapCurrent) + TASK_SIZE <= HEAP_END
      ensures ok ==> heapCurrent == old(heapCurrent) + TASK_SIZE && nextAvailablePid == Wrap(old(nextAvailablePid) + 1)
      ensures ok ==> processAt == old(processAt)[task.address := task] && task.state == ReadyToRun
      ensures ok ==>
        var area := old(heapCurrent) + PCB_SIZE;
        && Records() == old(Records())[task.address := Pcb(old(nextAvailablePid), area + 4092 - 16, 0)]
        && mem[..] == Store(ZeroWords(old(mem[..]), old(heapCurrent) / 4, TASK_SIZE / 4), (area + 4092) / 4, startEip)
    {
      hide ZeroWords, Store;
      ghost var before := Records();
      task, ok := CreateKernelTask(startEip);
      if ok {
        assert Records() == before[task.address := task.Record()];
      }
    }

    /** `enqueue_task(&ready_to_run, task)` */
    method AppendReady(task: Process)
      requires readyToRun.Is(ready) && terminated.Is(dead) && readyToRun != terminated && ready != []
      requires forall i, j :: 0 <= i < |ready| && 0 <= j < |dead| ==> ready[i] != dead[j]
      requires StatesOk() && task.state == ReadyToRun
      requires task !in ready && task !in dead && task.address in processAt && processAt[task.address] == task
      requires forall a :: a in processAt && a != task.address ==>
        processAt[a].address == a && (processAt[a] in ready || processAt[a] in dead)
      requires forall p :: p in ready ==> p.address in processAt && processAt[p.address] == p
      requires forall p :: p in dead ==> p.address in processAt && processAt[p.address] == p
      modifies this`ready, readyToRun, ready`nextTask, task`nextTask
      ensures ready == old(ready) + [task] && RecordsOk() && StatesOk()
      ensures readyToRun.Is(ready) && ready[|ready| - 1].nextTask == null
      ensures terminated.Is(dead)
      ensures forall i, j :: 0 <= i < |ready| && 0 <= j < |dead| ==> ready[i] != dead[j]
    {
      assert forall j :: 0 <= j < |dead| ==> dead[j] !in ready && dead[j] != task;
      EnqueueTask(readyToRun, task, ready);
      ready := ready + [task];
    }

    /** `enqueue_task(&ready_to_run, create_kernel_task(...))` for a task with an entry point. */
    method Spawn(startEip: Word) returns (halt: Option<Panic>)
      requires Valid() && startEip != 0 && heapCurrent !in processAt
      requires heapCurrent % 4 == 0 && 4 * mem.Length >= HEAP_END
      modifies this`ready, this`heapCurrent, this`nextAvailablePid, this`processAt, mem, readyToRun, ready`nextTask
      ensures match halt
        case None => Valid() && SpawnTask(old(Abs()), startEip) == Ok(Abs())
        case Some(why) => SpawnTask(old(Abs()), startEip) == Stop(why)
    {
      hide ZeroWords, TaskList.Is, Addresses, Records, StatesOk;
      var task, ok := CreateReadyTask(startEip);
      if !ok {
        return Some(NoHeap);
      }
      AddressesJoin(ready, task);
      AppendReady(task);
      return None;
    }

    /** The first task becomes the current one and the only ready one. */
    method AdoptFirst(task: Process)
      requires ready == [] && dead == [] && processAt == map[task.address := task] && task.nextTask == null
      requires task.state == ReadyToRun
      requires readyToRun != terminated && readyToRun.head == null && terminated.head == null
      modifies this`currentTask, this`ready, readyToRun, task`nextTask
      ensures Valid() && ready == [task] && currentTask == task
    {
      currentTask := task;
      EnqueueTask(readyToRun, task, []);
      ready := [] + [task];
    }

    /** `init_tasking` up to the point where the running code is task 0. */
    method InitTasking() returns (halt: Option<Panic>)
      requires ready == [] && dead == [] && processAt == map[] && lastTime == 0 && nextAvailablePid == 0
      requires readyToRun != terminated && readyToRun.head == null && terminated.head == null
      requires heapCurrent % 4 == 0 && 4 * mem.Length >= HEAP_END
      modifies this`currentTask, this`ready, this`heapCurrent, this`nextAvailablePid, this`processAt, mem, readyToRun
      ensures halt.None? <==> old(heapCurrent) + TASK_SIZE <= HEAP_END
      ensures halt.None? ==> Valid()
      ensures halt.None? ==>
        Abs() == TaskTime.InitTasking(old(heapCurrent), bootLow, bootHigh, ticks, cpu, old(mem[..]))
    {
      hide ZeroWords, TaskList.Is;
      var task, ok := CreateKernelTask(0);
      if !ok {
        return Some(NoHeap);
      }
      AdoptFirst(task);
      assert Records() == map[task.address := task.Record()];
      return None;
    }
  }

  /** Clearing two neighbouring blocks clears their union. */
  lemma ZeroWordsJoin(mem: Memory, from: nat, m: nat, n: nat)
    ensures ZeroWords(ZeroWords(mem, from, m), from + m, n) == ZeroWords(mem, from, m + n)
  {
    ZeroedWords(mem, from, m);
    ZeroedWords(mem, from, m + n);
    ZeroedWords(ZeroWords(mem, from, m), from + m, n);
    var a, b := ZeroWords(ZeroWords(mem, from, m), from + m, n), ZeroWords(mem, from, m + n);
    forall i: nat | i < |mem| ensures a[i] == b[i] {
      assert Load(a, i) == Load(b, i);
    }
  }

  /** The steps of yielding and terminating, by what the queues and the current pid are. */
  lemma SwitchSteps(k: Kernel, ret: Word)
    requires k.ready != [] && forall t :: t in k.ready ==> t in k.tasks
    ensures Step(k, Yield(ret)) ==
      if |k.ready| == 1 then Ok(k)
      else Ok(SwitchTo(k.(ready := k.ready[1..] + [k.ready[0]]), k.ready[0], k.ready[1], ret))
    ensures Step(k, Terminate(ret)) ==
      if k.tasks[k.ready[0]].pid == 0 then Stop(KernelTaskTerminated)
      else if |k.ready| == 1 then Stop(SwitchToNull)
      else Ok(SwitchTo(k.(ready := k.ready[1..], dead := k.dead + [k.ready[0]]), k.ready[0], k.ready[1], ret))
  {
  }

  lemma AddressesSplit(s: seq<Process>)
    requires s != []
    ensures Addresses(s) == [s[0].address] + Addresses(s[1..]) && |Addresses(s)| == |s|
    ensures Addresses(s[1..] + [s[0]]) == Addresses(s)[1..] + [Addresses(s)[0]]
    ensures |s| > 1 ==> Addresses(s)[1] == s[1].address
    ensures forall a :: a in Addresses(s) ==> exists p :: p in s && p.address == a
  {
  }

  lemma AddressesJoin(s: seq<Process>, p: Process)
    ensures Addresses(s + [p]) == Addresses(s) + [p.address]
  {
  }

  /** Pushing one more word. */
  lemma {:induction false} PushOneMore(mem: Memory, esp: Word, ws: seq<Word>, w: Word)
    requires 4 * |ws| < esp
    ensures PushAll(mem, esp, ws + [w]) == Store(PushAll(mem, esp, ws), Wrap(esp - 4 * |ws| - 4) / 4, w)
    decreases |ws|
  {
    if ws == [] {
      assert ws + [w] == [w];
    } else {
      assert (ws + [w])[1..] == ws[1..] + [w];
      PushOneMore(Store(mem, Wrap(esp - 4) / 4, ws[0]), Wrap(esp - 4), ws[1..], w);
    }
  }
}
