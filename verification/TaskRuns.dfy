/** What every run of the scheduler keeps: its invariant, frames, turns and time. */
module TaskRuns {
  import opened Machine
  import opened Tasks

  // ----- The invariant -----

  lemma WaitingTask(k: Kernel, t: Word)
    requires QueuesOk(k) && t in k.ready && t != k.ready[0]
    ensures exists i :: 0 < i < |k.ready| && k.ready[i] == t
  {
    var i :| 0 <= i < |k.ready| && k.ready[i] == t;
    assert i > 0;
  }

  /** A step leaves the record of every task but the current one as it was. */
  lemma OtherRecordsKept(k: Kernel, e: Event, t: Word)
    requires Inv(k) && Legal(k, e) && Step(k, e).Ok?
    requires t in k.tasks && t != k.ready[0]
    ensures t in Step(k, e).value.tasks && Step(k, e).value.tasks[t] == k.tasks[t]
  {
    hide PushFrame, PopFrame, ZeroWords;
    assert k.heap !in k.tasks;
  }

  lemma SwitchedFrame(k: Kernel, e: Event)
    requires Inv(k) && Legal(k, e) && Step(k, e).Ok?
    requires e.Yield? && |k.ready| > 1
    ensures FrameInStack(Step(k, e).value, k.ready[0])
  {
    hide PushFrame, PopFrame, TasksOk, FramesOk;
  }

  lemma SpawnedFrame(k: Kernel, start: Word)
    requires TasksOk(k) && SpawnTask(k, start).Ok? && k.nextPid > 0
    ensures FrameInStack(SpawnTask(k, start).value, k.heap)
  {
    hide ZeroWords, Store;
  }

  lemma FramesKept(k: Kernel, e: Event)
    requires Inv(k) && Legal(k, e) && Step(k, e).Ok? && QueuesOk(Step(k, e).value)
    ensures FramesOk(Step(k, e).value)
  {
    var r := Step(k, e).value;
    if e.Yield? && |k.ready| > 1 {
      SwitchedFrame(k, e);
    }
    if e.Spawn? {
      assert k.nextPid > 0;
      SpawnedFrame(k, e.start);
    }
    assert r.bootLow == k.bootLow && r.bootHigh == k.bootHigh;
    forall i | 0 < i < |r.ready| ensures FrameInStack(r, r.ready[i]) {
      var t := r.ready[i];
      if t in k.ready && t != k.ready[0] {
        WaitingTask(k, t);
        OtherRecordsKept(k, e, t);
      }
    }
  }

  lemma InvKept(k: Kernel, e: Event)
    requires Inv(k) && Legal(k, e) && Step(k, e).Ok?
    ensures Inv(Step(k, e).value)
  {
    QueuesKept(k, e);
    TasksKept(k, e);
    FramesKept(k, e);
  }

  // ----- Runs -----

  /** Every event of the run respects what the kernel asks of tasks. */
  ghost predicate LegalRun(k: Kernel, es: seq<Event>)
    requires Inv(k)
    decreases |es|
  {
    es == [] ||
    (&& Legal(k, es[0])
     && (Step(k, es[0]).Ok? ==> (InvKept(k, es[0]); LegalRun(Step(k, es[0]).value, es[1..]))))
  }

  ghost function Run(k: Kernel, es: seq<Event>): (r: Result<Kernel, Panic>)
    requires Inv(k) && LegalRun(k, es)
    ensures r.Ok? ==> Inv(r.value)
    decreases |es|
  {
    if es == [] then Ok(k)
    else
      match Step(k, es[0])
      case Stop(why) => Stop(why)
      case Ok(n) => InvKept(k, es[0]); Run(n, es[1..])
  }

  /**
   * In every reachable state the ready list holds each live task once, pid 0 among them, the
   * terminated list is disjoint from it, and no run switches to NULL: it can only panic because
   * the kernel task asks to be terminated or the heap is used up.
   */
  lemma {:induction false} RunsStayValid(k: Kernel, es: seq<Event>)
    requires Inv(k) && LegalRun(k, es)
    ensures match Run(k, es)
      case Ok(r) => Inv(r) && k.dead <= r.dead && (forall t :: t in k.dead ==> t in r.dead && t !in r.ready)
      case Stop(why) => why != SwitchToNull
    decreases |es|
  {
    hide TasksOk, FramesOk, Distinct, Step, Legal;
    if es != [] {
      var step := Step(k, es[0]);
      NeverSwitchesToNull(k, es[0]);
      if step.Ok? {
        InvKept(k, es[0]);
        DeadStaysDead(k, es[0]);
        RunsStayValid(step.value, es[1..]);
      }
    }
  }

  /** A step stops only for a kernel task that asks to be terminated, or for want of 4140 bytes of heap. */
  lemma NeverSwitchesToNull(k: Kernel, e: Event)
    requires Inv(k) && Legal(k, e)
    ensures Step(k, e) == Stop(KernelTaskTerminated) <==> e.Terminate? && k.tasks[k.ready[0]].pid == 0
    ensures Step(k, e) == Stop(NoHeap) <==> e.Spawn? && k.heap + 4140 > 0x1100_0000
    ensures Step(k, e) != Stop(SwitchToNull)
  {
    if e.Terminate? && |k.ready| == 1 {
      var zero :| zero in k.ready && zero in k.tasks && k.tasks[zero].pid == 0;
      assert zero == k.ready[0];
    }
  }

  /** The current task changes only to a ready one, so control never returns to a terminated task. */
  lemma DeadStaysDead(k: Kernel, e: Event)
    requires Inv(k) && Legal(k, e) && Step(k, e).Ok?
    ensures forall t :: t in k.dead ==> t in Step(k, e).value.dead && t !in Step(k, e).value.ready
    ensures Step(k, e).value.dead == if e.Terminate? then k.dead + [k.ready[0]] else k.dead
    ensures Step(k, e).value.ready[0] in k.ready
  {
    QueuesKept(k, e);
  }

  /** Ticks, new tasks and a yield with no one to yield to leave the running task its registers and its stack. */
  lemma RunningTaskUndisturbed(k: Kernel, e: Event)
    requires Inv(k) && Legal(k, e) && Step(k, e).Ok? && !Switches(k, e) && !e.Compute?
    ensures var r, current := Step(k, e).value, k.ready[0];
      && r.cpu == k.cpu && r.ready[0] == current && r.tasks[current] == k.tasks[current]
      && forall i: nat :: InStack(k, current, i) ==> Load(r.mem, i) == Load(k.mem, i)
  {
    hide ZeroWords, PushFrame, PopFrame, FramesOk;
    StacksInMemory(k, k.ready[0]);
    if e.Spawn? {
      ZeroedWords(k.mem, k.heap / 4, TASK_SIZE / 4);
    }
  }

  // ----- Resumption -----

  /** Until `t` runs, its frame stays; when it runs, the processor holds exactly that frame. */
  lemma FrameOrResumed(k: Kernel, e: Event, t: Word)
    requires Inv(k) && Legal(k, e) && Step(k, e).Ok?
    requires t in k.ready && t != k.ready[0]
    ensures t in Step(k, e).value.ready && t in Step(k, e).value.tasks
    ensures var r := Step(k, e).value;
      if r.ready[0] == t then r.cpu == PopFrame(k.mem, k.tasks[t].top)
      else PopFrame(r.mem, r.tasks[t].top) == PopFrame(k.mem, k.tasks[t].top)
  {
    hide PopFrame, TasksOk, FramesOk, Step, Legal;
    OtherRecordsKept(k, e, t);
    OtherFramesKept(k, e, t);
    WhoRunsNext(k, e, t);
  }

  /** A switch loads the frame of the next ready task; no other event changes who runs. */
  lemma WhoRunsNext(k: Kernel, e: Event, t: Word)
    requires QueuesOk(k) && t in k.ready && t != k.ready[0] && Step(k, e).Ok?
    ensures var r := Step(k, e).value;
      && t in r.ready && r.ready != []
      && (r.ready[0] == t ==> r.cpu == PopFrame(r.mem, k.tasks[t].top))
  {
    hide PushFrame, PopFrame, ZeroWords;
    assert k.ready == [k.ready[0]] + k.ready[1..];
  }

  /** `t` is not running before any event of the run; it may be running at the end. */
  ghost predicate Away(k: Kernel, es: seq<Event>, t: Word)
    requires Inv(k) && LegalRun(k, es)
    decreases |es|
  {
    es == [] ||
    (&& t != k.ready[0]
     && (Step(k, es[0]).Ok? ==> (InvKept(k, es[0]); Away(Step(k, es[0]).value, es[1..], t))))
  }

  lemma {:induction false} ResumedFromFrame(k: Kernel, es: seq<Event>, t: Word)
    requires Inv(k) && LegalRun(k, es) && Run(k, es).Ok? && Away(k, es, t)
    requires t in k.ready && t != k.ready[0] && Run(k, es).value.ready[0] == t
    ensures Run(k, es).value.cpu == PopFrame(k.mem, k.tasks[t].top)
    decreases |es|
  {
    if es != [] {
      InvKept(k, es[0]);
      FrameOrResumed(k, es[0], t);
      var n := Step(k, es[0]).value;
      hide Inv, Step, Legal, PopFrame;
      if n.ready[0] == t {
        assert es[1..] == [];
      } else {
        TasksAreReady(n, t);
        ResumedFromFrame(n, es[1..], t);
      }
    }
  }

  /** A step leaves the whole stack block of a task that is not running alone. */
  lemma OtherStacksKept(k: Kernel, e: Event, t: Word)
    requires Inv(k) && Legal(k, e) && Step(k, e).Ok?
    requires t in k.ready && t != k.ready[0]
    ensures t in Step(k, e).value.tasks && t in Step(k, e).value.ready
    ensures forall i: nat :: InStack(k, t, i) ==>
      InStack(Step(k, e).value, t, i) && Load(Step(k, e).value.mem, i) == Load(k.mem, i)
  {
    StepChangesOnlyItsStack(k, e);
    StacksDisjoint(k, t, k.ready[0]);
    StacksInMemory(k, t);
    OtherRecordsKept(k, e, t);
    WhoRunsNext(k, e, t);
    SameBootStack(k, e);
    hide QueuesOk, TasksOk, FramesOk, Step, Legal;
  }

  lemma SameBootStack(k: Kernel, e: Event)
    requires QueuesOk(k) && Step(k, e).Ok?
    ensures Step(k, e).value.bootLow == k.bootLow && Step(k, e).value.bootHigh == k.bootHigh
  {
    hide PushFrame, PopFrame, ZeroWords, ElapsedTime;
  }

  /** While a task is away its stack block stays as it is, word for word. */
  lemma {:induction false} StackKeptWhileAway(k: Kernel, es: seq<Event>, t: Word)
    requires Inv(k) && LegalRun(k, es) && Run(k, es).Ok? && Away(k, es, t)
    requires t in k.ready && t != k.ready[0] && t in k.tasks
    ensures forall i: nat :: InStack(k, t, i) ==> Load(Run(k, es).value.mem, i) == Load(k.mem, i)
    decreases |es|
  {
    if es != [] {
      InvKept(k, es[0]);
      OtherStacksKept(k, es[0], t);
      var n := Step(k, es[0]).value;
      hide Inv, Step, Legal, InStack;
      if n.ready[0] == t {
        assert es[1..] == [];
      } else {
        StackKeptWhileAway(n, es[1..], t);
      }
    }
  }

  lemma TasksAreReady(k: Kernel, t: Word)
    requires Inv(k) && t in k.ready
    ensures t in k.tasks
  {
  }

  /** Yielding saves the point at which the stub was called. */
  lemma YieldSavesResumePoint(k: Kernel, ret: Word)
    requires Inv(k) && |k.ready| > 1 && RoomForFrame(k)
    ensures var r := Step(k, Yield(ret)).value; var t := k.ready[0];
      t in r.ready && t != r.ready[0] && t in r.tasks && PopFrame(r.mem, r.tasks[t].top) == ResumePoint(k.cpu, ret)
  {
    var t := k.ready[0];
    StacksInMemory(k, t);
    FramePushed(k.cpu, k.mem, k.ready[1], ret);
    assert k.ready[0] != k.ready[1];
    assert (k.ready[1..] + [t])[|k.ready| - 1] == t;
    hide PushFrame, PopFrame, TasksOk, FramesOk;
  }

  /** The frame lies below the stack pointer: what is at or above it stays. */
  lemma YieldKeepsStack(k: Kernel, ret: Word)
    requires Inv(k) && |k.ready| > 1 && RoomForFrame(k)
    ensures var r, t := Step(k, Yield(ret)).value, k.ready[0];
      && t in r.tasks
      && forall i: nat :: InStack(k, t, i) ==>
           InStack(r, t, i) && (k.cpu.esp <= 4 * i ==> Load(r.mem, i) == Load(k.mem, i))
  {
    StacksInMemory(k, k.ready[0]);
    FramePushed(k.cpu, k.mem, k.ready[1], ret);
    hide PushFrame, PopFrame, TasksOk, FramesOk;
  }

  /**
   * A task that yields gets back, whatever runs in between, the ebx, esi, edi, ebp and esp it had
   * and its stack as it was, and goes on at the return address of its call.
   */
  lemma YieldReturns(k: Kernel, ret: Word, es: seq<Event>)
    requires Inv(k) && |k.ready| > 1 && RoomForFrame(k)
    requires LegalRun(k, [Yield(ret)] + es) && Run(k, [Yield(ret)] + es).Ok?
    requires Inv(Step(k, Yield(ret)).value) && LegalRun(Step(k, Yield(ret)).value, es)
    requires Away(Step(k, Yield(ret)).value, es, k.ready[0])
    requires Run(k, [Yield(ret)] + es).value.ready[0] == k.ready[0]
    ensures Run(k, [Yield(ret)] + es).value.cpu == ResumePoint(k.cpu, ret)
    ensures forall i: nat :: InStack(k, k.ready[0], i) && k.cpu.esp <= 4 * i ==>
      Load(Run(k, [Yield(ret)] + es).value.mem, i) == Load(k.mem, i)
  {
    YieldSavesResumePoint(k, ret);
    YieldKeepsStack(k, ret);
    assert ([Yield(ret)] + es)[0] == Yield(ret) && ([Yield(ret)] + es)[1..] == es;
    hide Inv, Step, PopFrame, ResumePoint, RoomForFrame, InStack;
    ResumedFromFrame(Step(k, Yield(ret)).value, es, k.ready[0]);
    StackKeptWhileAway(Step(k, Yield(ret)).value, es, k.ready[0]);
  }

  /** A new task's stack block holds a frame of zeros under its entry point. */
  lemma SpawnPreparesEntry(k: Kernel, start: Word)
    requires Inv(k) && SpawnTask(k, start).Ok?
    ensures var r := SpawnTask(k, start).value; k.heap in r.ready && k.heap != r.ready[0]
    ensures var r := SpawnTask(k, start).value;
      PopFrame(r.mem, r.tasks[k.heap].top) == Cpu(0, 0, 0, 0, k.heap + 4140, start)
  {
    var r := SpawnTask(k, start).value;
    ZeroedWords(k.mem, k.heap / 4, TASK_SIZE / 4);
    var w := (k.heap + PCB_SIZE + 4076) / 4;
    FrameWords(r.mem, r.tasks[k.heap].top, w);
    assert r.ready[|k.ready|] == k.heap && k.heap !in k.tasks;
  }

  /** The first time a spawned task runs it enters at its start address, on its own empty stack. */
  lemma SpawnedTaskEnters(k: Kernel, start: Word, es: seq<Event>)
    requires Inv(k) && start != 0
    requires LegalRun(k, [Spawn(start)] + es) && Run(k, [Spawn(start)] + es).Ok?
    requires Inv(Step(k, Spawn(start)).value) && LegalRun(Step(k, Spawn(start)).value, es)
    requires Away(Step(k, Spawn(start)).value, es, k.heap)
    requires Run(k, [Spawn(start)] + es).value.ready[0] == k.heap
    ensures Run(k, [Spawn(start)] + es).value.cpu == Cpu(0, 0, 0, 0, k.heap + 4140, start)
  {
    SpawnPreparesEntry(k, start);
    assert ([Spawn(start)] + es)[0] == Spawn(start) && ([Spawn(start)] + es)[1..] == es;
    assert Step(k, Spawn(start)) == SpawnTask(k, start);
    hide Inv, Step, PopFrame, SpawnTask;
    ResumedFromFrame(Step(k, Spawn(start)).value, es, k.heap);
  }

  /** What a task computes before it yields is what waits for it: its registers in the frame, its stack above it. */
  lemma ComputedThenYielded(k: Kernel, cpu: Cpu, mem: Memory, ret: Word)
    requires Inv(k) && Legal(k, Compute(cpu, mem)) && |k.ready| > 1
    requires RoomForFrame(k.(cpu := cpu))
    ensures Inv(Step(k, Compute(cpu, mem)).value)
    ensures var r, t := Step(Step(k, Compute(cpu, mem)).value, Yield(ret)).value, k.ready[0];
      && t in r.tasks && PopFrame(r.mem, r.tasks[t].top) == ResumePoint(cpu, ret)
      && forall i: nat :: InStack(k, t, i) && cpu.esp <= 4 * i ==> Load(r.mem, i) == Load(mem, i)
  {
    InvKept(k, Compute(cpu, mem));
    var n := Step(k, Compute(cpu, mem)).value;
    assert n == k.(cpu := cpu, mem := mem);
    hide Inv, PopFrame, SwitchTo, ResumePoint;
    YieldSavesResumePoint(n, ret);
    YieldKeepsStack(n, ret);
    assert forall i: nat :: InStack(k, k.ready[0], i) ==> InStack(n, k.ready[0], i);
  }

  // ----- Turns -----

  /** Whether an event hands the processor to another task. */
  predicate Switches(k: Kernel, e: Event) {
    (e.Yield? && |k.ready| > 1) || e.Terminate?
  }

  ghost function SwitchCount(k: Kernel, es: seq<Event>): nat
    requires Inv(k) && LegalRun(k, es)
    decreases |es|
  {
    if es == [] || Step(k, es[0]).Stop? then 0
    else (if Switches(k, es[0]) then 1 else 0) + (InvKept(k, es[0]); SwitchCount(Step(k, es[0]).value, es[1..]))
  }

  /** A switch moves every waiting task one place forward; nothing else moves it. */
  lemma OnePlaceForward(k: Kernel, e: Event, i: nat)
    requires Inv(k) && Legal(k, e) && Step(k, e).Ok? && i < |k.ready|
    requires Switches(k, e) ==> i > 0
    ensures var r := Step(k, e).value; var j := if Switches(k, e) then i - 1 else i;
      j < |r.ready| && r.ready[j] == k.ready[i]
  {
    hide PushFrame, PopFrame, TasksOk, FramesOk, ZeroWords, Legal;
  }

  /** Unrolling a run by its first event. */
  lemma RunUnrolled(k: Kernel, es: seq<Event>) returns (n: Kernel)
    requires Inv(k) && LegalRun(k, es) && Run(k, es).Ok? && es != []
    ensures Legal(k, es[0]) && Step(k, es[0]) == Ok(n) && Inv(n) && LegalRun(n, es[1..])
    ensures Run(k, es) == Run(n, es[1..])
    ensures SwitchCount(k, es) == SwitchCount(n, es[1..]) + if Switches(k, es[0]) then 1 else 0
  {
    InvKept(k, es[0]);
    n := Step(k, es[0]).value;
    hide Inv, Step, Legal, Switches;
  }

  lemma EmptyRun(k: Kernel, es: seq<Event>)
    requires Inv(k) && LegalRun(k, es) && es == []
    ensures Run(k, es) == Ok(k) && SwitchCount(k, es) == 0
  {
  }

  lemma {:induction false} PlaceAfterRun(k: Kernel, es: seq<Event>, i: nat)
    requires Inv(k) && LegalRun(k, es) && Run(k, es).Ok? && i < |k.ready|
    requires SwitchCount(k, es) <= i
    ensures var r := Run(k, es).value; var j := i - SwitchCount(k, es);
      j < |r.ready| && r.ready[j] == k.ready[i]
    decreases |es|
  {
    hide Inv, Step, Legal, Switches, Run, LegalRun, SwitchCount;
    if es == [] {
      EmptyRun(k, es);
    } else {
      var n := RunUnrolled(k, es);
      OnePlaceForward(k, es[0], i);
      PlaceAfterRun(n, es[1..], if Switches(k, es[0]) then i - 1 else i);
    }
  }

  /**
   * Bounded waiting: whatever mix of yields, terminations and spawns runs, the task at place `i`
   * is at place `i - n` after `n` switches. So it runs after exactly `i` switches, and not before.
   */
  lemma BoundedWaiting(k: Kernel, es: seq<Event>, i: nat)
    requires Inv(k) && LegalRun(k, es) && Run(k, es).Ok? && i < |k.ready|
    requires SwitchCount(k, es) <= i
    ensures var r := Run(k, es).value; var j := i - SwitchCount(k, es);
      && j < |r.ready| && r.ready[j] == k.ready[i]
      && (r.ready[0] == k.ready[i] <==> SwitchCount(k, es) == i)
  {
    PlaceAfterRun(k, es, i);
    assert Distinct(Run(k, es).value.ready);
    hide Run, Inv, LegalRun, SwitchCount;
  }

  predicate OnlyYields(es: seq<Event>) {
    forall i :: 0 <= i < |es| ==> !es[i].Terminate? && !es[i].Spawn?
  }

  /** While tasks only compute and yield, `n` switches rotate the queue `n` places; a full turn restores it. */
  lemma {:induction false} YieldsRotate(k: Kernel, es: seq<Event>)
    requires Inv(k) && LegalRun(k, es) && Run(k, es).Ok? && OnlyYields(es)
    requires SwitchCount(k, es) <= |k.ready|
    ensures Run(k, es).value.ready == k.ready[SwitchCount(k, es)..] + k.ready[..SwitchCount(k, es)]
    ensures SwitchCount(k, es) == |k.ready| ==> Run(k, es).value.ready == k.ready
    decreases |es|
  {
    hide TasksOk, FramesOk, Run, LegalRun, SwitchCount, Step, Switches;
    if es == [] {
      EmptyRun(k, es);
    } else {
      var n := RunUnrolled(k, es);
      assert OnlyYields(es[1..]) && !es[0].Terminate? && !es[0].Spawn?;
      hide OnlyYields;
      YieldTurns(k, es[0]);
      YieldsRotate(n, es[1..]);
      var m := SwitchCount(n, es[1..]);
      if m + 1 <= |k.ready| {
        RotateOnce(k.ready, m);
      }
    }
  }

  lemma YieldTurns(k: Kernel, e: Event)
    requires QueuesOk(k) && !e.Terminate? && !e.Spawn? && Step(k, e).Ok?
    ensures Step(k, e).value.ready == if Switches(k, e) then k.ready[1..] + k.ready[..1] else k.ready
  {
  }

  lemma RotateOnce(q: seq<Word>, m: nat)
    requires m + 1 <= |q|
    ensures var p := q[1..] + q[..1]; p[m..] + p[..m] == q[m + 1..] + q[..m + 1]
  {
  }
}
