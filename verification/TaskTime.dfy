/** Time accounting: every tick up to the last switch is charged to a task, but for wrapped updates. */
module TaskTime {
  import opened Machine
  import opened Tasks
  import opened TaskRuns

  function TimeOf(tasks: map<Word, Pcb>, s: seq<Word>): nat {
    if s == [] then 0
    else (if s[0] in tasks then tasks[s[0]].timeUsed else 0) + TimeOf(tasks, s[1..])
  }

  lemma {:induction false} TimeOfJoin(tasks: map<Word, Pcb>, a: seq<Word>, b: seq<Word>)
    ensures TimeOf(tasks, a + b) == TimeOf(tasks, a) + TimeOf(tasks, b)
  {
    if a == [] {
      assert a + b == b;
    } else {
      assert (a + b)[1..] == a[1..] + b;
      TimeOfJoin(tasks, a[1..], b);
    }
  }

  lemma {:induction false} TimeOfOthers(tasks: map<Word, Pcb>, s: seq<Word>, changed: map<Word, Pcb>)
    requires forall t :: t in s ==> t in tasks && t in changed && changed[t].timeUsed == tasks[t].timeUsed
    ensures TimeOf(tasks, s) == TimeOf(changed, s)
  {
    if s != [] {
      TimeOfOthers(tasks, s[1..], changed);
    }
  }

  /** The time charged to all tasks, live and terminated. */
  function TotalTime(k: Kernel): nat {
    TimeOf(k.tasks, k.ready) + TimeOf(k.tasks, k.dead)
  }

  /** Updates that take the wrap branch of `elapsed_time`. */
  predicate ShortUpdate(k: Kernel, e: Event) {
    Switches(k, e) && k.ticks < k.lastTime
  }

  ghost function ShortCount(k: Kernel, es: seq<Event>): nat
    requires Inv(k) && LegalRun(k, es)
    decreases |es|
  {
    if es == [] || Step(k, es[0]).Stop? then 0
    else (if ShortUpdate(k, es[0]) then 1 else 0) + (InvKept(k, es[0]); ShortCount(Step(k, es[0]).value, es[1..]))
  }

  /** Both kinds of switch move the current task to the end of one of the queues. */
  lemma SwitchTotal(k: Kernel, r: Kernel, used: Word)
    requires QueuesOk(k) && k.ready[0] in r.tasks
    requires (r.ready == k.ready[1..] + [k.ready[0]] && r.dead == k.dead)
          || (r.ready == k.ready[1..] && r.dead == k.dead + [k.ready[0]])
    requires forall t :: t in k.tasks && t != k.ready[0] ==> t in r.tasks && r.tasks[t] == k.tasks[t]
    requires r.tasks[k.ready[0]].timeUsed == used
    ensures TotalTime(r) == TotalTime(k) - k.tasks[k.ready[0]].timeUsed + used
  {
    var current, rest := k.ready[0], k.ready[1..];
    assert k.ready == [current] + rest;
    DistinctSplit([current], rest);
    assert current !in rest && current !in k.dead;
    TimeOfJoin(k.tasks, [current], rest);
    TimeOfOthers(k.tasks, rest, r.tasks);
    TimeOfOthers(k.tasks, k.dead, r.tasks);
    if r.dead == k.dead {
      TimeOfJoin(r.tasks, rest, [current]);
    } else {
      TimeOfJoin(r.tasks, k.dead, [current]);
    }
  }

  lemma SpawnTotal(k: Kernel, start: Word)
    requires QueuesOk(k) && k.heap !in k.tasks && SpawnTask(k, start).Ok?
    ensures TotalTime(SpawnTask(k, start).value) == TotalTime(k)
  {
    var r := SpawnTask(k, start).value;
    hide ZeroWords;
    TimeOfOthers(k.tasks, k.ready, r.tasks);
    TimeOfOthers(k.tasks, k.dead, r.tasks);
    TimeOfJoin(r.tasks, k.ready, [k.heap]);
  }

  lemma WrapSum(a: int, b: int)
    ensures Wrap(Wrap(a) + b) == Wrap(a + b)
  {
  }

  /** What a switch does to the queues and to the record of the task that gives up the processor. */
  lemma SwitchRecords(k: Kernel, e: Event)
    requires QueuesOk(k) && Switches(k, e) && Step(k, e).Ok?
    ensures var r, current := Step(k, e).value, k.ready[0];
      && r.lastTime == k.ticks && current in r.tasks
      && r.tasks[current].timeUsed == Wrap(k.tasks[current].timeUsed + ElapsedTime(k.lastTime, k.ticks))
      && ((r.ready == k.ready[1..] + [current] && r.dead == k.dead)
          || (r.ready == k.ready[1..] && r.dead == k.dead + [current]))
      && forall t :: t in k.tasks && t != current ==> t in r.tasks && r.tasks[t] == k.tasks[t]
  {
    hide PushFrame, PopFrame, ElapsedTime;
  }

  /** A switch charges exactly the ticks since the last one, less one if the counter has wrapped. */
  lemma SwitchConservesTime(k: Kernel, e: Event)
    requires QueuesOk(k) && Switches(k, e) && Step(k, e).Ok?
    ensures var r := Step(k, e).value;
      Wrap(TotalTime(r) - r.lastTime) == Wrap(TotalTime(k) - k.lastTime - if k.ticks < k.lastTime then 1 else 0)
  {
    SwitchRecords(k, e);
    hide Step, SwitchTo, ElapsedTime, TotalTime, Distinct;
    SwitchTotal(k, Step(k, e).value, Wrap(k.tasks[k.ready[0]].timeUsed + ElapsedTime(k.lastTime, k.ticks)));
    ChargeExact(TotalTime(k), k.tasks[k.ready[0]].timeUsed, k.lastTime, k.ticks);
  }

  lemma StepConservesTime(k: Kernel, e: Event)
    requires Inv(k) && Legal(k, e) && Step(k, e).Ok?
    ensures var r := Step(k, e).value;
      Wrap(TotalTime(r) - r.lastTime) == Wrap(TotalTime(k) - k.lastTime - if ShortUpdate(k, e) then 1 else 0)
  {
    hide TasksOk, FramesOk, Legal, SwitchTo, ElapsedTime, TotalTime, TimeOf;
    if Switches(k, e) {
      SwitchConservesTime(k, e);
    } else if e.Spawn? {
      HeapIsFresh(k);
      SpawnTotal(k, e.start);
    } else {
      SameTime(k, Step(k, e).value);
    }
  }

  lemma HeapIsFresh(k: Kernel)
    requires TasksOk(k)
    ensures k.heap !in k.tasks
  {
  }

  lemma SameTime(k: Kernel, r: Kernel)
    requires r.ready == k.ready && r.dead == k.dead && r.tasks == k.tasks
    ensures TotalTime(r) == TotalTime(k)
  {
  }

  lemma ChargeExact(total: int, before: Word, last: Word, now: Word)
    ensures Wrap(total - before + Wrap(before + ElapsedTime(last, now)) - now) ==
            Wrap(total - last - if now < last then 1 else 0)
  {
    ElapsedTimeExact(last, now);
    var short := if now < last then 1 else 0;
    assert ElapsedTime(last, now) == Wrap(now - last - short);
    hide ElapsedTime;
    WrapSum(now - last - short, before);
    WrapSum(before + (now - last - short), total - before - now);
  }

  /**
   * Over any run, ticks are conserved modulo 2^32: what the tasks were charged differs from the
   * time of the last switch by exactly one tick for every update that took the wrap branch.
   */
  lemma {:induction false} RunConservesTime(k: Kernel, es: seq<Event>)
    requires Inv(k) && LegalRun(k, es) && Run(k, es).Ok?
    ensures var r := Run(k, es).value;
      Wrap(TotalTime(r) + ShortCount(k, es) - r.lastTime) == Wrap(TotalTime(k) - k.lastTime)
    decreases |es|
  {
    hide Inv, Step, Legal, LegalRun, ShortUpdate, TotalTime, Wrap, SwitchCount, ShortCount, Run;
    if es == [] {
      EmptyRun(k, es);
      NoShortUpdates(k, es);
    } else {
      var n := RunUnrolled(k, es);
      ShortCountUnrolled(k, es, n);
      StepConservesTime(k, es[0]);
      RunConservesTime(n, es[1..]);
      var r := Run(k, es).value;
      AddUp(TotalTime(r) - r.lastTime, ShortCount(n, es[1..]), TotalTime(n) - n.lastTime, TotalTime(k) - k.lastTime,
            if ShortUpdate(k, es[0]) then 1 else 0);
    }
  }

  lemma NoShortUpdates(k: Kernel, es: seq<Event>)
    requires Inv(k) && LegalRun(k, es) && es == []
    ensures ShortCount(k, es) == 0
  {
  }

  lemma AddUp(r: int, count: int, n: int, k: int, short: int)
    requires Wrap(r + count) == Wrap(n) && Wrap(n) == Wrap(k - short)
    ensures Wrap(r + (count + short)) == Wrap(k)
  {
    WrapSum(r + count, short);
    WrapSum(k - short, short);
  }

  lemma ShortCountUnrolled(k: Kernel, es: seq<Event>, n: Kernel)
    requires Inv(k) && LegalRun(k, es) && es != [] && Step(k, es[0]) == Ok(n)
    requires Inv(n) && LegalRun(n, es[1..])
    ensures ShortCount(k, es) == ShortCount(n, es[1..]) + if ShortUpdate(k, es[0]) then 1 else 0
  {
    hide Inv, Step, Legal, ShortUpdate;
  }

  // ----- The ticks that occurred -----

  function TickCount(es: seq<Event>): nat {
    if es == [] then 0 else (if es[0].Tick? then 1 else 0) + TickCount(es[1..])
  }

  /** The counter counts: every tick of a run is in it, modulo 2^32, and nothing else is. */
  lemma {:induction false} RunCountsTicks(k: Kernel, es: seq<Event>)
    requires Inv(k) && LegalRun(k, es) && Run(k, es).Ok?
    ensures Run(k, es).value.ticks == Wrap(k.ticks + TickCount(es))
    decreases |es|
  {
    hide Inv, Step, Legal, LegalRun, Wrap, Run, SwitchCount;
    if es == [] {
      EmptyRun(k, es);
      WrapOfWord(k.ticks);
    } else {
      var n := RunUnrolled(k, es);
      StepCountsTicks(k, es[0]);
      RunCountsTicks(n, es[1..]);
      WrapSum(k.ticks + (if es[0].Tick? then 1 else 0), TickCount(es[1..]));
    }
  }

  lemma StepCountsTicks(k: Kernel, e: Event)
    requires Inv(k) && Step(k, e).Ok?
    ensures Step(k, e).value.ticks == Wrap(k.ticks + if e.Tick? then 1 else 0)
    ensures Step(k, e).value.lastTime == if Switches(k, e) then k.ticks else k.lastTime
  {
    hide PushFrame, PopFrame, ElapsedTime, ZeroWords;
  }

  lemma WrapOfWord(w: Word)
    ensures Wrap(w) == w
  {
  }

  /** How many ticks of the run had occurred when the processor changed hands for the last time, if it did. */
  ghost function TicksAtLastSwitch(k: Kernel, es: seq<Event>): Option<nat>
    requires Inv(k) && LegalRun(k, es)
    decreases |es|
  {
    if es == [] || Step(k, es[0]).Stop? then None
    else
      match (InvKept(k, es[0]); TicksAtLastSwitch(Step(k, es[0]).value, es[1..]))
      case Some(n) => Some(n + if es[0].Tick? then 1 else 0)
      case None => if Switches(k, es[0]) then Some(0) else None
  }

  /** `last_time` after a run: the counter as it stood at the last switch, if there was one. */
  function TimeOfLastSwitch(k: Kernel, at: Option<nat>): Word {
    match at
    case Some(n) => Wrap(k.ticks + n)
    case None => k.lastTime
  }

  lemma {:induction false} LastTimeIsLastSwitch(k: Kernel, es: seq<Event>)
    requires Inv(k) && LegalRun(k, es) && Run(k, es).Ok?
    ensures Run(k, es).value.lastTime == TimeOfLastSwitch(k, TicksAtLastSwitch(k, es))
    decreases |es|
  {
    hide Inv, Step, Legal, LegalRun, Wrap, Run, SwitchCount, Switches, TicksAtLastSwitch;
    if es == [] {
      EmptyRun(k, es);
      NoLastSwitch(k, es);
    } else {
      var n := RunUnrolled(k, es);
      StepCountsTicks(k, es[0]);
      LastTimeIsLastSwitch(n, es[1..]);
      LastSwitchUnrolled(k, es, n);
      WrapOfWord(k.ticks);
      var at := TicksAtLastSwitch(n, es[1..]);
      if at.Some? {
        WrapSum(k.ticks + (if es[0].Tick? then 1 else 0), at.value);
      }
    }
  }

  lemma NoLastSwitch(k: Kernel, es: seq<Event>)
    requires Inv(k) && LegalRun(k, es) && es == []
    ensures TicksAtLastSwitch(k, es) == None
  {
  }

  lemma LastSwitchUnrolled(k: Kernel, es: seq<Event>, n: Kernel)
    requires Inv(k) && LegalRun(k, es) && es != [] && Step(k, es[0]) == Ok(n)
    requires Inv(n) && LegalRun(n, es[1..])
    ensures TicksAtLastSwitch(k, es) ==
      match TicksAtLastSwitch(n, es[1..])
      case Some(m) => Some(m + if es[0].Tick? then 1 else 0)
      case None => if Switches(k, es[0]) then Some(0) else None
  {
    hide Inv, Step, Legal, Switches;
  }

  // ----- init_tasking -----

  /** The state once `init_tasking` has made the running code task 0. */
  function InitTasking(heap: Word, bootLow: Word, bootHigh: Word, ticks: Word, cpu: Cpu, mem: Memory): Kernel
    requires heap + TASK_SIZE <= HEAP_END
  {
    Kernel([heap], [], map[heap := Pcb(0, heap + PCB_SIZE + 4092, 0)], 0, ticks, 1, heap + TASK_SIZE, bootLow, bootHigh,
           cpu, ZeroWords(mem, heap / 4, TASK_SIZE / 4))
  }

  /** Where the kernel starts: a word-aligned heap in its area, and a boot stack below it. */
  predicate Startable(heap: Word, bootLow: Word, bootHigh: Word, mem: Memory) {
    && HEAP_START <= heap && heap + TASK_SIZE <= HEAP_END && heap % 4 == 0
    && bootLow <= bootHigh <= HEAP_START && bootLow % 4 == 0 && bootHigh % 4 == 0
    && |mem| * 4 >= HEAP_END
  }

  lemma InitTaskingValid(heap: Word, bootLow: Word, bootHigh: Word, ticks: Word, cpu: Cpu, mem: Memory)
    requires Startable(heap, bootLow, bootHigh, mem)
    ensures Inv(InitTasking(heap, bootLow, bootHigh, ticks, cpu, mem))
    ensures var k := InitTasking(heap, bootLow, bootHigh, ticks, cpu, mem);
      && k.cpu == cpu && k.ticks == ticks && k.heap == heap + 4140 && k.ready == [heap] && k.dead == []
      && forall i: nat :: !(heap <= 4 * i < heap + 4140) ==> Load(k.mem, i) == Load(mem, i)
  {
    var k := InitTasking(heap, bootLow, bootHigh, ticks, cpu, mem);
    ZeroedWords(mem, heap / 4, TASK_SIZE / 4);
    hide ZeroWords;
    assert TasksOk(k) by {
      assert heap in k.ready && k.tasks[heap].pid == 0;
      hide QueuesOk;
    }
    hide TasksOk;
  }

  lemma NothingCharged(heap: Word, bootLow: Word, bootHigh: Word, ticks: Word, cpu: Cpu, mem: Memory)
    requires heap + TASK_SIZE <= HEAP_END
    ensures TotalTime(InitTasking(heap, bootLow, bootHigh, ticks, cpu, mem)) == 0
  {
    var k := InitTasking(heap, bootLow, bootHigh, ticks, cpu, mem);
    hide ZeroWords;
    assert TimeOf(k.tasks, k.ready) == k.tasks[heap].timeUsed == 0;
  }

  /**
   * From init_tasking on, the tasks were charged every tick there was up to the last switch, those before
   * init_tasking included, if and only if no update wrapped, modulo 2^32; and one less for each that did.
   */
  lemma TimeAddsUp(heap: Word, bootLow: Word, bootHigh: Word, ticks: Word, cpu: Cpu, mem: Memory, es: seq<Event>)
    requires Startable(heap, bootLow, bootHigh, mem)
    requires var k := InitTasking(heap, bootLow, bootHigh, ticks, cpu, mem); Inv(k) && LegalRun(k, es) && Run(k, es).Ok?
    ensures var k := InitTasking(heap, bootLow, bootHigh, ticks, cpu, mem);
      var r, charged := Run(k, es).value, match TicksAtLastSwitch(k, es) case Some(n) => ticks + n case None => 0;
      && r.ticks == Wrap(ticks + TickCount(es)) && r.lastTime == Wrap(charged)
      && Wrap(TotalTime(r) + ShortCount(k, es)) == Wrap(charged)
      && (Wrap(TotalTime(r)) == Wrap(charged) <==> ShortCount(k, es) % WORD_LIMIT == 0)
  {
    hide Inv, Run, LegalRun, ShortCount, TotalTime, TicksAtLastSwitch, TickCount;
    var k := InitTasking(heap, bootLow, bootHigh, ticks, cpu, mem);
    NothingCharged(heap, bootLow, bootHigh, ticks, cpu, mem);
    RunConservesTime(k, es);
    RunCountsTicks(k, es);
    LastTimeIsLastSwitch(k, es);
    var r := Run(k, es).value;
    WrapSum(TotalTime(r) + ShortCount(k, es) - r.lastTime, r.lastTime);
  }

  // ----- The wrapped update happens -----

  /** A legal step in front of a legal run. */
  lemma LegalFirst(k: Kernel, e: Event, n: Kernel, es: seq<Event>)
    requires Inv(k) && Legal(k, e) && Step(k, e) == Ok(n) && Inv(n) && LegalRun(n, es)
    ensures LegalRun(k, [e] + es) && Run(k, [e] + es) == Run(n, es)
    ensures ShortCount(k, [e] + es) == ShortCount(n, es) + if ShortUpdate(k, e) then 1 else 0
  {
    hide Inv, Step, Legal, ShortUpdate;
    assert ([e] + es)[1..] == es;
  }

  lemma YieldBetweenTwo(k: Kernel, t: Word, u: Word, ret: Word)
    requires QueuesOk(k) && k.ready == [t, u]
    ensures var n := Step(k, Yield(ret)).value;
      && Step(k, Yield(ret)).Ok? && n.ready == [u, t] && n.tasks[u] == k.tasks[u]
      && n.cpu.esp == Wrap(k.tasks[u].top + 20) && n.lastTime == n.ticks == k.ticks
  {
    hide PushFrame, Load, ElapsedTime;
    assert k.ready[0] != k.ready[1];
  }

  /** A yield to a task that has not run yet: it is entered on its own stack, which is empty. */
  lemma YieldToNewTask(k: Kernel, t: Word, u: Word, ret: Word)
    requires Inv(k) && k.ready == [t, u] && RoomForFrame(k)
    requires k.tasks[u].pid != 0 && k.tasks[u].top + 20 == u + TASK_SIZE
    ensures Legal(k, Yield(ret)) && Step(k, Yield(ret)).Ok?
    ensures var n := Step(k, Yield(ret)).value;
      Inv(n) && |n.ready| == 2 && RoomForFrame(n) && n.lastTime == n.ticks == k.ticks
  {
    hide TasksOk, FramesOk, Distinct, Step;
    assert u in k.ready;
    TaskBlock(k, u);
    YieldBetweenTwo(k, t, u, ret);
    InvKept(k, Yield(ret));
  }

  lemma TaskBlock(k: Kernel, t: Word)
    requires TasksOk(k) && t in k.tasks
    ensures t % 4 == 0 && HEAP_START <= t && t + TASK_SIZE <= HEAP_END
  {
  }

  lemma SpawnFirstTask(heap: Word, bootLow: Word, bootHigh: Word, cpu: Cpu, mem: Memory, start: Word)
    requires Startable(heap, bootLow, bootHigh, mem) && heap + 2 * TASK_SIZE <= HEAP_END && start != 0
    requires bootLow + 24 <= cpu.esp <= bootHigh && cpu.esp % 4 == 0
    ensures var k := InitTasking(heap, bootLow, bootHigh, 0xFFFF_FFFF, cpu, mem);
      Inv(k) && Legal(k, Spawn(start)) && Step(k, Spawn(start)).Ok?
    ensures var k := InitTasking(heap, bootLow, bootHigh, 0xFFFF_FFFF, cpu, mem);
      var n, u := Step(k, Spawn(start)).value, heap + TASK_SIZE;
      && Inv(n) && n.ready == [heap, u] && RoomForFrame(n) && n.lastTime <= n.ticks == 0xFFFF_FFFF
      && n.tasks[u].pid != 0 && n.tasks[u].top + 20 == u + TASK_SIZE
  {
    var k := InitTasking(heap, bootLow, bootHigh, 0xFFFF_FFFF, cpu, mem);
    InitTaskingValid(heap, bootLow, bootHigh, 0xFFFF_FFFF, cpu, mem);
    InvKept(k, Spawn(start));
    hide TasksOk, FramesOk, ZeroWords, Store, Load;
  }

  lemma LastTwoSteps(k2: Kernel, k3: Kernel, k4: Kernel, ret: Word)
    requires Inv(k2) && Inv(k3) && Inv(k4)
    requires Legal(k2, Tick) && Step(k2, Tick) == Ok(k3)
    requires Legal(k3, Yield(ret)) && Step(k3, Yield(ret)) == Ok(k4) && ShortUpdate(k3, Yield(ret))
    ensures LegalRun(k2, [Tick, Yield(ret)]) && Run(k2, [Tick, Yield(ret)]) == Ok(k4)
    ensures ShortCount(k2, [Tick, Yield(ret)]) == 1
  {
    hide Inv, Step, Legal, LegalRun, Run, ShortCount;
    LastOfRun(k4);
    LegalFirst(k3, Yield(ret), k4, []);
    assert [Yield(ret)] + [] == [Yield(ret)];
    LegalFirst(k2, Tick, k3, [Yield(ret)]);
    assert [Tick] + [Yield(ret)] == [Tick, Yield(ret)];
  }

  lemma FirstTwoSteps(k: Kernel, k1: Kernel, k2: Kernel, k4: Kernel, start: Word, ret: Word)
    requires Inv(k) && Inv(k1) && Inv(k2)
    requires Legal(k, Spawn(start)) && Step(k, Spawn(start)) == Ok(k1)
    requires Legal(k1, Yield(ret)) && Step(k1, Yield(ret)) == Ok(k2) && !ShortUpdate(k1, Yield(ret))
    requires LegalRun(k2, [Tick, Yield(ret)]) && Run(k2, [Tick, Yield(ret)]) == Ok(k4)
    requires ShortCount(k2, [Tick, Yield(ret)]) == 1
    ensures var es := [Spawn(start), Yield(ret), Tick, Yield(ret)];
      LegalRun(k, es) && Run(k, es) == Ok(k4) && ShortCount(k, es) == 1
  {
    hide Inv, Step, Legal, LegalRun, Run, ShortCount;
    LegalFirst(k1, Yield(ret), k2, [Tick, Yield(ret)]);
    assert [Yield(ret)] + [Tick, Yield(ret)] == [Yield(ret), Tick, Yield(ret)];
    LegalFirst(k, Spawn(start), k1, [Yield(ret), Tick, Yield(ret)]);
    assert [Spawn(start)] + [Yield(ret), Tick, Yield(ret)] == [Spawn(start), Yield(ret), Tick, Yield(ret)];
  }

  /**
   * A tick is lost on a reachable run: two tasks, and the counter wraps between two switches. The tasks were
   * charged one tick less than went by.
   */
  lemma TickLost(heap: Word, bootLow: Word, bootHigh: Word, cpu: Cpu, mem: Memory, start: Word, ret: Word)
    requires Startable(heap, bootLow, bootHigh, mem) && heap + 2 * TASK_SIZE <= HEAP_END && start != 0
    requires bootLow + 24 <= cpu.esp <= bootHigh && cpu.esp % 4 == 0
    ensures var k := InitTasking(heap, bootLow, bootHigh, 0xFFFF_FFFF, cpu, mem);
      var es := [Spawn(start), Yield(ret), Tick, Yield(ret)];
      && Inv(k) && LegalRun(k, es) && Run(k, es).Ok?
      && ShortCount(k, es) == 1 && Run(k, es).value.lastTime == 0 && Wrap(TotalTime(Run(k, es).value)) == 0xFFFF_FFFF
  {
    hide Step, Legal, TasksOk, FramesOk, Distinct, RoomForFrame, LegalRun, Run, ShortCount, TotalTime;
    hide Startable, InitTasking;
    var k := InitTasking(heap, bootLow, bootHigh, 0xFFFF_FFFF, cpu, mem);
    SpawnFirstTask(heap, bootLow, bootHigh, cpu, mem, start);
    var k1 := Step(k, Spawn(start)).value;
    YieldToNewTask(k1, heap, heap + TASK_SIZE, ret);
    var k2 := Step(k1, Yield(ret)).value;
    WrapThenYield(k2, ret);
    var k3 := Step(k2, Tick).value;
    var k4 := Step(k3, Yield(ret)).value;
    LastTwoSteps(k2, k3, k4, ret);
    FirstTwoSteps(k, k1, k2, k4, start, ret);
    TimeAddsUp(heap, bootLow, bootHigh, 0xFFFF_FFFF, cpu, mem, [Spawn(start), Yield(ret), Tick, Yield(ret)]);
  }

  lemma LastOfRun(k: Kernel)
    requires Inv(k)
    ensures LegalRun(k, []) && Run(k, []) == Ok(k) && ShortCount(k, []) == 0
  {
  }

  lemma WrapThenYield(k: Kernel, ret: Word)
    requires Inv(k) && |k.ready| == 2 && RoomForFrame(k) && k.lastTime == k.ticks == 0xFFFF_FFFF
    ensures Legal(k, Tick) && Step(k, Tick).Ok?
    ensures var n := Step(k, Tick).value;
      && Inv(n) && Legal(n, Yield(ret)) && Step(n, Yield(ret)).Ok? && ShortUpdate(n, Yield(ret))
      && Inv(Step(n, Yield(ret)).value) && Step(n, Yield(ret)).value.lastTime == 0
  {
    hide TasksOk, FramesOk, Distinct, SwitchTo;
    InvKept(k, Tick);
    var n := Step(k, Tick).value;
    assert RoomForFrame(n) && n.ready == [n.ready[0], n.ready[1]];
    YieldBetweenTwo(n, n.ready[0], n.ready[1], ret);
    InvKept(n, Yield(ret));
  }
}
