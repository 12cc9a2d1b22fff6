/** How far the kernel's promises reach: a kernel with a keyboard task does start and halt, the task
    queue overflows after exactly so many key presses, and leaving out the second pop of `poll_next`
    or the interrupt mask of `sleep_if_idle` breaks what `HaltIsSound` says. */
module KernelLimits {
  import opened ByteMemory
  import opened Layouts
  import opened KernelMachine
  import opened KernelSafety
  import opened KernelRuns

  // -------- Start-up --------

  const BOOT: seq<Action> := [CreateTask(Keyboard(false)), Action.Spawn(0), BeginRun, Exec, Exec, Exec]

  // The keyboard task, alone, about to look at the queue for the first time.
  const BOOTED: State :=
    INITIAL.(pc := FastPop(0), nextId := 1, created := 1, tasks := map[0 := Keyboard(true)],
             wakerCache := map[0 := Waker(0, 0)], wakersMade := 1, issued := {0}, scancodes := Some([]))

  // The states on the way.
  function BootState(i: nat): (s: State)
    requires i <= |BOOT|
  {
    if i == 0 then INITIAL
    else if i == 1 then INITIAL.(held := [Task(0, Keyboard(false))], nextId := 1, created := 1)
    else if i <= 3 then
      INITIAL.(pc := if i == 2 then Setup else LoopHead, nextId := 1, created := 1,
               tasks := map[0 := Keyboard(false)], taskQueue := [0])
    else if i == 4 then INITIAL.(pc := Popped(0), nextId := 1, created := 1, tasks := map[0 := Keyboard(false)])
    else if i == 5 then BOOTED.(pc := Resume(0), tasks := map[0 := Keyboard(false)], scancodes := None)
    else BOOTED
  }

  lemma BootSpawns(i: nat)
    requires i < 3
    ensures Next(BootState(i), BOOT[i]) == Some(BootState(i + 1))
  {
    var task := Task(0, Keyboard(false));
    assert INITIAL.held + [task] == [task];
    assert RemoveAt([task], 0) == [] && INITIAL.taskQueue + [0] == [0];
    assert INITIAL.tasks[0 := Keyboard(false)] == map[0 := Keyboard(false)];
  }

  lemma BootPolls(i: nat)
    requires 3 <= i < 6
    ensures Next(BootState(i), BOOT[i]) == Some(BootState(i + 1))
  {
    assert BootState(3).taskQueue[1..] == [];
    assert INITIAL.wakerCache[0 := Waker(0, 0)] == map[0 := Waker(0, 0)] && INITIAL.issued + {0} == {0};
    assert BootState(5).tasks[0 := Keyboard(true)] == map[0 := Keyboard(true)];
  }

  lemma BootStep(i: nat)
    requires i < |BOOT|
    ensures Next(BootState(i), BOOT[i]) == Some(BootState(i + 1))
  {
    hide Next, BootState;
    if i < 3 {
      BootSpawns(i);
    } else {
      BootPolls(i);
    }
  }

  lemma {:induction false} BootFrom(i: nat)
    requires i <= |BOOT|
    ensures Run(BootState(i), BOOT[i..]) == Some(BOOTED)
    decreases |BOOT| - i
  {
    hide Next;
    if i == |BOOT| {
    } else {
      BootStep(i);
      BootFrom(i + 1);
      assert BOOT[i..][1..] == BOOT[i + 1..];
    }
  }

  lemma Boot()
    ensures Run(INITIAL, BOOT) == Some(BOOTED)
  {
    hide Run;
    BootFrom(0);
    assert BOOT[0..] == BOOT;
  }

  lemma RunTwo(s: State, s1: State, s2: State, a: Action, b: Action)
    requires Next(s, a) == Some(s1) && Next(s1, b) == Some(s2)
    ensures Run(s, [a, b]) == Some(s2)
  {
    assert [a, b][1..] == [b];
    RunOne(s1, b);
  }

  /** A kernel whose one task is the keyboard's, left alone, does halt, registered and with nothing to do:
      the premise of `HaltRoundTrip` holds of this state. */
  lemma KernelHalts()
    ensures Run(INITIAL, BOOT + Execs(9)) == Some(BOOTED.(pc := Halted, slot := Some(Waker(0, 0))))
    ensures exists s :: Reachable(s) && s.fault == NoFault && s.pc.Halted? && Started(s.tasks, 0)
  {
    hide Run;
    Boot();
    PollRoundTrip(BOOTED, 0);
    RunConcat(INITIAL, BOOT, Execs(9));
    assert BOOTED.consumed + [] == [];
    var s := BOOTED.(pc := Halted, slot := Some(Waker(0, 0)));
    assert Reachable(s) && Started(s.tasks, 0);
  }

  // -------- The task queue --------

  function Spawns(actions: seq<Action>): (r: nat) {
    if actions == [] then 0 else (if actions[0].Spawn? then 1 else 0) + Spawns(actions[1..])
  }

  function Wakeups(actions: seq<Action>): (r: nat) {
    if actions == [] then 0 else (if actions[0].Wake? then 1 else 0) + Wakeups(actions[1..])
  }

  function KeyPresses(actions: seq<Action>): (r: nat) {
    if actions == [] then 0 else (if actions[0].KeyPress? then 1 else 0) + KeyPresses(actions[1..])
  }

  // What can push an ID, counted.
  predicate Pushes(action: Action) {
    action.Spawn? || action.Wake? || action.KeyPress?
  }

  // With so many spawns and so many pushes behind it: an ID in the queue, in work or registered to come
  // back was pushed, and before `run` only `spawn` pushes.
  ghost predicate Budget(s: State, spawns: nat, pushes: nat) {
    && (s.fault == NoFault ==>
        && |s.taskQueue| + (if s.slot.Some? || Current(s.pc).Some? then 1 else 0) <= pushes
        && (s.pc.Setup? ==> |s.taskQueue| <= spawns && s.slot.None? && s.scancodes.None?))
    && (s.fault == TaskQueueFull ==> spawns > QUEUE_CAPACITY || pushes > QUEUE_CAPACITY + 1)
  }

  lemma ExecKeepsBudget(s: State, spawns: nat, pushes: nat)
    requires Budget(s, spawns, pushes) && s.fault == NoFault && CanExec(s)
    ensures Budget(ExecStep(s), spawns, pushes)
  {
  }

  lemma NextKeepsBudget(s: State, action: Action, spawns: nat, pushes: nat)
    requires Budget(s, spawns, pushes) && Next(s, action).Some?
    ensures Budget(Next(s, action).value, spawns + (if action.Spawn? then 1 else 0),
                   pushes + (if Pushes(action) then 1 else 0))
  {
    hide ExecStep;
    if action.Exec? {
      ExecKeepsBudget(s, spawns, pushes);
    }
  }

  lemma {:induction false} RunKeepsBudget(s: State, actions: seq<Action>, spawns: nat, pushes: nat)
    requires Budget(s, spawns, pushes) && Run(s, actions).Some?
    ensures Budget(Run(s, actions).value, spawns + Spawns(actions),
                   pushes + Spawns(actions) + Wakeups(actions) + KeyPresses(actions))
    decreases |actions|
  {
    hide Budget, Next;
    if actions == [] {
    } else {
      NextKeepsBudget(s, actions[0], spawns, pushes);
      RunKeepsBudget(Next(s, actions[0]).value, actions[1..], spawns + (if actions[0].Spawn? then 1 else 0),
                     pushes + (if Pushes(actions[0]) then 1 else 0));
    }
  }

  /** The queue-full panic takes more than 100 spawned tasks, or more than 101 pushes in all. So with one
      keyboard task and no other, fewer than 101 key presses never panic the kernel, whenever they come. */
  lemma QueueFullNeedsPushes(actions: seq<Action>)
    requires Run(INITIAL, actions).Some? && Run(INITIAL, actions).value.fault == TaskQueueFull
    ensures Spawns(actions) > QUEUE_CAPACITY
            || Spawns(actions) + Wakeups(actions) + KeyPresses(actions) > QUEUE_CAPACITY + 1
  {
    RunKeepsBudget(INITIAL, actions, 0, 0);
  }

  // Since a halt, with so many pushes: either the budget holds, or nothing has been popped yet and what is
  // queued or registered is one ID at most.
  ghost predicate SinceHalt(s: State, pushes: nat) {
    || Budget(s, 0, pushes)
    || (s.fault == NoFault && Current(s.pc).None? && |s.taskQueue| + Slots(s) <= 1 && |s.taskQueue| <= pushes)
  }

  lemma NextKeepsSinceHalt(s: State, action: Action, pushes: nat)
    requires SinceHalt(s, pushes) && Next(s, action).Some? && !s.pc.Setup?
    ensures SinceHalt(Next(s, action).value, pushes + (if Pushes(action) then 1 else 0))
    ensures !Next(s, action).value.pc.Setup? && !action.Spawn?
  {
    hide ExecStep, Budget;
    ExecNeverSetsUp(s);
    if Budget(s, 0, pushes) {
      NextKeepsBudget(s, action, 0, pushes);
    } else {
      BudgetFromPop(s, action, pushes);
    }
  }

  // The first pop since the halt starts the budget.
  lemma BudgetFromPop(s: State, action: Action, pushes: nat)
    requires s.fault == NoFault && Current(s.pc).None? && |s.taskQueue| + Slots(s) <= 1 && |s.taskQueue| <= pushes
    requires Next(s, action).Some? && !s.pc.Setup?
    ensures SinceHalt(Next(s, action).value, pushes + (if Pushes(action) then 1 else 0))
  {
    hide ExecPollNext, ExecResume;
  }

  lemma {:induction false} RunKeepsSinceHalt(s: State, actions: seq<Action>, pushes: nat)
    requires SinceHalt(s, pushes) && Run(s, actions).Some? && !s.pc.Setup?
    ensures SinceHalt(Run(s, actions).value, pushes + Wakeups(actions) + KeyPresses(actions))
    decreases |actions|
  {
    hide SinceHalt, Next;
    if actions == [] {
    } else {
      NextKeepsSinceHalt(s, actions[0], pushes);
      RunKeepsSinceHalt(Next(s, actions[0]).value, actions[1..], pushes + (if Pushes(actions[0]) then 1 else 0));
    }
  }

  /** And again from every halt: however long the kernel has been running, the panic takes more than 101
      wake-ups and key presses since it last slept. */
  lemma QueueFullNeedsPushesSinceHalt(s: State, actions: seq<Action>)
    requires Reachable(s) && s.fault == NoFault && s.pc.Halted?
    requires Run(s, actions).Some? && Run(s, actions).value.fault == TaskQueueFull
    ensures Wakeups(actions) + KeyPresses(actions) > QUEUE_CAPACITY + 1
  {
    HaltIsSound(s);
    RunKeepsSinceHalt(s, actions, 0);
  }

  // -------- 101 key presses suffice --------

  // A key pressed between registering and the second pop leaves the task's ID behind in the queue.
  function Cycle(code: byte): (actions: seq<Action>)
    ensures |actions| == 6
  {
    [Exec, KeyPress(code)] + ([Exec, Exec] + [Exec, Exec])
  }

  // The keyboard task k about to register, with nothing to read.
  predicate AboutToRegister(s: State, k: TaskId) {
    && s.fault == NoFault && s.enabled && s.pc == Register(k) && s.scancodes == Some([])
    && k in s.wakerCache && s.wakerCache[k].id == k
  }

  function AfterCycle(s: State, k: TaskId, code: byte): (s': State) {
    s.(slot := None, taskQueue := s.taskQueue + [k], accepted := s.accepted + [code],
       consumed := s.consumed + [code])
  }

  lemma OneCycle(s: State, k: TaskId, code: byte)
    requires AboutToRegister(s, k) && |s.taskQueue| < QUEUE_CAPACITY
    ensures Run(s, Cycle(code)) == Some(AfterCycle(s, k, code))
    ensures AboutToRegister(AfterCycle(s, k, code), k)
  {
    hide Run;
    var s1 := s.(slot := Some(s.wakerCache[k]), pc := SecondPop(k));
    var s2 := s1.(slot := None, taskQueue := s.taskQueue + [k], scancodes := Some([code]),
                  accepted := s.accepted + [code]);
    assert Next(s, Exec) == Some(s1);
    PressAtSecondPop(s1, k, code);
    RunTwo(s, s1, s2, Exec, KeyPress(code));
    ReadBack(s2, k, code);
    RunConcat(s, [Exec, KeyPress(code)], [Exec, Exec] + [Exec, Exec]);
  }

  lemma PressAtSecondPop(s: State, k: TaskId, code: byte)
    requires s.fault == NoFault && s.enabled && s.pc == SecondPop(k) && s.scancodes == Some([])
    requires s.slot.Some? && s.slot.value.id == k && |s.taskQueue| < QUEUE_CAPACITY
    ensures Next(s, KeyPress(code)) ==
            Some(s.(slot := None, taskQueue := s.taskQueue + [k], scancodes := Some([code]),
                    accepted := s.accepted + [code]))
  {
    assert [] + [code] == [code];
  }

  lemma ReadBack(s: State, k: TaskId, code: byte)
    requires s.fault == NoFault && s.pc == SecondPop(k) && s.scancodes == Some([code])
    ensures Run(s, [Exec, Exec] + [Exec, Exec]) ==
            Some(s.(pc := Register(k), slot := None, scancodes := Some([]), consumed := s.consumed + [code]))
  {
    hide Run;
    var s1 := s.(pc := TakeWaker(k, code), scancodes := Some([]));
    var s2 := s1.(pc := Deliver(k, code), slot := None);
    var s3 := s2.(pc := FastPop(k), consumed := s.consumed + [code]);
    assert [code][1..] == [];
    assert Next(s, Exec) == Some(s1);
    assert Next(s1, Exec) == Some(s2);
    RunTwo(s, s1, s2, Exec, Exec);
    assert Next(s2, Exec) == Some(s3);
    assert Next(s3, Exec) == Some(s3.(pc := Register(k)));
    RunTwo(s2, s3, s3.(pc := Register(k)), Exec, Exec);
    RunConcat(s, [Exec, Exec], [Exec, Exec]);
  }

  function Cycles(n: nat, code: byte): (actions: seq<Action>) {
    if n == 0 then [] else Cycle(code) + Cycles(n - 1, code)
  }

  lemma {:induction false} CyclesFillQueue(s: State, k: TaskId, n: nat, code: byte)
    requires AboutToRegister(s, k) && |s.taskQueue| + n <= QUEUE_CAPACITY
    ensures Run(s, Cycles(n, code)).Some?
    ensures var s' := Run(s, Cycles(n, code)).value;
            AboutToRegister(s', k) && |s'.taskQueue| == |s.taskQueue| + n
    decreases n
  {
    hide Next, AboutToRegister;
    if n == 0 {
    } else {
      OneCycle(s, k, code);
      RunConcat(s, Cycle(code), Cycles(n - 1, code));
      CyclesFillQueue(AfterCycle(s, k, code), k, n - 1, code);
    }
  }

  lemma {:induction false} CountConcat(a: seq<Action>, b: seq<Action>)
    ensures Spawns(a + b) == Spawns(a) + Spawns(b)
    ensures Wakeups(a + b) == Wakeups(a) + Wakeups(b)
    ensures KeyPresses(a + b) == KeyPresses(a) + KeyPresses(b)
  {
    if a == [] {
      assert a + b == b;
    } else {
      assert (a + b)[1..] == a[1..] + b;
      CountConcat(a[1..], b);
    }
  }

  lemma CountCycle(code: byte)
    ensures Spawns(Cycle(code)) == 0 && Wakeups(Cycle(code)) == 0 && KeyPresses(Cycle(code)) == 1
  {
    CountConcat([Exec, KeyPress(code)], [Exec, Exec] + [Exec, Exec]);
    CountConcat([Exec, Exec], [Exec, Exec]);
    CountFew(code);
  }

  lemma {:induction false} CountCycles(n: nat, code: byte)
    ensures Spawns(Cycles(n, code)) == 0 && Wakeups(Cycles(n, code)) == 0 && KeyPresses(Cycles(n, code)) == n
  {
    if n == 0 {
    } else {
      CountCycle(code);
      CountCycles(n - 1, code);
      CountConcat(Cycle(code), Cycles(n - 1, code));
    }
  }

  lemma CountBoot()
    ensures Spawns(BOOT) == 1 && Wakeups(BOOT) == 0 && KeyPresses(BOOT) == 0
  {
    assert BOOT == [CreateTask(Keyboard(false)), Action.Spawn(0)] + ([BeginRun, Exec] + [Exec, Exec]);
    CountConcat([CreateTask(Keyboard(false)), Action.Spawn(0)], [BeginRun, Exec] + [Exec, Exec]);
    CountConcat([BeginRun, Exec], [Exec, Exec]);
    assert [CreateTask(Keyboard(false)), Action.Spawn(0)][1..] == [Action.Spawn(0)];
    assert [BeginRun, Exec][1..] == [Exec] && [Exec, Exec][1..] == [Exec];
  }

  // The press that finds the queue full.
  lemma LastPress(s: State, k: TaskId, code: byte)
    requires AboutToRegister(s, k) && |s.taskQueue| == QUEUE_CAPACITY
    ensures Run(s, [Exec, KeyPress(code)]).Some?
    ensures Run(s, [Exec, KeyPress(code)]).value.fault == TaskQueueFull
  {
    hide Run;
    var s1 := s.(slot := Some(s.wakerCache[k]), pc := SecondPop(k));
    assert Next(s, Exec) == Some(s1);
    RunTwo(s, s1, Next(s1, KeyPress(code)).value, Exec, KeyPress(code));
  }

  // Start, let the keyboard task find nothing, then press a key each time it has just registered.
  function Overflow(code: byte): (actions: seq<Action>) {
    BOOT + ([Exec] + (Cycles(QUEUE_CAPACITY, code) + [Exec, KeyPress(code)]))
  }

  /** And 101 key presses do panic it: with a single keyboard task, a key pressed each time the task has
      just registered leaves one stale ID behind, until the handler finds the queue full. */
  lemma KeyPressesFillTaskQueue(code: byte)
    ensures Run(INITIAL, Overflow(code)).Some? && Run(INITIAL, Overflow(code)).value.fault == TaskQueueFull
    ensures Spawns(Overflow(code)) == 1 && Wakeups(Overflow(code)) == 0
    ensures KeyPresses(Overflow(code)) == QUEUE_CAPACITY + 1
  {
    hide Run, Cycles, Next;
    OverflowPanics(code);
    CountOverflow(code);
  }

  lemma OverflowPanics(code: byte)
    ensures Run(INITIAL, Overflow(code)).Some? && Run(INITIAL, Overflow(code)).value.fault == TaskQueueFull
  {
    hide Run, Cycles;
    var s := BOOTED.(pc := Register(0));
    Boot();
    assert Next(BOOTED, Exec) == Some(s);
    RunOne(BOOTED, Exec);
    CyclesFillQueue(s, 0, QUEUE_CAPACITY, code);
    var s' := Run(s, Cycles(QUEUE_CAPACITY, code)).value;
    LastPress(s', 0, code);
    RunConcat(s, Cycles(QUEUE_CAPACITY, code), [Exec, KeyPress(code)]);
    RunConcat(BOOTED, [Exec], Cycles(QUEUE_CAPACITY, code) + [Exec, KeyPress(code)]);
    RunConcat(INITIAL, BOOT, [Exec] + (Cycles(QUEUE_CAPACITY, code) + [Exec, KeyPress(code)]));
  }

  // Wake the keyboard task, let it read the key and come to register, then as above.
  function OverflowSinceHalt(code: byte): (actions: seq<Action>) {
    Presses([code]) + (Execs(6) + (Cycles(QUEUE_CAPACITY, code) + [Exec, KeyPress(code)]))
  }

  // From the key press that ends a halt to the next registration.
  lemma HaltToRegister(s: State, k: TaskId, code: byte) returns (s': State)
    requires Reachable(s) && s.fault == NoFault && s.pc.Halted? && Started(s.tasks, k)
    ensures Run(s, Presses([code])).Some? && Run(Run(s, Presses([code])).value, Execs(6)) == Some(s')
    ensures AboutToRegister(s', k) && s'.taskQueue == []
  {
    hide Run, Reachable;
    var s1 := BurstDuringHalt(s, k, [code]);
    HaltIsRegistered(s, k);
    CachedUnderItsId(s, k);
    WakeToPoll(s1, k, 6);
    var s2 := s1.(pc := FastPop(k), taskQueue := []);
    LoopDrainsQueue(s2);
    var s3 := Run(s2, Execs(2)).value;
    assert Execs(3) == Execs(2) + [Exec];
    RunConcat(s2, Execs(2), [Exec]);
    RunOne(s3, Exec);
    s' := s3.(pc := Register(k));
    assert Next(s3, Exec) == Some(s');
  }

  lemma CachedUnderItsId(s: State, k: TaskId)
    requires Reachable(s) && s.fault == NoFault && k in s.wakerCache
    ensures s.wakerCache[k].id == k
  {
    ReachableIsSafe(s);
  }

  /** From every halt with a keyboard task, 102 key presses can reach the panic: that bound is tight too. */
  lemma KeyPressesFillTaskQueueSinceHalt(s: State, k: TaskId, code: byte)
    requires Reachable(s) && s.fault == NoFault && s.pc.Halted? && Started(s.tasks, k)
    ensures var r := Run(s, OverflowSinceHalt(code)); r.Some? && r.value.fault == TaskQueueFull
    ensures Wakeups(OverflowSinceHalt(code)) == 0 && KeyPresses(OverflowSinceHalt(code)) == QUEUE_CAPACITY + 2
  {
    hide Run, Next, Cycles, Reachable, AboutToRegister, Spawns, Wakeups, KeyPresses;
    var s2 := HaltToRegister(s, k, code);
    var s1 := Run(s, Presses([code])).value;
    CyclesFillQueue(s2, k, QUEUE_CAPACITY, code);
    var fill, last := Cycles(QUEUE_CAPACITY, code), [Exec, KeyPress(code)];
    LastPress(Run(s2, fill).value, k, code);
    RunConcat(s2, fill, last);
    RunConcat(s1, Execs(6), fill + last);
    RunConcat(s, Presses([code]), Execs(6) + (fill + last));
    CountSinceHalt(code);
  }

  lemma CountSinceHalt(code: byte)
    ensures Wakeups(OverflowSinceHalt(code)) == 0 && KeyPresses(OverflowSinceHalt(code)) == QUEUE_CAPACITY + 2
  {
    hide Cycles, Spawns, Wakeups, KeyPresses;
    var fill, last := Cycles(QUEUE_CAPACITY, code), [Exec, KeyPress(code)];
    CountCycles(QUEUE_CAPACITY, code);
    CountFew(code);
    CountExecs(6);
    CountConcat(fill, last);
    CountConcat(Execs(6), fill + last);
    assert last == [Exec] + Presses([code]);
    CountConcat([Exec], Presses([code]));
    CountConcat(Presses([code]), Execs(6) + (fill + last));
  }

  lemma {:induction false} CountExecs(n: nat)
    ensures Spawns(Execs(n)) == Wakeups(Execs(n)) == KeyPresses(Execs(n)) == 0
  {
    if n == 0 {
    } else {
      assert Execs(n)[1..] == Execs(n - 1);
      CountExecs(n - 1);
    }
  }

  lemma CountOverflow(code: byte)
    ensures Spawns(Overflow(code)) == 1 && Wakeups(Overflow(code)) == 0
    ensures KeyPresses(Overflow(code)) == QUEUE_CAPACITY + 1
  {
    hide Cycles, Spawns, Wakeups, KeyPresses;
    CountBoot();
    CountCycles(QUEUE_CAPACITY, code);
    CountConcat(BOOT, [Exec] + (Cycles(QUEUE_CAPACITY, code) + [Exec, KeyPress(code)]));
    CountConcat([Exec], Cycles(QUEUE_CAPACITY, code) + [Exec, KeyPress(code)]);
    CountConcat(Cycles(QUEUE_CAPACITY, code), [Exec, KeyPress(code)]);
    CountFew(code);
  }

  lemma CountFew(code: byte)
    ensures Spawns([Exec]) == Wakeups([Exec]) == KeyPresses([Exec]) == 0
    ensures Spawns([Exec, Exec]) == Wakeups([Exec, Exec]) == KeyPresses([Exec, Exec]) == 0
    ensures Spawns([Exec, KeyPress(code)]) == Wakeups([Exec, KeyPress(code)]) == 0
    ensures KeyPresses([Exec, KeyPress(code)]) == 1
  {
    assert [Exec, Exec][1..] == [Exec];
    assert [Exec, KeyPress(code)][1..] == [KeyPress(code)];
    assert [KeyPress(code)][1..] == [];
  }

  // -------- What two of the steps are for --------

  // `poll_next` without its second look at the queue; `sleep_if_idle` without `interrupts::disable`.
  datatype Weakening = NoSecondPop | NoMask

  function WeakNext(w: Weakening, s: State, action: Action): (r: Option<State>) {
    if s.fault == NoFault && action.Exec? && w.NoSecondPop? && s.pc.Register? then
      Some(ExecPollNext(s).(pc := Returned(s.pc.id, false)))
    else if s.fault == NoFault && action.Exec? && w.NoMask? && s.pc.Disable? then
      Some(s.(pc := Recheck))
    else Next(s, action)
  }

  function WeakRun(w: Weakening, s: State, actions: seq<Action>): (r: Option<State>)
    decreases |actions|
  {
    if actions == [] then Some(s) else
    match WeakNext(w, s, actions[0])
    case None => None
    case Some(s') => WeakRun(w, s', actions[1..])
  }

  lemma WeakStep(w: Weakening, s: State, s': State, action: Action, rest: seq<Action>)
    requires WeakNext(w, s, action) == Some(s')
    ensures WeakRun(w, s, [action] + rest) == WeakRun(w, s', rest)
  {
    assert ([action] + rest)[1..] == rest;
  }

  // Starting up does not use what was left out.
  lemma {:induction false} WeakBootFrom(w: Weakening, i: nat, rest: seq<Action>)
    requires i <= |BOOT|
    ensures WeakRun(w, BootState(i), BOOT[i..] + rest) == WeakRun(w, BOOTED, rest)
    decreases |BOOT| - i
  {
    hide Next, WeakRun;
    if i == |BOOT| {
      assert BOOT[i..] + rest == rest;
    } else {
      BootStep(i);
      assert BOOT[i..] + rest == [BOOT[i]] + (BOOT[i + 1..] + rest);
      WeakStep(w, BootState(i), BootState(i + 1), BOOT[i], BOOT[i + 1..] + rest);
      WeakBootFrom(w, i + 1, rest);
    }
  }

  lemma WeakBoot(w: Weakening, rest: seq<Action>)
    ensures WeakRun(w, INITIAL, BOOT + rest) == WeakRun(w, BOOTED, rest)
  {
    hide WeakRun;
    WeakBootFrom(w, 0, rest);
    assert BOOT[0..] + rest == BOOT + rest;
  }

  lemma WeakExec(w: Weakening, s: State, s': State, n: nat, rest: seq<Action>)
    requires n > 0 && WeakNext(w, s, Exec) == Some(s')
    ensures WeakRun(w, s, Execs(n) + rest) == WeakRun(w, s', Execs(n - 1) + rest)
  {
    hide WeakRun, WeakNext;
    assert Execs(n) + rest == [Exec] + (Execs(n - 1) + rest);
    WeakStep(w, s, s', Exec, Execs(n - 1) + rest);
  }

  // From the end of a poll to `interrupts::disable`.
  lemma WeakToDisable(w: Weakening, s: State, n: nat, rest: seq<Action>)
    requires s.fault == NoFault && s.pc == Returned(0, false) && s.taskQueue == [] && n >= 3
    ensures WeakRun(w, s, Execs(n) + rest) == WeakRun(w, s.(pc := Disable), Execs(n - 3) + rest)
  {
    hide WeakRun;
    WeakExec(w, s, s.(pc := LoopHead), n, rest);
    WeakExec(w, s.(pc := LoopHead), s.(pc := CheckIdle), n - 1, rest);
    WeakExec(w, s.(pc := CheckIdle), s.(pc := Disable), n - 2, rest);
  }

  // From there to `hlt`, with the mask.
  lemma MaskedHalt(s: State)
    requires s.fault == NoFault && s.pc == Disable && s.taskQueue == [] && s.enabled
    ensures WeakRun(NoSecondPop, s, Execs(3) + []) == Some(s.(pc := Halted))
  {
    hide WeakRun;
    var masked := s.(pc := Recheck, enabled := false);
    WeakExec(NoSecondPop, s, masked, 3, []);
    WeakExec(NoSecondPop, masked, masked.(pc := EnableAndHalt), 2, []);
    WeakExec(NoSecondPop, masked.(pc := EnableAndHalt), s.(pc := Halted), 1, []);
    WeakNothing(NoSecondPop, s.(pc := Halted));
  }

  lemma WeakNothing(w: Weakening, s: State)
    ensures WeakRun(w, s, Execs(0) + []) == Some(s)
  {
  }

  /** Without the second pop a wake-up is lost: a key pressed before the waker is registered stays in the
      queue while the kernel halts, its keyboard task neither queued nor told. */
  lemma SecondPopIsNeeded(code: byte)
    ensures var r := WeakRun(NoSecondPop, INITIAL, BOOT + ([Exec] + ([KeyPress(code)] + Execs(7))));
            && r.Some? && r.value.fault == NoFault && r.value.pc.Halted? && Started(r.value.tasks, 0)
            && r.value.taskQueue == [] && r.value.scancodes == Some([code])
            && r.value.accepted == [code] && r.value.consumed == []
  {
    hide WeakRun;
    var w := NoSecondPop;
    var s := BOOTED.(pc := Register(0));
    var s1 := s.(scancodes := Some([code]), accepted := [code]);
    WeakBoot(w, [Exec] + ([KeyPress(code)] + Execs(7)));
    WeakStep(w, BOOTED, s, Exec, [KeyPress(code)] + Execs(7));
    assert [] + [code] == [code];
    WeakStep(w, s, s1, KeyPress(code), Execs(7));
    assert Execs(7) == Execs(7) + [];
    var s2 := s1.(slot := Some(Waker(0, 0)), pc := Returned(0, false));
    WeakExec(w, s1, s2, 7, []);
    WeakToDisable(w, s2, 6, []);
    MaskedHalt(s2.(pc := Disable));
  }

  // Without the mask: the first poll, and the way past the second look at the task queue.
  lemma UnmaskedIdle(rest: seq<Action>)
    ensures WeakRun(NoMask, BOOTED, Execs(8) + rest) ==
            WeakRun(NoMask, BOOTED.(pc := EnableAndHalt, slot := Some(Waker(0, 0))), rest)
  {
    hide WeakRun;
    var w := NoMask;
    var s := BOOTED.(pc := SecondPop(0), slot := Some(Waker(0, 0)));
    WeakExec(w, BOOTED, BOOTED.(pc := Register(0)), 8, rest);
    WeakExec(w, BOOTED.(pc := Register(0)), s, 7, rest);
    WeakExec(w, s, s.(pc := Returned(0, false)), 6, rest);
    WeakToDisable(w, s.(pc := Returned(0, false)), 5, rest);
    WeakExec(w, s.(pc := Disable), s.(pc := Recheck), 2, rest);
    WeakExec(w, s.(pc := Recheck), s.(pc := EnableAndHalt), 1, rest);
    assert Execs(0) + rest == rest;
  }

  /** Without the mask the kernel can halt with work to do: a key pressed between the second look at the
      task queue and `hlt` leaves the keyboard task queued while the CPU sleeps. */
  lemma MaskIsNeeded(code: byte)
    ensures var r := WeakRun(NoMask, INITIAL, BOOT + (Execs(8) + ([KeyPress(code)] + Execs(1))));
            && r.Some? && r.value.fault == NoFault && r.value.pc.Halted? && Started(r.value.tasks, 0)
            && r.value.taskQueue == [0] && r.value.accepted == [code] && r.value.consumed == []
  {
    hide WeakRun;
    var w := NoMask;
    var s := BOOTED.(pc := EnableAndHalt, slot := Some(Waker(0, 0)));
    var s1 := s.(slot := None, taskQueue := [0], scancodes := Some([code]), accepted := [code]);
    WeakBoot(w, Execs(8) + ([KeyPress(code)] + Execs(1)));
    UnmaskedIdle([KeyPress(code)] + Execs(1));
    assert [] + [code] == [code] && [] + [0] == [0];
    WeakStep(w, s, s1, KeyPress(code), Execs(1));
    assert Execs(1) == Execs(1) + [];
    WeakExec(w, s1, s1.(pc := Halted), 1, []);
    WeakNothing(w, s1.(pc := Halted));
  }
}
