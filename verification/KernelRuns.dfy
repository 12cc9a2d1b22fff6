/** Properties of whole runs of the kernel machine: bursts of interrupts, the order in which woken
    tasks are polled, the way from one halt to the next, and the wrap-around of task IDs. */
module KernelRuns {
  import opened Alignment
  import opened ByteMemory
  import opened Layouts
  import opened KernelMachine
  import opened KernelSafety

  lemma {:induction false} RunConcat(s: State, a: seq<Action>, b: seq<Action>)
    requires Run(s, a).Some?
    ensures Run(s, a + b) == Run(Run(s, a).value, b)
    decreases |a|
  {
    if a == [] {
      assert a + b == b;
    } else {
      assert (a + b)[1..] == a[1..] + b;
      RunConcat(Next(s, a[0]).value, a[1..], b);
    }
  }

  function Presses(codes: seq<byte>): (actions: seq<Action>)
    ensures |actions| == |codes|
  {
    seq(|codes|, i requires 0 <= i < |codes| => KeyPress(codes[i]))
  }

  function Execs(n: nat): (actions: seq<Action>)
    ensures |actions| == n
  {
    seq(n, _ => Exec)
  }

  // -------- Bursts --------

  // A key press that queues a task.
  predicate Wakes(s: State, action: Action) {
    action.KeyPress? && Next(s, action).Some? && |s.taskQueue| < |Next(s, action).value.taskQueue|
  }

  // How many key presses of a run queue a task.
  function WakeCount(s: State, actions: seq<Action>): (r: nat)
    requires Run(s, actions).Some?
    decreases |actions|
  {
    if actions == [] then 0
    else (if Wakes(s, actions[0]) then 1 else 0) + WakeCount(Next(s, actions[0]).value, actions[1..])
  }

  // No waker is registered, or none is taken back, during a run.
  predicate NeverAt(s: State, actions: seq<Action>, at: Pc -> bool)
    requires Run(s, actions).Some?
    decreases |actions|
  {
    actions == [] ||
    (!(actions[0].Exec? && at(s.pc)) && NeverAt(Next(s, actions[0]).value, actions[1..], at))
  }

  predicate Registering(pc: Pc) {
    pc.Register?
  }

  predicate Withdrawing(pc: Pc) {
    pc.TakeWaker?
  }

  function Slots(s: State): (r: nat) {
    if s.slot.Some? then 1 else 0
  }

  // One step: a wake-up uses up the registered waker, and only registering brings one back.
  lemma WakeEmptiesSlot(s: State, action: Action)
    requires Next(s, action).Some? && !(action.Exec? && s.pc.Register?)
    ensures var s' := Next(s, action).value;
            && Slots(s') + (if Wakes(s, action) then 1 else 0) <= Slots(s)
            && (Wakes(s, action) ==> s'.taskQueue == s.taskQueue + [s.slot.value.id])
  {
    hide ExecLoop, ExecResume, ExecReturned, ExecSleep;
    ExecOnlyRegisters(s);
  }

  // Of the kernel's own steps only two touch the slot, and none accepts a scancode.
  lemma ExecOnlyRegisters(s: State)
    ensures CanExec(s) && !s.pc.Register? && !s.pc.TakeWaker? ==> ExecStep(s).slot == s.slot
    ensures s.pc.TakeWaker? && s.scancodes.Some? ==> ExecStep(s).slot.None?
    ensures CanExec(s) ==> ExecStep(s).accepted == s.accepted && s.consumed <= ExecStep(s).consumed
  {
  }

  // Setting up is over once `run` has begun.
  lemma ExecNeverSetsUp(s: State)
    ensures CanExec(s) ==> !ExecStep(s).pc.Setup?
  {
  }

  /** While the keyboard task does not register again, whatever else happens, its key presses queue at most
      one entry, and none if no waker is registered. */
  lemma {:induction false} BurstWakesOnce(s: State, actions: seq<Action>)
    requires Run(s, actions).Some? && NeverAt(s, actions, Registering)
    ensures WakeCount(s, actions) <= Slots(s)
    decreases |actions|
  {
    if actions == [] {
    } else {
      WakeEmptiesSlot(s, actions[0]);
      BurstWakesOnce(Next(s, actions[0]).value, actions[1..]);
    }
  }

  // One step between polls: the registered waker stays, unless a scancode is accepted and it wakes.
  lemma WakesExactly(s: State, action: Action)
    requires Next(s, action).Some? && Next(s, action).value.fault == NoFault
    requires !(action.Exec? && (s.pc.Register? || s.pc.TakeWaker?))
    ensures var s' := Next(s, action).value;
            && s.accepted <= s'.accepted
            && (Wakes(s, action) <==> s.slot.Some? && s'.accepted != s.accepted)
            && s'.slot == (if s'.accepted != s.accepted then None else s.slot)
  {
    hide ExecStep, AddScancode;
    if action.KeyPress? {
      PressWakesExactly(ResumeAfterHalt(s), action.code);
    }
    ExecOnlyRegisters(s);
  }

  lemma PressWakesExactly(s: State, code: byte)
    requires s.fault == NoFault && AddScancode(s, code).fault == NoFault
    ensures var s' := AddScancode(s, code);
            && s.accepted <= s'.accepted
            && (|s.taskQueue| < |s'.taskQueue| <==> s.slot.Some? && s'.accepted != s.accepted)
            && s'.slot == (if s'.accepted != s.accepted then None else s.slot)
  {
  }

  /** And the entry is there exactly when a waker was registered and some scancode was accepted. */
  lemma {:induction false} BurstWakesExactly(s: State, actions: seq<Action>)
    requires Run(s, actions).Some? && Run(s, actions).value.fault == NoFault
    requires NeverAt(s, actions, Registering) && NeverAt(s, actions, Withdrawing)
    ensures var s' := Run(s, actions).value;
            && s.accepted <= s'.accepted
            && WakeCount(s, actions) == (if s.slot.Some? && s'.accepted != s.accepted then 1 else 0)
            && s'.slot == (if s'.accepted != s.accepted then None else s.slot)
    decreases |actions|
  {
    if actions == [] {
    } else {
      var s' := Next(s, actions[0]).value;
      FaultIsLast(s', actions[1..]);
      WakesExactly(s, actions[0]);
      BurstWakesExactly(s', actions[1..]);
    }
  }

  // A panic ends a run.
  lemma FaultIsLast(s: State, actions: seq<Action>)
    requires Run(s, actions).Some? && Run(s, actions).value.fault == NoFault
    ensures s.fault == NoFault
  {
  }

  // -------- First in, first out --------

  // The executor pops an ID in this step.
  predicate Pops(s: State, action: Action) {
    action.Exec? && s.fault == NoFault && s.pc.LoopHead? && s.taskQueue != []
  }

  // How many IDs a run pops.
  function PopCount(s: State, actions: seq<Action>): (r: nat)
    requires Run(s, actions).Some?
    decreases |actions|
  {
    if actions == [] then 0
    else (if Pops(s, actions[0]) then 1 else 0) + PopCount(Next(s, actions[0]).value, actions[1..])
  }

  lemma StepMovesQueue(s: State, action: Action)
    requires Next(s, action).Some?
    ensures var q, q' := s.taskQueue, Next(s, action).value.taskQueue;
            if Pops(s, action) then q' == q[1..] && Next(s, action).value.pc == Popped(q[0]) else q <= q'
  {
    hide ExecStep;
    if action.Exec? {
      ExecMovesQueue(s);
    }
  }

  // Of the kernel's own steps only the pop changes the task queue.
  lemma ExecMovesQueue(s: State)
    requires CanExec(s)
    ensures var s' := ExecStep(s);
            if s.pc.LoopHead? && s.taskQueue != [] then
              s'.taskQueue == s.taskQueue[1..] && s'.pc == Popped(s.taskQueue[0])
            else s'.taskQueue == s.taskQueue
  {
  }

  // The n-th action pops the ID, and is the (i+1)-st of the run that pops one.
  ghost predicate ServedAt(s: State, actions: seq<Action>, n: nat, i: nat, id: TaskId) {
    && n < |actions| && Run(s, actions[..n]).Some?
    && Pops(Run(s, actions[..n]).value, actions[n]) && PopCount(s, actions[..n]) == i
    && Run(s, actions[..n]).value.taskQueue[0] == id
  }

  lemma ServedLater(s: State, actions: seq<Action>, n: nat, i: nat, id: TaskId)
    requires actions != [] && Next(s, actions[0]).Some?
    requires ServedAt(Next(s, actions[0]).value, actions[1..], n, i, id)
    ensures ServedAt(s, actions, n + 1, if Pops(s, actions[0]) then i + 1 else i, id)
  {
    hide Next, Pops;
    assert actions[..n + 1][1..] == actions[1..][..n];
  }

  lemma ServedNow(s: State, actions: seq<Action>)
    requires actions != [] && Pops(s, actions[0])
    ensures ServedAt(s, actions, 0, 0, s.taskQueue[0])
  {
    assert actions[..0] == [];
  }

  /** Whatever else happens, the ID at position i of the queue moves forward by one for every ID that
      is popped and is the (i+1)-st to be popped: a wake-up stays queued until its turn, and wake-ups
      are served in the order they happened. */
  lemma {:induction false} WakeupsAreServedInOrder(s: State, actions: seq<Action>, i: nat)
    requires Run(s, actions).Some? && i < |s.taskQueue|
    ensures PopCount(s, actions) <= i ==>
      var q := Run(s, actions).value.taskQueue;
      i - PopCount(s, actions) < |q| && q[i - PopCount(s, actions)] == s.taskQueue[i]
    ensures PopCount(s, actions) > i ==> exists n: nat :: ServedAt(s, actions, n, i, s.taskQueue[i])
    decreases |actions|
  {
    hide Next, ServedAt;
    if actions == [] {
    } else {
      StepMovesQueue(s, actions[0]);
      if Pops(s, actions[0]) && i == 0 {
        ServedNow(s, actions);
      } else {
        var j := if Pops(s, actions[0]) then i - 1 else i;
        WakeupsAreServedInOrder(Next(s, actions[0]).value, actions[1..], j);
        if PopCount(s, actions) > i {
          var n: nat :| ServedAt(Next(s, actions[0]).value, actions[1..], n, j, s.taskQueue[i]);
          ServedLater(s, actions, n, j, s.taskQueue[i]);
        }
      }
    }
  }

  // -------- From halt to halt --------

  // With no waker registered, key presses only lengthen the scancode queue.
  lemma {:induction false} PressesFillQueue(s: State, codes: seq<byte>)
    requires s.fault == NoFault && s.enabled && s.slot.None? && s.pc != Halted
    requires s.scancodes.Some? && |s.scancodes.value| + |codes| <= QUEUE_CAPACITY
    ensures Run(s, Presses(codes)) ==
            Some(s.(scancodes := Some(s.scancodes.value + codes), accepted := s.accepted + codes))
    decreases |codes|
  {
    var q := s.scancodes.value;
    if codes == [] {
      assert q + codes == q && s.accepted + codes == s.accepted;
    } else {
      var s' := Next(s, KeyPress(codes[0])).value;
      assert Presses(codes)[1..] == Presses(codes[1..]);
      PressesFillQueue(s', codes[1..]);
      assert q + [codes[0]] + codes[1..] == q + codes;
      assert s.accepted + [codes[0]] + codes[1..] == s.accepted + codes;
    }
  }

  // The loop of `print_keypresses` consumes the queue in order.
  lemma {:induction false} LoopDrainsQueue(s: State)
    requires s.fault == NoFault && s.pc.FastPop? && s.scancodes.Some?
    ensures Run(s, Execs(2 * |s.scancodes.value|)) ==
            Some(s.(scancodes := Some([]), consumed := s.consumed + s.scancodes.value))
    decreases |s.scancodes.value|
  {
    var q := s.scancodes.value;
    if q == [] {
      assert s.consumed + q == s.consumed;
    } else {
      var s1 := Next(s, Exec).value;
      var s2 := Next(s1, Exec).value;
      assert Execs(2 * |q|)[1..] == Execs(2 * |q| - 1);
      assert Execs(2 * |q| - 1)[1..] == Execs(2 * |q[1..]|);
      LoopDrainsQueue(s2);
      assert s.consumed + [q[0]] + q[1..] == s.consumed + q;
    }
  }

  lemma PressesSplit(s: State, codes: seq<byte>)
    requires codes != [] && Next(s, KeyPress(codes[0])).Some?
    ensures Run(s, Presses(codes)) == Run(Next(s, KeyPress(codes[0])).value, Presses(codes[1..]))
  {
    assert Presses(codes)[1..] == Presses(codes[1..]);
  }

  // n kernel steps, one at a time.
  lemma ExecsSplit(s: State, n: nat)
    requires n > 0 && Next(s, Exec).Some?
    ensures Run(s, Execs(n)) == Run(Next(s, Exec).value, Execs(n - 1))
  {
    assert Execs(n)[1..] == Execs(n - 1);
  }

  // From the head of the loop with only the keyboard task queued to the first pop of `poll_next`.
  lemma WakeToPoll(s: State, k: TaskId, n: nat)
    requires s.fault == NoFault && s.pc.LoopHead? && s.taskQueue == [k]
    requires Started(s.tasks, k) && k in s.wakerCache && n >= 3
    ensures Run(s, Execs(n)) == Run(s.(pc := FastPop(k), taskQueue := []), Execs(n - 3))
  {
    var s1 := Next(s, Exec).value;
    var s2 := Next(s1, Exec).value;
    ExecsSplit(s, n);
    ExecsSplit(s1, n - 1);
    ExecsSplit(s2, n - 2);
    assert Next(s2, Exec).value == s.(pc := FastPop(k), taskQueue := []);
  }

  // From an empty scancode queue to the end of `run_ready_tasks`.
  lemma PollToIdle(s: State, k: TaskId, n: nat)
    requires s.fault == NoFault && s.pc == FastPop(k) && s.scancodes == Some([]) && s.taskQueue == []
    requires k in s.wakerCache && n >= 5
    ensures Run(s, Execs(n)) == Run(s.(pc := CheckIdle, slot := Some(s.wakerCache[k])), Execs(n - 5))
  {
    hide Run, Next;
    PollToPending(s, k, n);
    PendingToIdle(s.(pc := Returned(k, false), slot := Some(s.wakerCache[k])), k, n - 3);
  }

  lemma PollToPending(s: State, k: TaskId, n: nat)
    requires s.fault == NoFault && s.pc == FastPop(k) && s.scancodes == Some([])
    requires k in s.wakerCache && n >= 3
    ensures Run(s, Execs(n)) == Run(s.(pc := Returned(k, false), slot := Some(s.wakerCache[k])), Execs(n - 3))
  {
    hide Run;
    var s' := s.(slot := Some(s.wakerCache[k]));
    assert Next(s, Exec) == Some(s.(pc := Register(k)));
    ExecsSplit(s, n);
    assert Next(s.(pc := Register(k)), Exec) == Some(s'.(pc := SecondPop(k)));
    ExecsSplit(s.(pc := Register(k)), n - 1);
    assert Next(s'.(pc := SecondPop(k)), Exec) == Some(s'.(pc := Returned(k, false)));
    ExecsSplit(s'.(pc := SecondPop(k)), n - 2);
  }

  lemma PendingToIdle(s: State, k: TaskId, n: nat)
    requires s.fault == NoFault && s.pc == Returned(k, false) && s.taskQueue == [] && n >= 2
    ensures Run(s, Execs(n)) == Run(s.(pc := CheckIdle), Execs(n - 2))
  {
    hide Run;
    assert Next(s, Exec) == Some(s.(pc := LoopHead));
    ExecsSplit(s, n);
    assert Next(s.(pc := LoopHead), Exec) == Some(s.(pc := CheckIdle));
    ExecsSplit(s.(pc := LoopHead), n - 1);
  }

  // `sleep_if_idle` with nothing to do.
  lemma IdleToHalt(s: State)
    requires s.fault == NoFault && s.pc == CheckIdle && s.taskQueue == [] && s.enabled
    ensures Run(s, Execs(4)) == Some(s.(pc := Halted))
  {
    hide Run, Next;
    IdleToMasked(s, 4);
    MaskedToHalt(s.(pc := Recheck, enabled := false));
  }

  lemma MaskedToHalt(s: State)
    requires s.fault == NoFault && s.pc == Recheck && s.taskQueue == []
    ensures Run(s, Execs(2)) == Some(s.(pc := Halted, enabled := true))
  {
    hide Run;
    assert Next(s, Exec) == Some(s.(pc := EnableAndHalt));
    ExecsSplit(s, 2);
    assert Next(s.(pc := EnableAndHalt), Exec) == Some(s.(pc := Halted, enabled := true));
    ExecsSplit(s.(pc := EnableAndHalt), 1);
    RunNothing(s.(pc := Halted, enabled := true));
  }

  lemma RunNothing(s: State)
    ensures Run(s, Execs(0)) == Some(s)
  {
  }

  lemma IdleToMasked(s: State, n: nat)
    requires s.fault == NoFault && s.pc == CheckIdle && s.taskQueue == [] && n >= 2
    ensures Run(s, Execs(n)) == Run(s.(pc := Recheck, enabled := false), Execs(n - 2))
  {
    hide Run;
    assert Next(s, Exec) == Some(s.(pc := Disable));
    ExecsSplit(s, n);
    assert Next(s.(pc := Disable), Exec) == Some(s.(pc := Recheck, enabled := false));
    ExecsSplit(s.(pc := Disable), n - 1);
  }

  // The first accepted key press of a halt.
  lemma FirstPress(s: State, k: TaskId, code: byte)
    requires Reachable(s) && s.fault == NoFault && s.pc.Halted? && Started(s.tasks, k)
    ensures Next(s, KeyPress(code)) ==
            Some(s.(pc := LoopHead, slot := None, taskQueue := [k], scancodes := Some([code]),
                    accepted := s.accepted + [code]))
  {
    HaltIsSound(s);
    ReachableIsSafe(s);
    assert NotLost(s, k);
    assert s.taskQueue + [k] == [k];
    assert [] + [code] == [code];
  }

  /** From halt to halt. When up to 100 key presses arrive during a halt, the kernel, left alone, takes
      12 steps and two for every key, has consumed exactly those keys in order, and is back in the very
      state it halted in: same tasks, same registered waker, nothing queued. */
  lemma HaltRoundTrip(s: State, k: TaskId, codes: seq<byte>)
    requires Reachable(s) && s.fault == NoFault && s.pc.Halted? && Started(s.tasks, k)
    requires 1 <= |codes| <= QUEUE_CAPACITY
    ensures Run(s, Presses(codes) + Execs(12 + 2 * |codes|)) ==
            Some(s.(accepted := s.accepted + codes, consumed := s.consumed + codes))
  {
    hide Next;
    var n := 2 * |codes|;
    var s1 := BurstDuringHalt(s, k, codes);
    RunConcat(s, Presses(codes), Execs(12 + n));
    HaltIsRegistered(s, k);
    WakeToPoll(s1, k, 12 + n);
    PollRoundTrip(s1.(pc := FastPop(k), taskQueue := []), k);
    assert s.(accepted := s.accepted + codes, consumed := s.consumed + codes)
        == s1.(pc := Halted, taskQueue := [], scancodes := Some([]), slot := Some(s.wakerCache[k]),
               consumed := s.consumed + codes);
  }

  // A halted kernel with a keyboard task is registered, enabled and empty.
  lemma HaltIsRegistered(s: State, k: TaskId)
    requires Reachable(s) && s.fault == NoFault && s.pc.Halted? && Started(s.tasks, k)
    ensures s.taskQueue == [] && s.scancodes == Some([]) && s.enabled
    ensures k in s.wakerCache && s.slot == Some(s.wakerCache[k])
  {
    HaltIsSound(s);
    ReachableIsSafe(s);
    assert NotLost(s, k);
  }

  // One whole poll of the keyboard task, and the way to `hlt`.
  lemma PollRoundTrip(s: State, k: TaskId)
    requires s.fault == NoFault && s.pc == FastPop(k) && s.scancodes.Some? && s.taskQueue == []
    requires k in s.wakerCache && s.enabled
    ensures Run(s, Execs(9 + 2 * |s.scancodes.value|)) ==
            Some(s.(pc := Halted, slot := Some(s.wakerCache[k]), scancodes := Some([]),
                    consumed := s.consumed + s.scancodes.value))
  {
    hide Next;
    var n := 2 * |s.scancodes.value|;
    assert Execs(9 + n) == Execs(n) + Execs(9);
    LoopDrainsQueue(s);
    RunConcat(s, Execs(n), Execs(9));
    var drained := Run(s, Execs(n)).value;
    PollToIdle(drained, k, 9);
    IdleToHalt(drained.(pc := CheckIdle, slot := Some(s.wakerCache[k])));
  }

  lemma BurstDuringHalt(s: State, k: TaskId, codes: seq<byte>) returns (s1: State)
    requires Reachable(s) && s.fault == NoFault && s.pc.Halted? && Started(s.tasks, k)
    requires 1 <= |codes| <= QUEUE_CAPACITY
    ensures Run(s, Presses(codes)) == Some(s1)
    ensures s1 == s.(pc := LoopHead, slot := None, taskQueue := [k], scancodes := Some(codes),
                     accepted := s.accepted + codes)
  {
    hide Run, Next, Reachable;
    FirstPress(s, k, codes[0]);
    HaltIsRegistered(s, k);
    var s0 := Next(s, KeyPress(codes[0])).value;
    PressesSplit(s, codes);
    PressesFillQueue(s0, codes[1..]);
    assert [codes[0]] + codes[1..] == codes;
    assert s.accepted + [codes[0]] + codes[1..] == s.accepted + codes;
    s1 := Run(s0, Presses(codes[1..])).value;
  }

  // -------- The bound on task IDs is tight --------

  function Creates(n: nat): (actions: seq<Action>)
    ensures |actions| == n
  {
    seq(n, _ => CreateTask(Other))
  }

  lemma {:induction false} CreatesCountUp(s: State, n: nat)
    requires s.fault == NoFault && s.pc.Setup? && s.nextId < WORD_LIMIT
    ensures Run(s, Creates(n)).Some?
    ensures var s' := Run(s, Creates(n)).value;
            && s'.fault == NoFault && s'.pc == Setup && s'.tasks == s.tasks && s'.taskQueue == s.taskQueue
            && s'.created == s.created + n && s'.nextId == (s.nextId + n) % WORD_LIMIT
            && |s'.held| == |s.held| + n
            && (n > 0 ==> s'.held[|s'.held| - 1].id == (s.nextId + n - 1) % WORD_LIMIT)
  {
    hide Run;
    if n == 0 {
      RunNone(s);
    } else {
      CreatesCountUp(s, n - 1);
      var s1 := Run(s, Creates(n - 1)).value;
      assert Creates(n) == Creates(n - 1) + [CreateTask(Other)];
      RunConcat(s, Creates(n - 1), [CreateTask(Other)]);
      RunOne(s1, CreateTask(Other));
      WrapStep(s.nextId + n - 1);
    }
  }

  lemma WrapStep(a: nat)
    ensures (a % WORD_LIMIT + 1) % WORD_LIMIT == (a + 1) % WORD_LIMIT
  {
  }

  lemma RunNone(s: State)
    ensures Run(s, Creates(0)) == Some(s)
  {
  }

  lemma RunOne(s: State, action: Action)
    ensures Run(s, [action]) == Next(s, action)
  {
    assert [action][1..] == [];
  }

  /** One task more than 2^64 and the panic is real: the IDs have wrapped around, and spawning the last
      task finds the first one under its ID. */
  lemma DuplicateAfterWrapAround()
    ensures exists s :: Reachable(s) && s.created == WORD_LIMIT + 1 && s.fault == DuplicateTask
  {
    hide Run;
    var s1 := Next(INITIAL, CreateTask(Other)).value;
    var s2 := Next(s1, Spawn(0)).value;
    RunOne(INITIAL, CreateTask(Other));
    RunOne(s1, Spawn(0));
    RunConcat(INITIAL, [CreateTask(Other)], [Spawn(0)]);
    var start := [CreateTask(Other)] + [Spawn(0)];
    CreatesCountUp(s2, WORD_LIMIT);
    var s3 := Run(s2, Creates(WORD_LIMIT)).value;
    RunConcat(INITIAL, start, Creates(WORD_LIMIT));
    var last := Spawn(|s3.held| - 1);
    RunOne(s3, last);
    RunConcat(INITIAL, start + Creates(WORD_LIMIT), [last]);
    assert Reachable(Next(s3, last).value);
  }
}
