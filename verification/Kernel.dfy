/** The executor and the keyboard stream as code that updates state in place.

    Before each step that interrupts can precede, `Preempt` lets arrive what the environment has for that
    point: any number of key presses and timer ticks. What the other futures do when polled is a script
    as well. Both are arbitrary, and quiet once they are used up. Every method moves the ghost machine
    state `now` along a run of `KernelMachine` and keeps the fields equal to it, so everything proved of
    reachable states holds of the object between any two steps; and `Valid` says that the interrupts and
    the moves of that run are the given ones, each once and in order. */
module Kernel {
  import opened Alignment
  import opened ByteMemory
  import opened Layouts
  import opened KernelMachine
  import opened KernelSafety
  import KernelProgress
  import KernelRuns

  datatype Interrupt = Key(code: byte) | Timer

  // What another future does when polled: wake a waker, make a task, or return.
  datatype Move = Waking(id: TaskId) | Creating(keyboard: bool) | Returning(ready: bool)

  // -------- What a run has met --------

  function InterruptOf(action: Action): (r: seq<Interrupt>) {
    match action
    case KeyPress(code) => [Key(code)]
    case Tick => [Timer]
    case _ => []
  }

  // The interrupts of a run.
  function Came(actions: seq<Action>): (r: seq<Interrupt>) {
    if actions == [] then [] else InterruptOf(actions[0]) + Came(actions[1..])
  }

  function MoveOf(s: State, action: Action): (r: seq<Move>) {
    if !s.pc.OtherPoll? then [] else
    match action
    case Wake(id) => [Waking(id)]
    case CreateTask(future) => [Creating(future.Keyboard?)]
    case Return(ready) => [Returning(ready)]
    case _ => []
  }

  // The moves of the other futures in a run.
  function Moves(s: State, actions: seq<Action>): (r: seq<Move>)
    requires Run(s, actions).Some?
    decreases |actions|
  {
    if actions == [] then []
    else MoveOf(s, actions[0]) + Moves(Next(s, actions[0]).value, actions[1..])
  }

  // The interrupts of all points to come.
  function Flat(arrivals: seq<seq<Interrupt>>): (r: seq<Interrupt>) {
    if arrivals == [] then [] else arrivals[0] + Flat(arrivals[1..])
  }

  // The futures have done the script as far as it is not left over; behind its end they are pending.
  ghost predicate Played(done: seq<Move>, script: seq<Move>, left: seq<Move>) {
    || done + left == script
    || (left == [] && script <= done && forall i :: |script| <= i < |done| ==> done[i] == Returning(false))
  }

  lemma {:induction false} CameSnoc(actions: seq<Action>, action: Action)
    ensures Came(actions + [action]) == Came(actions) + InterruptOf(action)
  {
    if actions == [] {
      assert [action][1..] == [];
    } else {
      assert (actions + [action])[1..] == actions[1..] + [action];
      CameSnoc(actions[1..], action);
    }
  }

  lemma {:induction false} MovesSnoc(s: State, actions: seq<Action>, action: Action)
    requires Run(s, actions).Some? && Next(Run(s, actions).value, action).Some?
    ensures Run(s, actions + [action]).Some?
    ensures Moves(s, actions + [action]) == Moves(s, actions) + MoveOf(Run(s, actions).value, action)
    decreases |actions|
  {
    hide Next, MoveOf;
    if actions == [] {
      assert actions + [action] == [action] && [action][1..] == [];
    } else {
      assert (actions + [action])[1..] == actions[1..] + [action];
      MovesSnoc(Next(s, actions[0]).value, actions[1..], action);
    }
  }

  // Taking the first interrupt of the next point off.
  lemma FlatPop(arrivals: seq<seq<Interrupt>>)
    requires arrivals != [] && arrivals[0] != []
    ensures Flat(arrivals) == [arrivals[0][0]] + Flat(arrivals[0 := arrivals[0][1..]])
  {
    var rest := arrivals[0 := arrivals[0][1..]];
    assert rest[1..] == arrivals[1..];
    assert arrivals[0] == [arrivals[0][0]] + rest[0];
  }

  lemma FlatSkip(arrivals: seq<seq<Interrupt>>)
    requires arrivals != [] && arrivals[0] == []
    ensures Flat(arrivals) == Flat(arrivals[1..])
  {
  }

  lemma PlayedOne(done: seq<Move>, script: seq<Move>, left: seq<Move>)
    requires Played(done, script, left)
    ensures left != [] ==> Played(done + [left[0]], script, left[1..])
    ensures left == [] ==> Played(done + [Returning(false)], script, left)
  {
    if left != [] {
      assert done + [left[0]] + left[1..] == done + left;
    } else {
      assert done + left == done;
    }
  }

  // What interrupts leave alone.
  ghost predicate Interrupted(s: State, s': State) {
    && s'.pc == s.pc && s'.enabled == s.enabled && s'.tasks == s.tasks
    && (s.scancodes.Some? ==> s'.scancodes.Some?)
  }

  lemma RunSnoc(log: seq<Action>, action: Action)
    requires Run(INITIAL, log).Some?
    ensures Run(INITIAL, log + [action]) == Next(Run(INITIAL, log).value, action)
  {
    KernelRuns.RunConcat(INITIAL, log, [action]);
    KernelRuns.RunOne(Run(INITIAL, log).value, action);
  }

  // Along a run the accepted and the consumed scancodes only grow.
  lemma StepGrows(s: State, action: Action)
    requires Next(s, action).Some?
    ensures s.accepted <= Next(s, action).value.accepted && s.consumed <= Next(s, action).value.consumed
  {
    hide ExecStep, AddScancode;
    if action.KeyPress? && s.enabled && s.fault == NoFault {
      PressEffect(s, action.code);
    }
    KernelRuns.ExecOnlyRegisters(s);
  }

  lemma {:induction false} RunGrows(s: State, actions: seq<Action>)
    requires Run(s, actions).Some?
    ensures s.accepted <= Run(s, actions).value.accepted && s.consumed <= Run(s, actions).value.consumed
    decreases |actions|
  {
    hide Next;
    if actions == [] {
    } else {
      StepGrows(s, actions[0]);
      RunGrows(Next(s, actions[0]).value, actions[1..]);
    }
  }

  lemma LogGrows(before: seq<Action>, after: seq<Action>)
    requires before <= after && Run(INITIAL, before).Some? && Run(INITIAL, after).Some?
    ensures Run(INITIAL, before).value.accepted <= Run(INITIAL, after).value.accepted
    ensures Run(INITIAL, before).value.consumed <= Run(INITIAL, after).value.consumed
  {
    hide Run;
    assert after == before + after[|before|..];
    KernelRuns.RunConcat(INITIAL, before, after[|before|..]);
    RunGrows(Run(INITIAL, before).value, after[|before|..]);
  }

  // Once the task queue is found empty, whatever was queued before has been polled.
  lemma LogPolls(before: seq<Action>, after: seq<Action>)
    requires before <= after && Run(INITIAL, before).Some? && Run(INITIAL, after).Some?
    requires Run(INITIAL, after).value.taskQueue == [] && Current(Run(INITIAL, after).value.pc).None?
    ensures var s := Run(INITIAL, before).value;
            forall id :: id in s.taskQueue ==> exists n: nat :: KernelProgress.PolledAt(s, after[|before|..], n, id)
  {
    hide Run, KernelProgress.PolledAt;
    var s, rest := Run(INITIAL, before).value, after[|before|..];
    assert after == before + rest;
    KernelRuns.RunConcat(INITIAL, before, rest);
    forall id | id in s.taskQueue ensures exists n: nat :: KernelProgress.PolledAt(s, rest, n, id) {
      var n := KernelProgress.QueuedIsPolled(s, rest, id);
    }
  }

  // What a key press changes.
  lemma PressEffect(s: State, code: byte)
    requires s.fault == NoFault && s.enabled
    ensures Next(s, KeyPress(code)).Some?
    ensures var s', accept := Next(s, KeyPress(code)).value,
                    s.scancodes.Some? && |s.scancodes.value| < QUEUE_CAPACITY;
            && (!accept ==> s' == ResumeAfterHalt(s))
            && (accept ==>
                s' == ResumeAfterHalt(s).(
                  scancodes := Some(s.scancodes.value + [code]), accepted := s.accepted + [code], slot := None,
                  taskQueue := if s.slot.None? || |s.taskQueue| >= QUEUE_CAPACITY then s.taskQueue
                               else s.taskQueue + [s.slot.value.id],
                  fault := if s.slot.Some? && |s.taskQueue| >= QUEUE_CAPACITY then TaskQueueFull else NoFault))
  {
    hide ExecStep, SpawnTask, Create;
  }

  // What looking a popped ID up changes.
  lemma LookupEffect(s: State, id: TaskId)
    requires s.fault == NoFault && s.pc == Popped(id)
    ensures Next(s, Exec) == Some(
      if id !in s.tasks then s.(pc := LoopHead)
      else WithWaker(s, id).(pc := if s.tasks[id].Keyboard? then Resume(id) else OtherPoll(id)))
  {
  }

  class Executor {
    // `TaskId::new`'s counter, the executor's fields, and the wakers given out.
    var nextId: TaskId
    var tasks: map<TaskId, Future>
    var taskQueue: seq<TaskId>
    var wakerCache: map<TaskId, Waker>
    var wakersMade: nat
    var issued: set<TaskId>
    // The statics of `keyboard.rs`.
    var scancodes: Option<seq<byte>>
    var slot: Option<Waker>
    // The CPU.
    var enabled: bool
    var fault: Fault
    // The environment: the interrupts of the points to come, and the other futures' moves to come.
    var arrivals: seq<seq<Interrupt>>
    var moves: seq<Move>
    // What it was at the start.
    ghost const given: seq<seq<Interrupt>>
    ghost const script: seq<Move>

    ghost var now: State
    ghost var log: seq<Action>

    ghost predicate Agrees()
      reads this
    {
      && nextId == now.nextId && tasks == now.tasks && taskQueue == now.taskQueue
      && wakerCache == now.wakerCache && wakersMade == now.wakersMade && issued == now.issued
      && scancodes == now.scancodes && slot == now.slot && enabled == now.enabled && fault == now.fault
    }

    ghost predicate Consistent()
      reads this
    {
      Run(INITIAL, log) == Some(now) && Agrees()
    }

    // The run so far has met the interrupts and moves that are no longer to come, and no others.
    ghost predicate Faithful()
      requires Run(INITIAL, log).Some?
      reads this
    {
      Came(log) + Flat(arrivals) == Flat(given) && Played(Moves(INITIAL, log), script, moves)
    }

    ghost predicate Valid()
      reads this
    {
      Consistent() && Faithful()
    }

    // What every piece of code that runs with interrupts enabled keeps: it continues the log, and uses up
    // no more of the environment than there is.
    ghost predicate Continued(log0: seq<Action>, arrivals0: seq<seq<Interrupt>>, moves0: seq<Move>)
      reads this
    {
      Valid() && enabled && log0 <= log && |arrivals| <= |arrivals0| && |moves| <= |moves0|
    }

    // The invariant of every reachable state.
    lemma Safe()
      requires Valid()
      ensures Inv(now) && Reachable(now)
    {
      ReachableIsSafe(now);
    }

    ghost method Take(action: Action)
      requires Run(INITIAL, log) == Some(now) && Next(now, action).Some?
      modifies this`now, this`log
      ensures Run(INITIAL, log) == Some(now)
      ensures now == Next(old(now), action).value && log == old(log) + [action]
      ensures Came(log) == Came(old(log)) + InterruptOf(action)
      ensures Moves(INITIAL, log) == Moves(INITIAL, old(log)) + MoveOf(old(now), action)
      ensures InterruptOf(action) == [] && MoveOf(old(now), action) == [] && old(Faithful()) ==> Faithful()
    {
      hide Next, InterruptOf, MoveOf;
      RunSnoc(log, action);
      CameSnoc(log, action);
      MovesSnoc(INITIAL, log, action);
      log, now := log + [action], Next(now, action).value;
    }

    constructor (arrivals: seq<seq<Interrupt>>, moves: seq<Move>)
      ensures Valid() && now == INITIAL && log == [] && this.arrivals == arrivals && this.moves == moves
      ensures given == arrivals && script == moves
    {
      this.arrivals, this.moves, given, script := arrivals, moves, arrivals, moves;
      nextId, tasks, taskQueue, wakerCache, wakersMade, issued := 0, map[], [], map[], 0, {};
      scancodes, slot, enabled, fault := None, None, true, NoFault;
      now, log := INITIAL, [];
    }

    /** `Task::new`. */
    method NewTask(future: Future) returns (task: Task)
      requires Consistent() && fault == NoFault && (now.pc.Setup? || now.pc.OtherPoll?) && future != Keyboard(true)
      modifies this`nextId, this`now, this`log
      ensures Consistent() && now == Create(old(now), future)
      ensures task == Task(old(nextId), future) && task in now.held && log == old(log) + [CreateTask(future)]
      ensures old(Valid()) && old(now.pc.Setup?) ==> Valid()
      ensures Moves(INITIAL, log) == Moves(INITIAL, old(log)) + MoveOf(old(now), CreateTask(future))
      ensures Came(log) == Came(old(log))
    {
      hide Run, Came, Moves, Flat, Played;
      task := Task(nextId, future);
      nextId := (nextId + 1) % WORD_LIMIT;
      Take(CreateTask(future));
      assert now.held[|now.held| - 1] == task;
    }

    /** `Executor::spawn`. */
    method Spawn(task: Task, ghost i: nat)
      requires Valid() && fault == NoFault && now.pc.Setup? && i < |now.held| && now.held[i] == task
      modifies this
      ensures Valid() && now == SpawnTask(old(now), i)
      ensures fault == if task.id in old(tasks) then DuplicateTask
                       else if |old(taskQueue)| >= QUEUE_CAPACITY then TaskQueueFull else NoFault
      ensures fault == NoFault ==>
        tasks == old(tasks)[task.id := task.future] && taskQueue == old(taskQueue) + [task.id]
    {
      hide Run, Came, Moves, Flat, Played;
      Take(Action.Spawn(i));
      if task.id in tasks {
        tasks := tasks[task.id := task.future];
        fault := DuplicateTask;
      } else {
        tasks := tasks[task.id := task.future];
        WakeTask(task.id);
      }
    }

    // `TaskWaker::wake_task`; the ghost state has been moved by the caller.
    method WakeTask(id: TaskId)
      requires fault == NoFault
      modifies this`taskQueue, this`fault
      ensures |old(taskQueue)| < QUEUE_CAPACITY ==> taskQueue == old(taskQueue) + [id] && fault == NoFault
      ensures |old(taskQueue)| >= QUEUE_CAPACITY ==> taskQueue == old(taskQueue) && fault == TaskQueueFull
    {
      if |taskQueue| >= QUEUE_CAPACITY {
        fault := TaskQueueFull;
      } else {
        taskQueue := taskQueue + [id];
      }
    }

    /** `keyboard_interrupt_handler` with `add_scancode`. */
    method AddScancode(code: byte)
      requires Consistent() && fault == NoFault && enabled
      modifies this`scancodes, this`slot, this`taskQueue, this`fault, this`now, this`log
      ensures Consistent() && log == old(log) + [KeyPress(code)] && Next(old(now), KeyPress(code)) == Some(now)
      ensures Came(log) == Came(old(log)) + [Key(code)] && Moves(INITIAL, log) == Moves(INITIAL, old(log))
    {
      hide Run, Next, Came, Moves, Flat, Played;
      PressEffect(now, code);
      if scancodes.Some? && |scancodes.value| < QUEUE_CAPACITY {
        scancodes := Some(scancodes.value + [code]);
        WakeRegistered();
      }
      Take(KeyPress(code));
    }

    // `WAKER.wake()`.
    method WakeRegistered()
      requires fault == NoFault
      modifies this`slot, this`taskQueue, this`fault
      ensures slot == None
      ensures if old(slot).None? || |old(taskQueue)| >= QUEUE_CAPACITY then taskQueue == old(taskQueue)
              else taskQueue == old(taskQueue) + [old(slot).value.id]
      ensures fault == if old(slot).Some? && |old(taskQueue)| >= QUEUE_CAPACITY then TaskQueueFull else NoFault
    {
      if slot.Some? {
        var waker := slot.value;
        slot := None;
        WakeTask(waker.id);
      }
    }

    // `timer_interrupt_handler`.
    method TakeTick()
      requires Consistent() && fault == NoFault && enabled
      modifies this`now, this`log
      ensures Consistent() && now == ResumeAfterHalt(old(now)) && log == old(log) + [Tick]
      ensures Came(log) == Came(old(log)) + [Timer] && Moves(INITIAL, log) == Moves(INITIAL, old(log))
    {
      hide Run, ExecStep, SpawnTask, Create, Came, Moves, Flat, Played;
      Take(Tick);
    }

    // The next interrupt; it ends a `hlt`.
    method Handle()
      requires Valid() && fault == NoFault && enabled && arrivals != [] && arrivals[0] != []
      modifies this
      ensures Continued(old(log), old(arrivals), old(moves)) && moves == old(moves)
      ensures arrivals == old(arrivals)[0 := old(arrivals)[0][1..]]
      ensures Interrupted(ResumeAfterHalt(old(now)), now)
    {
      hide Run, Next, Came, Moves, Flat, Played;
      var interrupt := arrivals[0][0];
      FlatPop(arrivals);
      arrivals := arrivals[0 := arrivals[0][1..]];
      match interrupt {
        case Key(code) =>
          PressEffect(now, code);
          AddScancode(code);
        case Timer => TakeTick();
      }
      assert Came(old(log)) + [interrupt] + Flat(arrivals) == Came(old(log)) + ([interrupt] + Flat(arrivals));
    }

    // The interrupts that arrive before the next step.
    method Preempt()
      requires Valid() && fault == NoFault && enabled && !now.pc.Halted?
      modifies this
      ensures Continued(old(log), old(arrivals), old(moves)) && Interrupted(old(now), now) && moves == old(moves)
      ensures fault == NoFault ==> arrivals == (if old(arrivals) == [] then [] else old(arrivals)[1..])
      ensures old(arrivals) == [] ==> now == old(now)
    {
      hide Run, Next, Came, Moves, Flat, Played;
      if arrivals == [] {
        return;
      }
      while arrivals[0] != [] && fault == NoFault
        invariant Continued(old(log), old(arrivals), old(moves)) && Interrupted(old(now), now) && moves == old(moves)
        invariant arrivals != [] && arrivals[1..] == old(arrivals)[1..]
        decreases |arrivals[0]|
      {
        Handle();
      }
      if fault == NoFault {
        FlatSkip(arrivals);
        arrivals := arrivals[1..];
      }
    }

    // What `poll_next` promises: the oldest accepted scancode that is not consumed, or that there is none
    // and that the task is queued or registered.
    ghost predicate Answered(id: TaskId, r: Option<byte>)
      reads this
    {
      if r.Some? then
        && now.pc == Deliver(id, r.value) && |now.consumed| < |now.accepted|
        && r.value == now.accepted[|now.consumed|]
      else
        && now.pc == Returned(id, false) && scancodes == Some([]) && now.consumed == now.accepted
        && (id in taskQueue || (id in wakerCache && slot == Some(wakerCache[id])))
    }

    // A scancode on its way is the first accepted one that is not consumed.
    lemma OldestIsReady()
      requires Valid() && fault == NoFault && now.pc.Deliver?
      ensures Answered(now.pc.id, Some(now.pc.code))
    {
      Safe();
    }

    // A pending keyboard task has consumed everything and will be woken.
    lemma NothingIsReady(id: TaskId)
      requires Valid() && fault == NoFault && now.pc == Returned(id, false) && scancodes == Some([])
      requires Started(tasks, id)
      ensures Answered(id, None)
    {
      Safe();
      NoWakeupIsLost(now, id);
    }

    // The task in `poll_next` is the stream's owner.
    lemma OwnerPolls()
      requires Valid() && fault == NoFault && InPollNext(now.pc)
      ensures Started(tasks, now.pc.id) && scancodes.Some?
    {
      Safe();
    }

    /** `poll_next`: `Poll::Ready(Some(code))` is Some, `Poll::Pending` is None. */
    method PollNext(id: TaskId) returns (r: Option<byte>)
      requires Valid() && fault == NoFault && enabled && now.pc == FastPop(id)
      modifies this
      ensures Continued(old(log), old(arrivals), old(moves)) && moves == old(moves)
      ensures fault == NoFault ==> old(arrivals) == [] || |arrivals| < |old(arrivals)|
      ensures fault == NoFault ==> Answered(id, r)
      ensures fault == NoFault && old(arrivals) == [] ==>
        taskQueue == old(taskQueue) && (r.Some? ==> |Queue(now)| < |Queue(old(now))|)
    {
      hide Run, Next, Came, Moves, Flat, Played;
      r := None;
      Preempt();
      if fault != NoFault { return; }
      r := FirstPop(id);
      if fault == NoFault && r.None? {
        r := RegisterAndPop(id);
      }
    }

    method FirstPop(id: TaskId) returns (r: Option<byte>)
      requires Valid() && fault == NoFault && enabled && now.pc == FastPop(id)
      modifies this
      ensures Continued(old(log), old(arrivals), old(moves)) && arrivals == old(arrivals) && moves == old(moves)
      ensures taskQueue == old(taskQueue) && scancodes.Some? == old(scancodes.Some?)
      ensures fault == NoFault && r.Some? ==> Answered(id, r) && |Queue(now)| < |Queue(old(now))|
      ensures fault == NoFault && r.None? ==> now.pc == Register(id) && scancodes == old(scancodes)
    {
      hide Run, Came, Moves, Flat, Played;
      r := None;
      if scancodes.None? {
        fault := NotInitialised;
      } else if scancodes.value != [] {
        r := Some(scancodes.value[0]);
        scancodes := Some(scancodes.value[1..]);
      }
      Take(Exec);
      if r.Some? {
        OldestIsReady();
      }
    }

    // The second half of `poll_next`: register, then look again.
    method RegisterAndPop(id: TaskId) returns (r: Option<byte>)
      requires Valid() && fault == NoFault && enabled && now.pc == Register(id)
      modifies this
      ensures Continued(old(log), old(arrivals), old(moves)) && moves == old(moves)
      ensures fault == NoFault ==> Answered(id, r)
      ensures fault == NoFault && old(arrivals) == [] ==>
        taskQueue == old(taskQueue) && (r.Some? ==> |Queue(now)| < |Queue(old(now))|)
    {
      hide Run, Next, Came, Moves, Flat, Played;
      r := None;
      Preempt();
      if fault != NoFault { return; }
      RegisterWaker(id);
      Preempt();
      if fault != NoFault { return; }
      r := PopAgain(id);
    }

    method PopAgain(id: TaskId) returns (r: Option<byte>)
      requires Valid() && fault == NoFault && enabled && now.pc == KernelMachine.SecondPop(id)
      modifies this
      ensures Continued(old(log), old(arrivals), old(moves)) && moves == old(moves)
      ensures fault == NoFault ==> Answered(id, r)
      ensures fault == NoFault && old(arrivals) == [] ==>
        taskQueue == old(taskQueue) && (r.Some? ==> |Queue(now)| < |Queue(old(now))|)
    {
      hide Run, Next, Came, Moves, Flat, Played;
      r := SecondPop(id);
      if r.Some? {
        Preempt();
        if fault == NoFault {
          TakeSlot(id, r.value);
        }
      }
    }

    // `WAKER.register`.
    method RegisterWaker(id: TaskId)
      requires Valid() && fault == NoFault && enabled && now.pc == Register(id)
      modifies this
      ensures Continued(old(log), old(arrivals), old(moves)) && arrivals == old(arrivals) && moves == old(moves)
      ensures fault == NoFault && now.pc == KernelMachine.SecondPop(id)
      ensures taskQueue == old(taskQueue) && scancodes == old(scancodes)
    {
      hide Run, Came, Moves, Flat, Played;
      OwnerPolls();
      slot := if id in wakerCache then Some(wakerCache[id]) else None;
      Take(Exec);
    }

    method SecondPop(id: TaskId) returns (r: Option<byte>)
      requires Valid() && fault == NoFault && enabled && now.pc == KernelMachine.SecondPop(id)
      modifies this
      ensures Continued(old(log), old(arrivals), old(moves)) && arrivals == old(arrivals) && moves == old(moves)
      ensures fault == NoFault && taskQueue == old(taskQueue)
      ensures if r.None? then Answered(id, None)
              else now.pc == TakeWaker(id, r.value) && |Queue(now)| < |Queue(old(now))|
    {
      hide Run, Came, Moves, Flat, Played;
      OwnerPolls();
      r := None;
      if scancodes.value != [] {
        r := Some(scancodes.value[0]);
        scancodes := Some(scancodes.value[1..]);
      }
      Take(Exec);
      if r.None? {
        NothingIsReady(id);
      }
    }

    // `WAKER.take()`.
    method TakeSlot(id: TaskId, code: byte)
      requires Valid() && fault == NoFault && enabled && now.pc == TakeWaker(id, code)
      modifies this
      ensures Continued(old(log), old(arrivals), old(moves)) && arrivals == old(arrivals) && moves == old(moves)
      ensures fault == NoFault && Answered(id, Some(code)) && slot == None
      ensures scancodes == old(scancodes) && taskQueue == old(taskQueue)
    {
      hide Run, Came, Moves, Flat, Played;
      OwnerPolls();
      slot := None;
      Take(Exec);
      OldestIsReady();
    }

    /** `Task::poll` of `print_keypresses`: makes the stream on the first poll, then consumes scancodes
        until `poll_next` is pending. When it returns, it has consumed every scancode accepted so far, also
        those that arrived during the poll, and is queued or registered for the next. */
    method PollKeyboard(id: TaskId)
      requires Valid() && fault == NoFault && enabled && now.pc == Resume(id)
      modifies this
      ensures Continued(old(log), old(arrivals), old(moves)) && moves == old(moves)
      ensures fault == NoFault ==> Answered(id, None)
      ensures old(now.accepted) <= now.accepted && old(now.consumed) <= now.consumed
      ensures fault == NoFault && old(arrivals) == [] ==> taskQueue == old(taskQueue)
    {
      hide Run, Next, Came, Moves, Flat, Played;
      Preempt();
      if fault == NoFault {
        MakeStream(id);
        if fault == NoFault {
          ConsumeUntilPending(id);
        }
      }
      LogGrows(old(log), log);
    }

    // `ScancodeStream::new`, on the first poll.
    method MakeStream(id: TaskId)
      requires Valid() && fault == NoFault && enabled && now.pc == Resume(id)
      modifies this
      ensures Continued(old(log), old(arrivals), old(moves)) && arrivals == old(arrivals) && moves == old(moves)
      ensures tasks != old(tasks) ==> old(scancodes.None?) && scancodes == Some([])
      ensures fault == NoFault ==> now.pc == FastPop(id)
      ensures taskQueue == old(taskQueue)
    {
      hide Run, Came, Moves, Flat, Played;
      if id in tasks && tasks[id] == Keyboard(true) {
      } else if scancodes.Some? {
        fault := StreamTwice;
      } else {
        scancodes := Some([]);
        tasks := tasks[id := Keyboard(true)];
      }
      Take(Exec);
    }

    // The loop of `print_keypresses`.
    method ConsumeUntilPending(id: TaskId)
      requires Valid() && fault == NoFault && enabled && now.pc == FastPop(id)
      modifies this
      ensures Continued(old(log), old(arrivals), old(moves)) && moves == old(moves)
      ensures fault == NoFault ==> Answered(id, None)
      ensures fault == NoFault && old(arrivals) == [] ==> taskQueue == old(taskQueue)
    {
      hide Run, Next, Came, Moves, Flat, Played;
      while true
        invariant Continued(old(log), old(arrivals), old(moves)) && moves == old(moves)
        invariant fault == NoFault && now.pc == FastPop(id)
        invariant old(arrivals) == [] ==> taskQueue == old(taskQueue)
        decreases |arrivals|, |Queue(now)|
      {
        var r := PollNext(id);
        if fault != NoFault || r.None? {
          return;
        }
        Consume(id, r.value);
        if fault != NoFault {
          return;
        }
      }
    }

    // The body of that loop: the scancode goes to the decoder.
    method Consume(id: TaskId, code: byte)
      requires Valid() && fault == NoFault && enabled && now.pc == Deliver(id, code)
      modifies this
      ensures Continued(old(log), old(arrivals), old(moves)) && moves == old(moves)
      ensures fault == NoFault ==> now.pc == FastPop(id)
      ensures old(arrivals) == [] ==> Queue(now) == Queue(old(now)) && taskQueue == old(taskQueue)
    {
      hide Run, Came, Moves, Flat, Played;
      Preempt();
      if fault == NoFault {
        OwnerPolls();
        Take(Exec);
      }
    }

    // `poll` of another future, as the script says.
    method PollOther(id: TaskId) returns (ready: bool)
      requires Valid() && fault == NoFault && enabled && now.pc == OtherPoll(id)
      modifies this
      ensures Continued(old(log), old(arrivals), old(moves))
      ensures fault == NoFault ==> now.pc == Returned(id, ready)
      ensures fault == NoFault ==> old(moves) == [] || |moves| < |old(moves)|
      ensures fault == NoFault && old(arrivals) == [] && old(moves) == [] ==> taskQueue == old(taskQueue)
    {
      hide Run, Next, Came, Moves, Flat, Played;
      var r: Option<bool> := None;
      ready := false;
      while r.None?
        invariant Continued(old(log), old(arrivals), old(moves)) && fault == NoFault
        invariant now.pc == if r.None? then OtherPoll(id) else Returned(id, r.value)
        invariant if moves == old(moves) then r.None? || moves == [] else |moves| < |old(moves)|
        invariant old(arrivals) == [] && old(moves) == [] ==> taskQueue == old(taskQueue)
        decreases |moves|, r.None?
      {
        Preempt();
        if fault != NoFault { return; }
        r := Play(id);
        if fault != NoFault { return; }
      }
      ready := r.value;
    }

    // The next move of the future being polled: what it returns, if it returns.
    method Play(id: TaskId) returns (r: Option<bool>)
      requires Valid() && fault == NoFault && enabled && now.pc == OtherPoll(id)
      modifies this
      ensures Continued(old(log), old(arrivals), old(moves)) && arrivals == old(arrivals)
      ensures moves == if old(moves) == [] then [] else old(moves)[1..]
      ensures fault == NoFault ==> now.pc == if r.None? then OtherPoll(id) else Returned(id, r.value)
      ensures old(moves) == [] ==> fault == NoFault && r == Some(false) && taskQueue == old(taskQueue)
    {
      hide Run, Next, Came, Moves, Flat, Played;
      var move := Returning(false);
      PlayedOne(Moves(INITIAL, log), script, moves);
      if moves != [] {
        move := moves[0];
        moves := moves[1..];
      }
      r := None;
      match move {
        case Waking(id) => WakeByFuture(id);
        case Creating(keyboard) => var _ := NewTask(if keyboard then Keyboard(false) else Other);
        case Returning(ready) =>
          ReturnFromPoll(id, ready);
          r := Some(ready);
      }
    }

    method WakeByFuture(id: TaskId)
      requires Consistent() && fault == NoFault && now.pc.OtherPoll?
      modifies this`taskQueue, this`fault, this`now, this`log
      ensures Consistent() && log == old(log) + [Wake(id)] && now.pc == old(now.pc)
      ensures Came(log) == Came(old(log)) && Moves(INITIAL, log) == Moves(INITIAL, old(log)) + [Waking(id)]
      ensures id in issued && |old(taskQueue)| < QUEUE_CAPACITY ==>
        taskQueue == old(taskQueue) + [id] && fault == NoFault
      ensures id in issued && |old(taskQueue)| >= QUEUE_CAPACITY ==>
        taskQueue == old(taskQueue) && fault == TaskQueueFull
      ensures id !in issued ==> taskQueue == old(taskQueue) && fault == NoFault
    {
      hide Run, Came, Moves, Flat, Played;
      Take(Wake(id));
      if id in issued {
        WakeTask(id);
      }
    }

    method ReturnFromPoll(id: TaskId, ready: bool)
      requires Consistent() && fault == NoFault && now.pc == OtherPoll(id)
      modifies this`now, this`log
      ensures Consistent() && log == old(log) + [Return(ready)] && now.pc == Returned(id, ready)
      ensures Came(log) == Came(old(log)) && Moves(INITIAL, log) == Moves(INITIAL, old(log)) + [Returning(ready)]
    {
      hide Run, Came, Moves, Flat, Played;
      Take(Return(ready));
    }

    // The body of the loop of `run_ready_tasks`. In a quiet environment it leaves one ID less in the queue.
    method RunOneTask()
      requires Valid() && fault == NoFault && enabled && now.pc == LoopHead && taskQueue != []
      modifies this
      ensures Continued(old(log), old(arrivals), old(moves))
      ensures fault == NoFault ==> now.pc == LoopHead
      ensures fault == NoFault && old(arrivals) == [] ==>
        |moves| < |old(moves)| || |taskQueue| < |old(taskQueue)|
    {
      hide Run, Next, Came, Moves, Flat, Played;
      var id := PopTask();
      Preempt();
      if fault != NoFault { return; }
      var kind := FindTask(id);
      if kind.Some? {
        PollTask(id, kind.value);
      }
    }

    // The poll, and the match on its result.
    method PollTask(id: TaskId, future: Future)
      requires Valid() && fault == NoFault && enabled
      requires now.pc == if future.Keyboard? then Resume(id) else OtherPoll(id)
      modifies this
      ensures Continued(old(log), old(arrivals), old(moves))
      ensures fault == NoFault ==> now.pc == LoopHead
      ensures fault == NoFault && old(arrivals) == [] ==>
        |moves| < |old(moves)| || taskQueue == old(taskQueue)
    {
      hide Run, Next, Answered, Came, Moves, Flat, Played;
      var ready := false;
      if future.Keyboard? {
        PollKeyboard(id);
        PendingReturns(id);
      } else {
        ready := PollOther(id);
      }
      if fault == NoFault {
        FinishPoll(id, ready);
      }
    }

    lemma PendingReturns(id: TaskId)
      requires fault == NoFault ==> Answered(id, None)
      ensures fault == NoFault ==> now.pc == Returned(id, false)
    {
    }

    method PopTask() returns (id: TaskId)
      requires Valid() && fault == NoFault && enabled && now.pc == LoopHead && taskQueue != []
      modifies this
      ensures Continued(old(log), old(arrivals), old(moves)) && arrivals == old(arrivals) && moves == old(moves)
      ensures fault == NoFault && now.pc == Popped(id) && old(taskQueue) == [id] + taskQueue
    {
      hide Run, Came, Moves, Flat, Played;
      id := taskQueue[0];
      taskQueue := taskQueue[1..];
      Take(Exec);
    }

    // `tasks.get_mut` and the waker cache.
    method FindTask(id: TaskId) returns (kind: Option<Future>)
      requires Valid() && fault == NoFault && enabled && now.pc == Popped(id)
      modifies this
      ensures Continued(old(log), old(arrivals), old(moves)) && arrivals == old(arrivals) && moves == old(moves)
      ensures fault == NoFault && taskQueue == old(taskQueue) && tasks == old(tasks)
      ensures kind == if id in tasks then Some(tasks[id]) else None
      ensures kind.Some? ==> id in wakerCache
      ensures now.pc == if kind.None? then LoopHead else if kind.value.Keyboard? then Resume(id) else OtherPoll(id)
    {
      hide Run, Next, Came, Moves, Flat, Played;
      LookupEffect(now, id);
      kind := None;
      if id in tasks {
        kind := Some(tasks[id]);
        if id !in wakerCache {
          wakerCache := wakerCache[id := Waker(id, wakersMade)];
          wakersMade := wakersMade + 1;
          issued := issued + {id};
        }
      }
      Take(Exec);
    }

    // The match on the result of the poll.
    method FinishPoll(id: TaskId, ready: bool)
      requires Valid() && fault == NoFault && enabled && now.pc == Returned(id, ready)
      modifies this
      ensures Continued(old(log), old(arrivals), old(moves)) && moves == old(moves)
      ensures fault == NoFault ==>
        && now.pc == LoopHead
        && (if ready then id !in tasks && id !in wakerCache else tasks == old(tasks))
      ensures fault == NoFault && old(arrivals) == [] ==> taskQueue == old(taskQueue)
    {
      hide Run, Next, Came, Moves, Flat, Played;
      Preempt();
      if fault != NoFault { return; }
      EndPoll(id, ready);
      if ready {
        Preempt();
        if fault == NoFault {
          ForgetWaker(id);
        }
      }
    }

    // `tasks.remove` if the task is done.
    method EndPoll(id: TaskId, ready: bool)
      requires Valid() && fault == NoFault && enabled && now.pc == Returned(id, ready)
      modifies this
      ensures Continued(old(log), old(arrivals), old(moves)) && arrivals == old(arrivals) && moves == old(moves)
      ensures fault == NoFault && now.pc == (if ready then DropWaker(id) else LoopHead)
      ensures taskQueue == old(taskQueue) && tasks == (if ready then old(tasks) - {id} else old(tasks))
    {
      hide Run, Came, Moves, Flat, Played;
      if ready {
        tasks := tasks - {id};
      }
      Take(Exec);
    }

    // `waker_cache.remove`.
    method ForgetWaker(id: TaskId)
      requires Valid() && fault == NoFault && enabled && now.pc == DropWaker(id)
      modifies this
      ensures Continued(old(log), old(arrivals), old(moves)) && arrivals == old(arrivals) && moves == old(moves)
      ensures fault == NoFault && now.pc == LoopHead && tasks == old(tasks) && taskQueue == old(taskQueue)
      ensures wakerCache == old(wakerCache) - {id}
    {
      hide Run, Came, Moves, Flat, Played;
      wakerCache := wakerCache - {id};
      Take(Exec);
    }

    /** `run_ready_tasks`: ends, if nothing panics, with the task queue found empty and every scancode
        accepted so far consumed, whatever interrupts are handled on the way; every ID that was queued has
        been looked up, and its task polled if it still existed. */
    method RunReadyTasks()
      requires Valid() && fault == NoFault && enabled && now.pc == LoopHead
      modifies this
      ensures Continued(old(log), old(arrivals), old(moves)) && old(now.accepted) <= now.accepted
      ensures fault == NoFault ==> old(arrivals) == [] || |arrivals| < |old(arrivals)|
      ensures fault == NoFault ==> now.pc == CheckIdle && taskQueue == [] && now.consumed == now.accepted
      ensures fault == NoFault ==> forall id :: id in old(taskQueue) ==>
        exists n: nat :: KernelProgress.PolledAt(old(now), log[|old(log)|..], n, id)
    {
      hide Run, Next, Came, Moves, Flat, Played;
      while true
        invariant Continued(old(log), old(arrivals), old(moves)) && fault == NoFault && now.pc == LoopHead
        decreases |arrivals|, |moves|, |taskQueue|
      {
        Preempt();
        LogGrows(old(log), log);
        if fault != NoFault { return; }
        if taskQueue == [] {
          LeaveLoop();
          LogPolls(old(log), log);
          return;
        }
        RunOneTask();
        LogGrows(old(log), log);
        if fault != NoFault { return; }
      }
    }

    // `task_queue.pop()` finds nothing.
    method LeaveLoop()
      requires Valid() && fault == NoFault && enabled && now.pc == LoopHead && taskQueue == []
      modifies this
      ensures Continued(old(log), old(arrivals), old(moves)) && arrivals == old(arrivals) && moves == old(moves)
      ensures fault == NoFault && now.pc == CheckIdle && taskQueue == []
      ensures now.accepted == old(now.accepted) && now.consumed == now.accepted
    {
      hide Run, Came, Moves, Flat, Played;
      Take(Exec);
      Safe();
      IdleIsDrained(now);
    }

    /** `sleep_if_idle`: halts exactly when the queue is still empty with interrupts off, and then every
        accepted scancode has been consumed. */
    method SleepIfIdle() returns (halted: bool)
      requires Valid() && fault == NoFault && enabled && now.pc == CheckIdle
      modifies this
      ensures Continued(old(log), old(arrivals), old(moves))
      ensures fault == NoFault ==> now.pc == (if halted then Halted else LoopHead)
      ensures fault == NoFault ==> (halted <==> taskQueue == [])
      ensures fault == NoFault && halted ==> now.accepted == now.consumed
      ensures fault == NoFault && old(arrivals) == [] ==> taskQueue == old(taskQueue)
    {
      hide Run, Next, Came, Moves, Flat, Played;
      halted := false;
      Preempt();
      if fault != NoFault { return; }
      var idle := FirstLook();
      if idle {
        Preempt();
        if fault != NoFault { return; }
        halted := MaskAndHalt();
      }
    }

    // The first `is_empty`.
    method FirstLook() returns (idle: bool)
      requires Valid() && fault == NoFault && enabled && now.pc == CheckIdle
      modifies this
      ensures Continued(old(log), old(arrivals), old(moves)) && arrivals == old(arrivals) && moves == old(moves)
      ensures fault == NoFault && now.pc == (if idle then Disable else LoopHead)
      ensures taskQueue == old(taskQueue) && (idle <==> taskQueue == [])
    {
      hide Run, Came, Moves, Flat, Played;
      idle := taskQueue == [];
      Take(Exec);
    }

    // `interrupts::disable()`.
    method Mask()
      requires Valid() && fault == NoFault && enabled && now.pc == Disable
      modifies this
      ensures Valid() && fault == NoFault && !enabled && now.pc == Recheck && taskQueue == old(taskQueue)
      ensures old(log) <= log && arrivals == old(arrivals) && moves == old(moves)
    {
      hide Run, Came, Moves, Flat, Played;
      enabled := false;
      Take(Exec);
    }

    // From `interrupts::disable()` on: no interrupt can happen here.
    method MaskAndHalt() returns (halted: bool)
      requires Valid() && fault == NoFault && enabled && now.pc == Disable
      modifies this
      ensures Continued(old(log), old(arrivals), old(moves)) && arrivals == old(arrivals) && moves == old(moves)
      ensures fault == NoFault && taskQueue == old(taskQueue)
      ensures now.pc == (if halted then Halted else LoopHead)
      ensures halted <==> taskQueue == []
      ensures halted ==> now.accepted == now.consumed
    {
      hide Run, Came, Moves, Flat, Played;
      Mask();
      halted := taskQueue == [];
      Take(Exec);
      enabled := true;
      Take(Exec);
      if halted {
        Safe();
        HaltIsSound(now);
      }
    }

    // `hlt`: the first interrupt to come ends it, if one comes.
    method WaitForInterrupt() returns (woken: bool)
      requires Valid() && fault == NoFault && enabled && now.pc == Halted
      modifies this
      ensures Continued(old(log), old(arrivals), old(moves))
      ensures woken && fault == NoFault ==> |arrivals| < |old(arrivals)| && now.pc == LoopHead
      ensures !woken ==> now == old(now) && arrivals == []
    {
      hide Run, Next, Came, Moves, Flat, Played;
      while arrivals != []
        invariant Continued(old(log), old(arrivals), old(moves)) && now == old(now)
      {
        if arrivals[0] != [] {
          Handle();
          if fault == NoFault {
            Preempt();
          }
          return true;
        }
        FlatSkip(arrivals);
        arrivals := arrivals[1..];
      }
      return false;
    }

    /** `run`, up to the point where nothing more is going to happen. Whatever interrupts are given,
        and whatever the other futures do, the kernel panics or ends up halted with exactly those
        interrupts handled, in order: no ID queued, every task polled, every accepted scancode consumed. */
    method RunUntilQuiet()
      requires Valid() && fault == NoFault && now.pc.Setup?
      modifies this
      ensures Valid() && old(log) <= log
      ensures fault == NoFault ==>
        && now.pc == Halted && arrivals == [] && Came(log) == Flat(given)
        && taskQueue == [] && now.consumed == now.accepted
        && forall id :: id in tasks ==> id in wakerCache && tasks[id] != Keyboard(false)
    {
      hide Run, Next, Came, Moves, Flat, Played;
      Begin();
      while true
        invariant Valid() && enabled && old(log) <= log && fault == NoFault && now.pc == LoopHead
        decreases |arrivals|
      {
        RunReadyTasks();
        if fault != NoFault { return; }
        var halted := SleepIfIdle();
        if fault != NoFault { return; }
        if halted {
          var woken := WaitForInterrupt();
          if fault != NoFault { return; }
          if !woken {
            Safe();
            HaltIsSound(now);
            AllCame();
            return;
          }
        }
      }
    }

    lemma AllCame()
      requires Valid() && arrivals == []
      ensures Came(log) == Flat(given)
    {
    }

    method Begin()
      requires Valid() && fault == NoFault && now.pc.Setup?
      modifies this
      ensures Continued(old(log), old(arrivals), old(moves)) && fault == NoFault && now.pc == LoopHead
    {
      hide Run, Came, Moves, Flat, Played;
      Safe();
      Take(BeginRun);
    }
  }
}
