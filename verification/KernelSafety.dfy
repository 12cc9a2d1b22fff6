/** What holds in every reachable state of the kernel machine. */
module KernelSafety {
  import opened Alignment
  import opened ByteMemory
  import opened Layouts
  import opened KernelMachine

  // -------- The invariant --------

  function Queue(s: State): (r: seq<byte>) {
    if s.scancodes.Some? then s.scancodes.value else []
  }

  // A scancode that is off the queue and not yet delivered.
  function InFlight(pc: Pc): (r: seq<byte>) {
    if pc.TakeWaker? || pc.Deliver? then [pc.code] else []
  }

  // The keyboard task that owns the stream.
  predicate Started(tasks: map<TaskId, Future>, k: TaskId) {
    k in tasks && tasks[k] == Keyboard(true)
  }

  // The task the executor is working on, from popping its ID to its poll's result.
  function Current(pc: Pc): (r: Option<TaskId>) {
    if pc.Popped? || pc.Resume? || pc.OtherPoll? || pc.Returned? || InPollNext(pc) then Some(pc.id) else None
  }

  ghost predicate Bounded(s: State) {
    && |s.taskQueue| <= QUEUE_CAPACITY && |Queue(s)| <= QUEUE_CAPACITY
    && (s.enabled <==> !(s.pc.Recheck? || s.pc.Enable? || s.pc.EnableAndHalt?))
    && (s.pc.EnableAndHalt? || s.pc.Halted? ==> s.taskQueue == [])
  }

  // Nothing accepted is lost, repeated or reordered.
  ghost predicate Conserved(s: State) {
    && s.accepted == s.consumed + InFlight(s.pc) + Queue(s)
    && (s.scancodes.None? ==> s.accepted == [])
  }

  // The stream has at most one owner, and none before it is made.
  ghost predicate OneStream(s: State) {
    && (forall k :: k in s.tasks && Started(s.tasks, k) ==> s.scancodes.Some?)
    && (forall j, k :: j in s.tasks && k in s.tasks && Started(s.tasks, j) && Started(s.tasks, k) ==> j == k)
  }

  // Where the executor is agrees with the kind of task it is working on.
  ghost predicate PcMatches(s: State) {
    && (InPollNext(s.pc) ==> Started(s.tasks, s.pc.id))
    && (s.pc.Resume? ==> s.pc.id in s.tasks && s.tasks[s.pc.id].Keyboard?)
    && (s.pc.OtherPoll? ==> s.pc.id in s.tasks && s.tasks[s.pc.id] == Other)
    && (s.pc.Returned? ==> s.pc.id in s.tasks && s.tasks[s.pc.id] != Keyboard(false))
    && (s.pc.Returned? && s.pc.ready ==> s.tasks[s.pc.id] == Other)
    && (s.pc.DropWaker? ==> s.pc.id !in s.tasks)
    && (Current(s.pc).Some? && !s.pc.Popped? ==> s.pc.id in s.wakerCache)
  }

  // Cached wakers have been handed out and belong to tasks that exist, and the registered waker has a
  // twin in the cache.
  ghost predicate Wakers(s: State) {
    && (forall id :: id in s.wakerCache ==> s.wakerCache[id].id == id)
    && (forall id :: id in s.wakerCache ==> id in s.issued && (id in s.tasks || s.pc == DropWaker(id)))
    && (s.slot.Some? ==> Started(s.tasks, s.slot.value.id) && s.slot.value.id in s.wakerCache
                         && s.wakerCache[s.slot.value.id] == s.slot.value)
  }

  predicate Registered(s: State, k: TaskId) {
    s.slot.Some? && s.slot.value.id == k
  }

  // A started keyboard task outside its poll is queued, or waits registered on an empty queue; between
  // registering and the second pop it is queued or registered.
  ghost predicate NotLost(s: State, k: TaskId) {
    if Current(s.pc) != Some(k) || s.pc.Returned? then k in s.taskQueue || (Queue(s) == [] && Registered(s, k))
    else s.pc.SecondPop? ==> k in s.taskQueue || Registered(s, k)
  }

  ghost predicate NoneLost(s: State) {
    forall k :: k in s.tasks && Started(s.tasks, k) ==> NotLost(s, k)
  }

  // A task that was never polled is queued or just popped.
  ghost predicate NoneForgotten(s: State) {
    && (forall id :: id in s.tasks && id !in s.wakerCache ==> id in s.taskQueue || s.pc == Popped(id))
    && (forall id :: id in s.tasks && id in s.wakerCache && s.tasks[id] == Keyboard(false) ==> s.pc == Resume(id))
  }

  // A finished task is gone for good, and nothing is spawned after `run` begins.
  ghost predicate FinishedGone(s: State) {
    && (forall id :: id in s.finished ==> id !in s.tasks && id in s.issued)
    && (s.pc.Setup? ==> s.finished == {})
    && (forall i :: 0 <= i < |s.held| ==> s.held[i].future != Keyboard(true))
  }

  ghost predicate Tidy(s: State) {
    Bounded(s) && Conserved(s) && OneStream(s) && PcMatches(s) && Wakers(s)
  }

  ghost predicate Attended(s: State) {
    NoneLost(s) && NoneForgotten(s) && FinishedGone(s)
  }

  ghost predicate Safe(s: State) {
    Tidy(s) && Attended(s)
  }

  // Task IDs have not wrapped around and are pairwise different.
  ghost predicate UniqueIds(s: State) {
    && s.nextId == s.created % WORD_LIMIT
    && (s.created <= WORD_LIMIT ==>
        && (forall id :: id in s.tasks ==> id < s.created)
        && (forall i :: 0 <= i < |s.held| ==> s.held[i].id < s.created)
        && (forall i :: 0 <= i < |s.held| ==> s.held[i].id !in s.tasks)
        && (forall i, j :: 0 <= i < j < |s.held| ==> s.held[i].id != s.held[j].id))
  }

  // A panicked state keeps nothing but its reason.
  ghost predicate Inv(s: State) {
    && (s.fault == NoFault ==> Safe(s) && UniqueIds(s))
    && s.fault != NotInitialised
    && (s.created <= WORD_LIMIT ==> s.fault != DuplicateTask)
  }

  // -------- Every action keeps it --------

  lemma InitialIsSafe()
    ensures Inv(INITIAL)
  {
  }

  lemma PushKeeps(s: State, id: TaskId)
    requires Safe(s) && !s.pc.EnableAndHalt? && !s.pc.Halted?
    ensures Push(s, id).fault == NoFault && s.fault == NoFault ==> Safe(Push(s, id))
  {
  }

  lemma KeyPressKeepsTidy(s: State, code: byte)
    requires Safe(s) && s.enabled && s.fault == NoFault && s.pc != Halted
    ensures AddScancode(s, code).fault == NoFault ==> Tidy(AddScancode(s, code))
  {
    hide NoneLost, NoneForgotten, FinishedGone;
  }

  lemma KeyPressKeepsAttended(s: State, code: byte)
    requires Safe(s) && s.enabled && s.fault == NoFault && s.pc != Halted
    ensures AddScancode(s, code).fault == NoFault ==> Attended(AddScancode(s, code))
  {
    hide Conserved;
  }

  lemma KeyPressKeeps(s: State, code: byte)
    requires Safe(s) && s.enabled && s.fault == NoFault && s.pc != Halted
    ensures AddScancode(s, code).fault == NoFault ==> Safe(AddScancode(s, code))
  {
    hide Tidy, Attended;
    KeyPressKeepsTidy(s, code);
    KeyPressKeepsAttended(s, code);
  }

  lemma ResumeAfterHaltKeeps(s: State)
    requires Safe(s)
    ensures Safe(ResumeAfterHalt(s))
  {
  }

  lemma SpawnKeepsTidy(s: State, i: nat)
    requires Safe(s) && s.fault == NoFault && s.pc.Setup? && i < |s.held|
    ensures SpawnTask(s, i).fault == NoFault ==> Tidy(SpawnTask(s, i))
  {
    hide NoneLost, NoneForgotten;
  }

  lemma SpawnKeepsAttended(s: State, i: nat)
    requires Safe(s) && s.fault == NoFault && s.pc.Setup? && i < |s.held|
    ensures SpawnTask(s, i).fault == NoFault ==> Attended(SpawnTask(s, i))
  {
    hide Conserved;
  }

  lemma SpawnKeeps(s: State, i: nat)
    requires Safe(s) && s.fault == NoFault && s.pc.Setup? && i < |s.held|
    ensures SpawnTask(s, i).fault == NoFault ==> Safe(SpawnTask(s, i))
  {
    hide Tidy, Attended;
    SpawnKeepsTidy(s, i);
    SpawnKeepsAttended(s, i);
  }

  // Popping an ID: the popped task becomes current, every other ID stays queued.
  lemma PopKeeps(s: State)
    requires Safe(s) && s.fault == NoFault && s.pc.LoopHead?
    ensures Safe(ExecLoop(s))
  {
    if s.taskQueue != [] {
      assert s.taskQueue == [s.taskQueue[0]] + s.taskQueue[1..];
    }
  }

  lemma LookupKeepsTidy(s: State)
    requires Safe(s) && s.fault == NoFault && s.pc.Popped?
    ensures Tidy(ExecLoop(s))
  {
    hide NoneLost, NoneForgotten, FinishedGone;
  }

  lemma LookupKeepsAttended(s: State)
    requires Safe(s) && s.fault == NoFault && s.pc.Popped?
    ensures Attended(ExecLoop(s))
  {
    hide Conserved;
  }

  lemma LookupKeeps(s: State)
    requires Safe(s) && s.fault == NoFault && s.pc.Popped?
    ensures Safe(ExecLoop(s))
  {
    hide Tidy, Attended;
    LookupKeepsTidy(s);
    LookupKeepsAttended(s);
  }

  lemma ResumeKeeps(s: State)
    requires Safe(s) && s.fault == NoFault && s.pc.Resume?
    ensures ExecResume(s).fault == NoFault ==> Safe(ExecResume(s))
  {
  }

  lemma PollNextKeepsTidy(s: State)
    requires Safe(s) && s.fault == NoFault && InPollNext(s.pc)
    ensures ExecPollNext(s).fault == NoFault && Tidy(ExecPollNext(s))
  {
    hide NoneLost, NoneForgotten, FinishedGone;
  }

  lemma PollNextKeepsAttended(s: State)
    requires Safe(s) && s.fault == NoFault && InPollNext(s.pc)
    ensures ExecPollNext(s).fault == NoFault && Attended(ExecPollNext(s))
  {
    hide Conserved;
  }

  lemma PollNextKeeps(s: State)
    requires Safe(s) && s.fault == NoFault && InPollNext(s.pc)
    ensures ExecPollNext(s).fault == NoFault && Safe(ExecPollNext(s))
  {
    hide Tidy, Attended;
    PollNextKeepsTidy(s);
    PollNextKeepsAttended(s);
  }

  lemma ReturnedKeepsTidy(s: State)
    requires Safe(s) && s.fault == NoFault && (s.pc.Returned? || s.pc.DropWaker?)
    ensures Tidy(ExecReturned(s))
  {
    hide NoneLost, NoneForgotten, FinishedGone;
  }

  lemma ReturnedKeepsAttended(s: State)
    requires Safe(s) && s.fault == NoFault && (s.pc.Returned? || s.pc.DropWaker?)
    ensures Attended(ExecReturned(s))
  {
    hide Conserved;
  }

  lemma ReturnedKeeps(s: State)
    requires Safe(s) && s.fault == NoFault && (s.pc.Returned? || s.pc.DropWaker?)
    ensures Safe(ExecReturned(s))
  {
    hide Tidy, Attended;
    ReturnedKeepsTidy(s);
    ReturnedKeepsAttended(s);
  }

  // `sleep_if_idle` moves the program counter and the interrupt flag only.
  lemma SleepKeeps(s: State)
    requires Safe(s) && s.fault == NoFault && InSleep(s.pc)
    ensures Safe(ExecSleep(s))
  {
    var s' := ExecSleep(s);
    assert Bounded(s');
    SameButPc(s, s');
  }

  // Moving between program points that are outside every poll keeps what is not about the program point.
  lemma SameButPc(s: State, s': State)
    requires Safe(s) && s' == s.(pc := s'.pc, enabled := s'.enabled) && Bounded(s')
    requires !s.pc.Setup? && !s'.pc.Setup? && !s.pc.DropWaker? && !s'.pc.DropWaker?
    requires Current(s.pc).None? && Current(s'.pc).None?
    ensures Safe(s')
  {
  }

  lemma ExecKeeps(s: State)
    requires Safe(s) && s.fault == NoFault && CanExec(s)
    ensures ExecStep(s).fault == NoFault ==> Safe(ExecStep(s))
    ensures ExecStep(s).fault in {NoFault, StreamTwice}
  {
    hide Safe;
    if s.pc.LoopHead? {
      PopKeeps(s);
    } else if s.pc.Popped? {
      LookupKeeps(s);
    } else if s.pc.Resume? {
      ResumeKeeps(s);
    } else if InPollNext(s.pc) {
      PollNextKeeps(s);
    } else if s.pc.Returned? || s.pc.DropWaker? {
      ReturnedKeeps(s);
    } else {
      SleepKeeps(s);
    }
  }

  lemma CreateKeeps(s: State, future: Future)
    requires Safe(s) && (s.pc.Setup? || s.pc.OtherPoll?) && future != Keyboard(true)
    ensures Safe(Create(s, future))
  {
  }

  lemma BeginRunKeeps(s: State)
    requires Safe(s) && s.pc.Setup?
    ensures Safe(s.(pc := LoopHead))
  {
  }

  lemma ReturnKeeps(s: State, ready: bool)
    requires Safe(s) && s.pc.OtherPoll?
    ensures Safe(s.(pc := Returned(s.pc.id, ready)))
  {
  }

  lemma NextKeepsSafe(s: State, action: Action)
    requires Safe(s) && Next(s, action).Some?
    ensures var s' := Next(s, action).value; s'.fault == NoFault ==> Safe(s')
    ensures Next(s, action).value.fault != NotInitialised
  {
    hide Safe, ExecStep, Bounded, Conserved, OneStream, Wakers, NoneLost, NoneForgotten, FinishedGone, PcMatches;
    match action {
      case KeyPress(code) =>
        ResumeAfterHaltKeeps(s);
        KeyPressKeeps(ResumeAfterHalt(s), code);
      case Tick => ResumeAfterHaltKeeps(s);
      case CreateTask(future) => CreateKeeps(s, future);
      case Spawn(i) => SpawnKeeps(s, i);
      case BeginRun => BeginRunKeeps(s);
      case Wake(id) => PushKeeps(s, id);
      case Return(ready) => ReturnKeeps(s, ready);
      case Exec => ExecKeeps(s);
    }
  }

  lemma NextKeepsIds(s: State, action: Action)
    requires UniqueIds(s) && PcMatches(s) && Next(s, action).Some?
    ensures UniqueIds(Next(s, action).value) || Next(s, action).value.fault != NoFault
    ensures Next(s, action).value.created <= WORD_LIMIT ==> Next(s, action).value.fault != DuplicateTask
    ensures s.created <= Next(s, action).value.created
  {
    hide UniqueIds, PcMatches, ExecStep;
    match action {
      case CreateTask(future) => CreateKeepsIds(s, future);
      case Spawn(i) => SpawnKeepsIds(s, i);
      case Exec => ExecKeepsIds(s);
      case _ => FewerTasksKeepIds(s, Next(s, action).value);
    }
  }

  lemma CreateKeepsIds(s: State, future: Future)
    requires UniqueIds(s)
    ensures UniqueIds(Create(s, future))
  {
    if s.created < WORD_LIMIT {
      assert s.nextId == s.created;
    }
  }

  lemma SpawnKeepsIds(s: State, i: nat)
    requires UniqueIds(s) && i < |s.held| && s.fault == NoFault
    ensures UniqueIds(SpawnTask(s, i))
    ensures s.created <= WORD_LIMIT ==> SpawnTask(s, i).fault != DuplicateTask
  {
  }

  lemma ExecKeepsIds(s: State)
    requires UniqueIds(s) && PcMatches(s) && CanExec(s) && s.fault == NoFault
    ensures ExecStep(s).fault == NoFault ==> UniqueIds(ExecStep(s))
    ensures ExecStep(s).fault != DuplicateTask && ExecStep(s).created == s.created
  {
    hide UniqueIds;
    ExecAddsNoTask(s);
    FewerTasksKeepIds(s, ExecStep(s));
  }

  predicate AddsNoTask(s: State, s': State) {
    && s'.held == s.held && s'.nextId == s.nextId && s'.created == s.created
    && s'.fault != DuplicateTask && forall id :: id in s'.tasks ==> id in s.tasks
  }

  // The kernel's own steps make no task and only forget tasks.
  lemma ExecAddsNoTask(s: State)
    requires PcMatches(s) && CanExec(s) && s.fault == NoFault
    ensures AddsNoTask(s, ExecStep(s))
  {
    hide AddsNoTask, PcMatches;
    if s.pc.LoopHead? || s.pc.Popped? {
      LoopAddsNoTask(s);
    } else if s.pc.Resume? {
      ResumeAddsNoTask(s);
    } else if InPollNext(s.pc) {
      PollNextAddsNoTask(s);
    } else if s.pc.Returned? || s.pc.DropWaker? {
      ReturnedAddsNoTask(s);
    } else {
      SleepAddsNoTask(s);
    }
  }

  lemma LoopAddsNoTask(s: State)
    requires s.fault == NoFault && (s.pc.LoopHead? || s.pc.Popped?)
    ensures AddsNoTask(s, ExecLoop(s))
  {
  }

  lemma ResumeAddsNoTask(s: State)
    requires s.fault == NoFault && s.pc.Resume? && PcMatches(s)
    ensures AddsNoTask(s, ExecResume(s))
  {
  }

  lemma PollNextAddsNoTask(s: State)
    requires s.fault == NoFault && InPollNext(s.pc)
    ensures AddsNoTask(s, ExecPollNext(s))
  {
  }

  lemma ReturnedAddsNoTask(s: State)
    requires s.fault == NoFault && (s.pc.Returned? || s.pc.DropWaker?)
    ensures AddsNoTask(s, ExecReturned(s))
  {
  }

  lemma SleepAddsNoTask(s: State)
    requires s.fault == NoFault && InSleep(s.pc)
    ensures AddsNoTask(s, ExecSleep(s))
  {
  }

  lemma FewerTasksKeepIds(s: State, s': State)
    requires UniqueIds(s) && s'.held == s.held && s'.nextId == s.nextId && s'.created == s.created
    requires forall id :: id in s'.tasks ==> id in s.tasks
    ensures UniqueIds(s')
  {
  }

  lemma NextKeepsInv(s: State, action: Action)
    requires Inv(s) && Next(s, action).Some?
    ensures Inv(Next(s, action).value)
  {
    hide UniqueIds;
    NextKeepsSafe(s, action);
    NextKeepsIds(s, action);
  }

  /** Every run keeps the invariant, whatever the interrupts and the other futures do. */
  lemma {:induction false} RunKeepsInv(s: State, actions: seq<Action>)
    requires Inv(s) && Run(s, actions).Some?
    ensures Inv(Run(s, actions).value)
    decreases |actions|
  {
    if actions == [] {
    } else {
      NextKeepsInv(s, actions[0]);
      RunKeepsInv(Next(s, actions[0]).value, actions[1..]);
    }
  }

  lemma ReachableIsSafe(s: State)
    requires Reachable(s)
    ensures Inv(s)
  {
    InitialIsSafe();
    var actions :| Run(INITIAL, actions) == Some(s);
    RunKeepsInv(INITIAL, actions);
  }

  // -------- What it means --------

  /** No wake-up is lost: in every reachable state, a keyboard task that is not being worked on, or whose
      poll has returned, has its ID queued, or else no scancode is waiting and its own cached waker is
      registered. */
  lemma NoWakeupIsLost(s: State, k: TaskId)
    requires Reachable(s) && s.fault == NoFault && Started(s.tasks, k)
    requires Current(s.pc) != Some(k) || s.pc.Returned?
    ensures k in s.taskQueue
            || (Queue(s) == [] && k in s.wakerCache && s.slot == Some(s.wakerCache[k]))
  {
    ReachableIsSafe(s);
    assert NotLost(s, k);
  }

  /** Outside every poll, an empty task queue means that every accepted scancode has been consumed and
      that the keyboard task, if there is one, is registered. */
  lemma IdleIsDrained(s: State)
    requires Reachable(s) && s.fault == NoFault && s.taskQueue == [] && Current(s.pc).None?
    ensures s.accepted == s.consumed
    ensures forall k :: k in s.tasks && Started(s.tasks, k) ==> k in s.wakerCache && s.slot == Some(s.wakerCache[k])
  {
    ReachableIsSafe(s);
    forall k | k in s.tasks && Started(s.tasks, k)
      ensures k in s.wakerCache && s.slot == Some(s.wakerCache[k]) && Queue(s) == []
    {
      assert NotLost(s, k);
    }
    NoOwnerNoScancodes(s);
  }

  /** The CPU halts only with nothing to do. Between the second look at the task queue and `hlt` no
      interrupt can happen; at `hlt` no ID is queued, every task has been polled, every accepted
      scancode has been consumed, and the keyboard task, if there is one, is registered. */
  lemma HaltIsSound(s: State)
    requires Reachable(s) && s.fault == NoFault
    ensures s.pc.Recheck? || s.pc.EnableAndHalt? ==>
      Next(s, Tick).None? && forall code :: Next(s, KeyPress(code)).None?
    ensures s.pc.EnableAndHalt? || s.pc.Halted? ==>
      && s.taskQueue == [] && s.accepted == s.consumed
      && (forall id :: id in s.tasks ==> id in s.wakerCache && s.tasks[id] != Keyboard(false))
      && (forall k :: k in s.tasks && Started(s.tasks, k) ==> s.slot == Some(s.wakerCache[k]))
  {
    ReachableIsSafe(s);
    if s.pc.EnableAndHalt? || s.pc.Halted? {
      IdleIsDrained(s);
    }
  }

  // Without an owner the stream was never made: the keyboard task never finishes.
  lemma NoOwnerNoScancodes(s: State)
    requires Reachable(s) && s.fault == NoFault
    ensures s.scancodes.Some? ==> exists k :: k in s.tasks && Started(s.tasks, k)
  {
    var actions :| Run(INITIAL, actions) == Some(s);
    InitialIsSafe();
    OwnerStays(INITIAL, actions);
  }

  ghost predicate Owned(s: State) {
    s.scancodes.Some? ==> exists k :: k in s.tasks && Started(s.tasks, k)
  }

  lemma ExecKeepsOwner(s: State)
    requires PcMatches(s) && Owned(s) && CanExec(s) && ExecStep(s).fault == NoFault
    ensures Owned(ExecStep(s))
  {
    var s' := ExecStep(s);
    if s.scancodes.Some? {
      var k :| k in s.tasks && Started(s.tasks, k);
      assert Started(s'.tasks, k);
    } else if s'.scancodes.Some? {
      assert Started(s'.tasks, s.pc.id);
    }
  }

  lemma NextKeepsOwner(s: State, action: Action)
    requires Safe(s) && Owned(s) && Next(s, action).Some? && Next(s, action).value.fault == NoFault
    ensures Owned(Next(s, action).value)
  {
    hide ExecStep, Bounded, Conserved, OneStream, Wakers, NoneLost, NoneForgotten, FinishedGone, PcMatches;
    var s' := Next(s, action).value;
    if action.Exec? {
      ExecKeepsOwner(s);
    } else if s.scancodes.Some? {
      var k :| k in s.tasks && Started(s.tasks, k);
      assert Started(s'.tasks, k);
    }
  }

  lemma {:induction false} OwnerStays(s: State, actions: seq<Action>)
    requires Inv(s) && (s.fault == NoFault ==> Owned(s)) && Run(s, actions).Some?
    ensures Run(s, actions).value.fault == NoFault ==> Owned(Run(s, actions).value)
    decreases |actions|
  {
    if actions == [] {
    } else {
      NextKeepsInv(s, actions[0]);
      var s' := Next(s, actions[0]).value;
      if s'.fault == NoFault {
        NextKeepsOwner(s, actions[0]);
      }
      OwnerStays(s', actions[1..]);
    }
  }

  /** A scancode accepted while halted queues the keyboard task and ends the halt. */
  lemma KeyPressEndsHalt(s: State, code: byte)
    requires Reachable(s) && s.fault == NoFault && s.pc.Halted?
    ensures Next(s, KeyPress(code)).Some?
    ensures var s' := Next(s, KeyPress(code)).value;
            && s'.fault == NoFault && s'.pc == LoopHead
            && (s'.accepted != s.accepted ==> exists k: TaskId :: Started(s'.tasks, k) && s'.taskQueue == [k])
  {
    HaltIsSound(s);
    ReachableIsSafe(s);
    if s.scancodes.Some? {
      NoOwnerNoScancodes(s);
      var k :| k in s.tasks && Started(s.tasks, k);
      assert Started(Next(s, KeyPress(code)).value.tasks, k);
    }
  }

  /** Accepted scancodes are the consumed ones, then the one being delivered, then the queue, in
      order; a key press is dropped exactly when the queue is not there yet or full. */
  lemma ScancodesAreConserved(s: State, code: byte)
    requires Reachable(s) && s.fault == NoFault
    ensures s.accepted == s.consumed + InFlight(s.pc) + Queue(s)
    ensures s.enabled ==>
      var s' := Next(s, KeyPress(code)).value;
      s'.accepted == if s.scancodes.None? || |s.scancodes.value| == 100 then s.accepted
                     else s.accepted + [code]
  {
    ReachableIsSafe(s);
  }

  /** A future's wake-up takes effect: the waker of any task that has been polled, finished or not, queues
      the task's ID behind what is queued already, or panics on a full queue, and changes nothing else. */
  lemma WakeQueues(s: State, id: TaskId)
    requires Reachable(s) && s.fault == NoFault && s.pc.OtherPoll? && (id in s.wakerCache || id in s.finished)
    ensures |s.taskQueue| < 100 ==> Next(s, Wake(id)) == Some(s.(taskQueue := s.taskQueue + [id]))
    ensures |s.taskQueue| >= 100 ==> Next(s, Wake(id)) == Some(s.(fault := TaskQueueFull))
  {
    ReachableIsSafe(s);
  }

  /** A spawn that does not panic stores the very future under the task's ID and queues the ID. */
  lemma SpawnStores(s: State, i: nat)
    requires s.fault == NoFault && s.pc.Setup? && i < |s.held|
    ensures var task, s' := s.held[i], Next(s, Spawn(i));
            && s'.Some?
            && (s'.value.fault == NoFault <==> task.id !in s.tasks && |s.taskQueue| < 100)
            && (s'.value.fault == NoFault ==>
                s'.value == s.(held := s.held[..i] + s.held[i + 1..], tasks := s.tasks[task.id := task.future],
                               taskQueue := s.taskQueue + [task.id]))
  {
  }

  /** The interrupt handler never drops the last reference to a waker: what it takes out of the slot
      is still in the cache afterwards, so the handler does not touch the heap. */
  lemma HandlerFreesNoWaker(s: State, code: byte)
    requires Reachable(s) && s.fault == NoFault && s.slot.Some? && s.enabled
    ensures var s', w := Next(s, KeyPress(code)).value, s.slot.value;
            && w.id in s'.wakerCache && s'.wakerCache[w.id] == w
            && s'.wakersMade == s.wakersMade && s'.tasks == s.tasks
  {
    ReachableIsSafe(s);
  }

  /** Run to completion: a finished task is never polled again, whatever IDs are still queued, and at
      the head of the loop every cached waker belongs to a task. */
  lemma FinishedIsNeverPolled(s: State)
    requires Reachable(s) && s.fault == NoFault
    ensures Current(s.pc).Some? && !s.pc.Popped? ==> s.pc.id !in s.finished
    ensures s.pc.LoopHead? ==> s.wakerCache.Keys <= s.tasks.Keys
    ensures forall id :: id in s.finished && Next(s, Exec).Some? && s.pc == Popped(id) ==>
              Next(s, Exec).value.pc == LoopHead
  {
    ReachableIsSafe(s);
  }

  /** With at most 2^64 tasks made, `spawn` never finds its ID taken, and `poll_next` never finds the
      queue missing. */
  lemma SpawnNeverFindsDuplicate(s: State)
    requires Reachable(s)
    ensures s.created <= WORD_LIMIT ==> s.fault != DuplicateTask
    ensures s.fault != NotInitialised
  {
    ReachableIsSafe(s);
  }
}
