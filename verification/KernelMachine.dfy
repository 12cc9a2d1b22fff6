/** The cooperative executor, the keyboard stream and the interrupts between their steps
    (`task/executor.rs`, `task/keyboard.rs`, `task/mod.rs`, `interrupts.rs`), as one machine.

    Every action below is one step that an interrupt cannot divide; between two of them, while
    interrupts are enabled, the keyboard or the timer may interrupt. A panic is a state that
    nothing leaves. */
module KernelMachine {
  import opened Alignment
  import opened ByteMemory
  import opened Layouts

  type TaskId = nat

  const QUEUE_CAPACITY: nat := 100

  // `print_keypresses` (whose body has run up to its first await once `started`), or another future.
  datatype Future = Keyboard(started: bool) | Other

  datatype Task = Task(id: TaskId, future: Future)

  // A reference-counted `TaskWaker`; the serial number tells one allocation from the next.
  datatype Waker = Waker(id: TaskId, serial: nat)

  datatype Fault = NoFault | DuplicateTask | TaskQueueFull | StreamTwice | NotInitialised

  datatype Pc =
    | Setup                               // before `run`
    | LoopHead                            // `while let Ok(task_id) = task_queue.pop()`
    | Popped(id: TaskId)                  // before `tasks.get_mut`
    | Resume(id: TaskId)                  // `poll` of the keyboard task
    | FastPop(id: TaskId)                 // first pop of `poll_next`
    | Register(id: TaskId)                // `WAKER.register`
    | SecondPop(id: TaskId)               // pop after registering
    | TakeWaker(id: TaskId, code: byte)   // `WAKER.take`
    | Deliver(id: TaskId, code: byte)     // the body of the loop of `print_keypresses`
    | OtherPoll(id: TaskId)               // inside `poll` of another future
    | Returned(id: TaskId, ready: bool)   // the match on the poll's result
    | DropWaker(id: TaskId)               // between the two removals of a finished task
    | CheckIdle                           // first `is_empty` of `sleep_if_idle`
    | Disable                             // `interrupts::disable`
    | Recheck                             // second `is_empty`
    | Enable                              // `interrupts::enable`
    | EnableAndHalt                       // `enable_and_hlt`
    | Halted

  datatype State = State(
    pc: Pc,
    enabled: bool,                 // the CPU's interrupt flag
    fault: Fault,
    nextId: TaskId,                // `NEXT_ID`
    created: nat,                  // calls of `TaskId::new` so far
    held: seq<Task>,               // tasks made and not yet spawned
    tasks: map<TaskId, Future>,
    taskQueue: seq<TaskId>,
    wakerCache: map<TaskId, Waker>,
    wakersMade: nat,
    issued: set<TaskId>,           // tasks that have been handed a waker
    scancodes: Option<seq<byte>>,  // `SCANCODE_QUEUE`
    slot: Option<Waker>,           // `WAKER`
    accepted: seq<byte>,           // scancodes pushed so far
    consumed: seq<byte>,           // scancodes the keyboard task has taken so far
    finished: set<TaskId>)         // tasks whose poll returned Ready

  datatype Action =
    | KeyPress(code: byte) | Tick                 // interrupts
    | CreateTask(future: Future) | Spawn(i: nat)  // `Task::new`, `Executor::spawn`
    | BeginRun                                    // `Executor::run`
    | Wake(id: TaskId) | Return(ready: bool)      // what another future does when polled; a waker
                                                  // that was never issued wakes nothing
    | Exec                                        // the kernel's own next step

  const INITIAL := State(Setup, true, NoFault, 0, 0, [], map[], [], map[], 0, {}, None, None, [], [], {})

  // `task_queue.push(id).expect(..)`.
  function Push(s: State, id: TaskId): (s': State) {
    if |s.taskQueue| >= QUEUE_CAPACITY then s.(fault := TaskQueueFull)
    else s.(taskQueue := s.taskQueue + [id])
  }

  // `WAKER.wake()`: empties the slot and wakes what was in it.
  function WakeSlot(s: State): (s': State) {
    match s.slot
    case None => s
    case Some(w) => Push(s.(slot := None), w.id)
  }

  // `add_scancode`.
  function AddScancode(s: State, code: byte): (s': State) {
    match s.scancodes
    case None => s
    case Some(queue) =>
      if |queue| >= QUEUE_CAPACITY then s
      else WakeSlot(s.(scancodes := Some(queue + [code]), accepted := s.accepted + [code]))
  }

  // Returning from an interrupt that arrived during `hlt` continues after `hlt`.
  function ResumeAfterHalt(s: State): (s': State) {
    if s.pc == Halted then s.(pc := LoopHead) else s
  }

  function Create(s: State, future: Future): (s': State) {
    s.(held := s.held + [Task(s.nextId, future)],
       nextId := (s.nextId + 1) % WORD_LIMIT,
       created := s.created + 1)
  }

  function SpawnTask(s: State, i: nat): (s': State)
    requires i < |s.held|
  {
    var task := s.held[i];
    var s1 := s.(held := RemoveAt(s.held, i), tasks := s.tasks[task.id := task.future]);
    if task.id in s.tasks then s1.(fault := DuplicateTask) else Push(s1, task.id)
  }

  // `waker_cache.entry(id).or_insert_with(..)`.
  function WithWaker(s: State, id: TaskId): (s': State) {
    if id in s.wakerCache then s
    else s.(wakerCache := s.wakerCache[id := Waker(id, s.wakersMade)], wakersMade := s.wakersMade + 1,
            issued := s.issued + {id})
  }

  // The head of the loop of `run_ready_tasks`, up to the call of `poll`.
  function ExecLoop(s: State): (s': State)
    requires s.pc.LoopHead? || s.pc.Popped?
  {
    match s.pc
    case LoopHead =>
      if s.taskQueue == [] then s.(pc := CheckIdle)
      else s.(taskQueue := s.taskQueue[1..], pc := Popped(s.taskQueue[0]))
    case Popped(id) =>
      if id !in s.tasks then s.(pc := LoopHead)
      else WithWaker(s, id).(pc := if s.tasks[id].Keyboard? then Resume(id) else OtherPoll(id))
  }

  // Resuming `print_keypresses`: the first poll makes the stream.
  function ExecResume(s: State): (s': State)
    requires s.pc.Resume?
  {
    var id := s.pc.id;
    if id in s.tasks && s.tasks[id] == Keyboard(true) then s.(pc := FastPop(id))
    else if s.scancodes.Some? then s.(fault := StreamTwice)
    else s.(scancodes := Some([]), tasks := s.tasks[id := Keyboard(true)], pc := FastPop(id))
  }

  predicate InPollNext(pc: Pc) {
    pc.FastPop? || pc.Register? || pc.SecondPop? || pc.TakeWaker? || pc.Deliver?
  }

  // `poll_next` and the loop around it.
  function ExecPollNext(s: State): (s': State)
    requires InPollNext(s.pc)
  {
    if s.scancodes.None? then s.(fault := NotInitialised) else
    var queue := s.scancodes.value;
    match s.pc
    case FastPop(id) =>
      if queue == [] then s.(pc := Register(id))
      else s.(scancodes := Some(queue[1..]), pc := Deliver(id, queue[0]))
    case Register(id) =>
      s.(slot := if id in s.wakerCache then Some(s.wakerCache[id]) else None, pc := SecondPop(id))
    case SecondPop(id) =>
      if queue == [] then s.(pc := Returned(id, false))
      else s.(scancodes := Some(queue[1..]), pc := TakeWaker(id, queue[0]))
    case TakeWaker(id, code) => s.(slot := None, pc := Deliver(id, code))
    case Deliver(id, code) => s.(consumed := s.consumed + [code], pc := FastPop(id))
  }

  // After the poll.
  function ExecReturned(s: State): (s': State)
    requires s.pc.Returned? || s.pc.DropWaker?
  {
    match s.pc
    case Returned(id, ready) =>
      if ready then s.(tasks := s.tasks - {id}, finished := s.finished + {id}, pc := DropWaker(id))
      else s.(pc := LoopHead)
    case DropWaker(id) => s.(wakerCache := s.wakerCache - {id}, pc := LoopHead)
  }

  predicate InSleep(pc: Pc) {
    pc.CheckIdle? || pc.Disable? || pc.Recheck? || pc.Enable? || pc.EnableAndHalt?
  }

  // `sleep_if_idle`.
  function ExecSleep(s: State): (s': State)
    requires InSleep(s.pc)
  {
    match s.pc
    case CheckIdle => s.(pc := if s.taskQueue == [] then Disable else LoopHead)
    case Disable => s.(enabled := false, pc := Recheck)
    case Recheck => s.(pc := if s.taskQueue == [] then EnableAndHalt else Enable)
    case Enable => s.(enabled := true, pc := LoopHead)
    case EnableAndHalt => s.(enabled := true, pc := Halted)
  }

  predicate CanExec(s: State) {
    !s.pc.Setup? && !s.pc.OtherPoll? && !s.pc.Halted?
  }

  function ExecStep(s: State): (s': State)
    requires CanExec(s)
  {
    if s.pc.LoopHead? || s.pc.Popped? then ExecLoop(s)
    else if s.pc.Resume? then ExecResume(s)
    else if InPollNext(s.pc) then ExecPollNext(s)
    else if s.pc.Returned? || s.pc.DropWaker? then ExecReturned(s)
    else ExecSleep(s)
  }

  // The state after an action, None where the action cannot happen.
  function Next(s: State, action: Action): (r: Option<State>) {
    if s.fault != NoFault then None else
    match action
    case KeyPress(code) => if s.enabled then Some(AddScancode(ResumeAfterHalt(s), code)) else None
    case Tick => if s.enabled then Some(ResumeAfterHalt(s)) else None
    case CreateTask(future) =>
      if (s.pc.Setup? || s.pc.OtherPoll?) && future != Keyboard(true) then Some(Create(s, future)) else None
    case Spawn(i) => if s.pc.Setup? && i < |s.held| then Some(SpawnTask(s, i)) else None
    case BeginRun => if s.pc.Setup? then Some(s.(pc := LoopHead)) else None
    case Wake(id) => if s.pc.OtherPoll? then Some(if id in s.issued then Push(s, id) else s) else None
    case Return(ready) => if s.pc.OtherPoll? then Some(s.(pc := Returned(s.pc.id, ready))) else None
    case Exec => if CanExec(s) then Some(ExecStep(s)) else None
  }

  // The state after a run, None where some action of it cannot happen.
  function Run(s: State, actions: seq<Action>): (r: Option<State>)
    decreases |actions|
  {
    if actions == [] then Some(s) else
    match Next(s, actions[0])
    case None => None
    case Some(s') => Run(s', actions[1..])
  }

  ghost predicate Reachable(s: State) {
    exists actions :: Run(INITIAL, actions) == Some(s)
  }
}
