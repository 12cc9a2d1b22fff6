/** The kernel comes to rest: no interleaving of interrupts and other futures keeps it busy for longer
    than they themselves give it work, and where it stops it has halted with nothing to do. */
module KernelProgress {
  import opened ByteMemory
  import opened Layouts
  import opened KernelMachine
  import opened KernelSafety
  import opened KernelRuns

  // The kernel's own steps, and the return of a future it has polled.
  predicate Own(action: Action) {
    action.Exec? || action.Return?
  }

  function OwnSteps(actions: seq<Action>): (r: nat)
    ensures r <= |actions|
  {
    if actions == [] then 0 else (if Own(actions[0]) then 1 else 0) + OwnSteps(actions[1..])
  }

  // How far a program point is from `hlt`, if the task queue stays empty, or from the head of the loop.
  function PcRank(pc: Pc, idle: bool): (r: nat) {
    match pc
    case Halted => 0
    case EnableAndHalt => 1
    case Recheck => if idle then 2 else 7
    case Disable => if idle then 3 else 8
    case CheckIdle => if idle then 4 else 6
    case Setup | LoopHead => 5
    case Enable | DropWaker(_) => 6
    case Returned(_, _) => 7
    case SecondPop(_) | OtherPoll(_) => 8
    case Register(_) => 9
    case FastPop(_) => 10
    case Resume(_) | Deliver(_, _) => 11
    case Popped(_) | TakeWaker(_, _) => 12
  }

  // An upper bound on the steps the kernel still has to make, left alone.
  function Rank(s: State): (r: nat) {
    if s.fault != NoFault then 0
    else 10 * |s.taskQueue| + 5 * |Queue(s)| + PcRank(s.pc, s.taskQueue == [])
  }

  lemma ExecLowersRank(s: State)
    requires s.fault == NoFault && CanExec(s)
    ensures Rank(ExecStep(s)) < Rank(s)
  {
    hide ExecPollNext;
    if InPollNext(s.pc) {
      PollNextLowersRank(s);
    }
  }

  lemma PollNextLowersRank(s: State)
    requires s.fault == NoFault && InPollNext(s.pc)
    ensures Rank(ExecPollNext(s)) < Rank(s)
  {
  }

  // A key press may queue one scancode and one ID, and end a halt.
  lemma PressRaisesRank(s: State, code: byte)
    requires s.fault == NoFault
    ensures Rank(AddScancode(ResumeAfterHalt(s), code)) <= Rank(s) + 20
  {
  }

  lemma NextMovesRank(s: State, action: Action)
    requires Next(s, action).Some?
    ensures var s' := Next(s, action).value;
            if Own(action) then Rank(s') < Rank(s) else Rank(s') <= Rank(s) + 20
  {
    hide ExecStep, AddScancode;
    match action {
      case KeyPress(code) => PressRaisesRank(s, code);
      case Exec => ExecLowersRank(s);
      case _ =>
    }
  }

  /** Over every run, panicking or not: the kernel's own steps are paid for by where it started and by what
      the environment did, 20 steps for each of its actions. After finitely many of those every
      interleaving is over within a known number of steps. */
  lemma {:induction false} OwnStepsAreBounded(s: State, actions: seq<Action>)
    requires Run(s, actions).Some?
    ensures OwnSteps(actions) + Rank(Run(s, actions).value) <= Rank(s) + 20 * (|actions| - OwnSteps(actions))
    decreases |actions|
  {
    hide Next, Rank;
    if actions == [] {
    } else {
      NextMovesRank(s, actions[0]);
      OwnStepsAreBounded(Next(s, actions[0]).value, actions[1..]);
    }
  }

  /** And it is over only at rest: in a reachable state after `run` has begun, the kernel has no step of its
      own to make if and only if it has panicked or halted, and a halt means nothing queued, every task
      polled and every accepted scancode consumed. */
  lemma StopsOnlyAtRest(s: State)
    requires Reachable(s) && !s.pc.Setup?
    ensures (forall action :: Own(action) ==> Next(s, action).None?) <==> s.fault != NoFault || s.pc.Halted?
    ensures Rank(s) == 0 <==> s.fault != NoFault || s.pc.Halted?
    ensures s.fault == NoFault && s.pc.Halted? ==>
      && s.taskQueue == [] && s.accepted == s.consumed
      && (forall id :: id in s.tasks ==> id in s.wakerCache && s.tasks[id] != Keyboard(false))
  {
    hide ExecStep, Reachable;
    if s.fault == NoFault && s.pc.Halted? {
      HaltIsSound(s);
      ScancodesAreConserved(s, 0);
      assert |s.accepted| == |s.consumed| + |Queue(s)|;
    } else {
      assert s.fault == NoFault ==> Next(s, if s.pc.OtherPoll? then Return(false) else Exec).Some?;
    }
  }

  /** Left alone, with other futures pending whenever they are polled, the kernel does come to rest, within
      `Rank` steps. */
  lemma {:induction false} ComesToRest(s: State) returns (actions: seq<Action>)
    requires Reachable(s) && !s.pc.Setup?
    ensures (forall i :: 0 <= i < |actions| ==> actions[i] == Exec || actions[i] == Return(false))
    ensures |actions| <= Rank(s) && Run(s, actions).Some?
    ensures var s' := Run(s, actions).value;
            s'.fault != NoFault || (s'.pc.Halted? && s'.taskQueue == [] && s'.accepted == s'.consumed)
    decreases Rank(s)
  {
    hide Next, Rank, Reachable;
    StopsOnlyAtRest(s);
    if s.fault != NoFault || s.pc.Halted? {
      actions := [];
    } else {
      var action := if s.pc.OtherPoll? then Return(false) else Exec;
      OwnStepHappens(s, action);
      NextMovesRank(s, action);
      var rest := ComesToRest(Next(s, action).value);
      actions := [action] + rest;
      assert actions[1..] == rest;
    }
  }

  lemma OwnStepHappens(s: State, action: Action)
    requires Reachable(s) && s.fault == NoFault && !s.pc.Setup? && !s.pc.Halted?
    requires action == if s.pc.OtherPoll? then Return(false) else Exec
    ensures Next(s, action).Some? && !Next(s, action).value.pc.Setup? && Reachable(Next(s, action).value)
  {
    hide ExecStep;
    ExecNeverSetsUp(s);
    var log :| Run(INITIAL, log) == Some(s);
    RunConcat(INITIAL, log, [action]);
    RunOne(s, action);
  }

  // -------- Every queued ID is polled --------

  // The n-th action looks a popped ID up and, if its task exists, enters the task's poll.
  ghost predicate PolledAt(s: State, actions: seq<Action>, n: nat, id: TaskId) {
    && n < |actions| && Run(s, actions[..n]).Some?
    && var t := Run(s, actions[..n]).value;
       && t.pc == Popped(id) && actions[n].Exec? && Next(t, Exec).Some?
       && Next(t, Exec).value.pc ==
          if id !in t.tasks then LoopHead else if t.tasks[id].Keyboard? then Resume(id) else OtherPoll(id)
  }

  lemma PolledLater(s: State, a: seq<Action>, b: seq<Action>, n: nat, id: TaskId)
    requires Run(s, a).Some? && PolledAt(Run(s, a).value, b, n, id)
    ensures PolledAt(s, a + b, |a| + n, id)
  {
    hide Run, Next;
    assert (a + b)[..|a| + n] == a + b[..n];
    RunConcat(s, a, b[..n]);
  }

  // At a popped ID only interrupts and the look-up happen.
  lemma PoppedWaits(s: State, action: Action)
    requires s.pc.Popped? && Next(s, action).Some?
    ensures action.Exec? ==> PolledAt(s, [action], 0, s.pc.id) && !Next(s, action).value.pc.Popped?
    ensures !action.Exec? ==> Next(s, action).value.pc == s.pc
  {
    hide ExecResume, ExecPollNext, ExecReturned, ExecSleep;
    assert [action][..0] == [];
  }

  lemma {:induction false} PoppedIsPolled(s: State, actions: seq<Action>) returns (n: nat)
    requires s.pc.Popped? && Run(s, actions).Some? && !Run(s, actions).value.pc.Popped?
    ensures PolledAt(s, actions, n, s.pc.id)
    decreases |actions|
  {
    hide Next, PolledAt;
    PoppedWaits(s, actions[0]);
    RunOne(s, actions[0]);
    assert actions == [actions[0]] + actions[1..];
    if actions[0].Exec? {
      n := 0;
      PolledSooner(s, [actions[0]], actions[1..], 0, s.pc.id);
    } else {
      var m := PoppedIsPolled(Next(s, actions[0]).value, actions[1..]);
      PolledLater(s, [actions[0]], actions[1..], m, s.pc.id);
      n := 1 + m;
    }
  }

  lemma PolledSooner(s: State, a: seq<Action>, b: seq<Action>, n: nat, id: TaskId)
    requires PolledAt(s, a, n, id)
    ensures PolledAt(s, a + b, n, id)
  {
    hide Run, Next;
    assert (a + b)[..n] == a[..n];
  }

  /** Whatever happens meanwhile, by the time the task queue is found empty outside every poll, each ID
      that was queued has been looked up and, if its task still existed, its task polled. */
  lemma QueuedIsPolled(s: State, actions: seq<Action>, id: TaskId) returns (n: nat)
    requires Run(s, actions).Some? && id in s.taskQueue
    requires Run(s, actions).value.taskQueue == [] && Current(Run(s, actions).value.pc).None?
    ensures PolledAt(s, actions, n, id)
  {
    hide Run, Next, PolledAt;
    var i :| 0 <= i < |s.taskQueue| && s.taskQueue[i] == id;
    WakeupsAreServedInOrder(s, actions, i);
    var k: nat :| ServedAt(s, actions, k, i, id);
    var a, b := actions[..k + 1], actions[k + 1..];
    assert actions == a + b && a == actions[..k] + [actions[k]];
    RunSplits(s, a, b);
    var t := Run(s, actions[..k]).value;
    RunConcat(s, actions[..k], [actions[k]]);
    RunOne(t, actions[k]);
    StepMovesQueue(t, actions[k]);
    var m := PoppedIsPolled(Run(s, a).value, b);
    PolledLater(s, a, b, m, id);
    n := |a| + m;
  }

  lemma {:induction false} RunSplits(s: State, a: seq<Action>, b: seq<Action>)
    requires Run(s, a + b).Some?
    ensures Run(s, a).Some? && Run(s, a + b) == Run(Run(s, a).value, b)
    decreases |a|
  {
    hide Next;
    if a == [] {
      assert a + b == b;
    } else {
      assert (a + b)[1..] == a[1..] + b;
      RunSplits(Next(s, a[0]).value, a[1..], b);
    }
  }

  /** A future that wakes a task that has been polled before, itself or another, has it polled again before
      the kernel next halts, if it is not finished by then. */
  lemma WokenIsPolledAgain(s: State, id: TaskId, actions: seq<Action>) returns (n: nat)
    requires Reachable(s) && s.fault == NoFault && s.pc.OtherPoll? && (id in s.wakerCache || id in s.finished)
    requires Run(s, [Wake(id)] + actions).Some?
    requires var s' := Run(s, [Wake(id)] + actions).value; s'.fault == NoFault && s'.pc.Halted?
    ensures 0 < n && PolledAt(s, [Wake(id)] + actions, n, id)
  {
    hide Run, Next, PolledAt, Reachable;
    RunSplits(s, [Wake(id)], actions);
    RunOne(s, Wake(id));
    WakeQueues(s, id);
    var s1 := Next(s, Wake(id)).value;
    FaultIsLast(s1, actions);
    HaltAfter(s, [Wake(id)] + actions);
    assert s1.taskQueue[|s1.taskQueue| - 1] == id;
    var m := QueuedIsPolled(s1, actions, id);
    PolledLater(s, [Wake(id)], actions, m, id);
    n := 1 + m;
  }

  lemma HaltAfter(s: State, actions: seq<Action>)
    requires Reachable(s) && Run(s, actions).Some?
    requires Run(s, actions).value.fault == NoFault && Run(s, actions).value.pc.Halted?
    ensures Run(s, actions).value.taskQueue == []
  {
    hide Run, Next;
    var log :| Run(INITIAL, log) == Some(s);
    RunConcat(INITIAL, log, actions);
    HaltIsSound(Run(s, actions).value);
  }
}
