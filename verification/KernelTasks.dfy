/** Where keyboard tasks come from: a task is one only if it was created as one, so the scancode stream
    is made only if one was created, and made twice only if two were. */
module KernelTasks {
  import opened Layouts
  import opened KernelMachine
  import opened KernelSafety

  function KeyboardsMade(actions: seq<Action>): (r: nat) {
    if actions == [] then 0
    else (if actions[0].CreateTask? && actions[0].future.Keyboard? then 1 else 0) + KeyboardsMade(actions[1..])
  }

  function KeyboardsHeld(held: seq<Task>): (r: nat) {
    if held == [] then 0 else (if held[0].future.Keyboard? then 1 else 0) + KeyboardsHeld(held[1..])
  }

  ghost function KeyboardTasks(tasks: map<TaskId, Future>): (r: set<TaskId>) {
    set id | id in tasks && tasks[id].Keyboard?
  }

  // With n keyboard tasks created: no more are held or spawned, and a second stream takes a second one.
  ghost predicate Traced(s: State, n: nat) {
    && (s.fault == NoFault ==> |KeyboardTasks(s.tasks)| + KeyboardsHeld(s.held) <= n)
    && (s.fault == StreamTwice ==> n >= 2)
  }

  lemma {:induction false} HeldAppend(a: seq<Task>, b: seq<Task>)
    ensures KeyboardsHeld(a + b) == KeyboardsHeld(a) + KeyboardsHeld(b)
  {
    if a == [] {
      assert a + b == b;
    } else {
      assert (a + b)[1..] == a[1..] + b;
      HeldAppend(a[1..], b);
    }
  }

  lemma CreateTraced(s: State, future: Future, n: nat)
    requires Traced(s, n) && s.fault == NoFault
    ensures Traced(Create(s, future), n + (if future.Keyboard? then 1 else 0))
  {
    HeldAppend(s.held, [Task(s.nextId, future)]);
  }

  lemma SpawnTraced(s: State, i: nat, n: nat)
    requires Traced(s, n) && s.fault == NoFault && i < |s.held|
    ensures Traced(SpawnTask(s, i), n)
  {
    var task := s.held[i];
    assert s.held == s.held[..i] + ([task] + s.held[i + 1..]);
    HeldAppend(s.held[..i], [task] + s.held[i + 1..]);
    HeldAppend([task], s.held[i + 1..]);
    HeldAppend(s.held[..i], s.held[i + 1..]);
    var after := KeyboardTasks(s.tasks[task.id := task.future]);
    if task.id !in s.tasks {
      if task.future.Keyboard? {
        assert after == KeyboardTasks(s.tasks) + {task.id};
      } else {
        assert after == KeyboardTasks(s.tasks);
      }
    }
  }

  // The kernel's own steps make no keyboard task.
  lemma ExecMakesNone(s: State)
    requires PcMatches(s) && CanExec(s) && s.fault == NoFault
    ensures ExecStep(s).held == s.held && KeyboardTasks(ExecStep(s).tasks) <= KeyboardTasks(s.tasks)
  {
    hide ExecLoop, ExecResume, ExecReturned;
    if s.pc.LoopHead? || s.pc.Popped? {
      LoopAddsNoTask(s);
      LoopKeepsFutures(s);
    } else if s.pc.Resume? {
      ResumeKeepsKeyboards(s);
    } else if s.pc.Returned? || s.pc.DropWaker? {
      ReturnedKeepsFutures(s);
    }
  }

  lemma LoopKeepsFutures(s: State)
    requires s.pc.LoopHead? || s.pc.Popped?
    ensures ExecLoop(s).tasks == s.tasks
  {
  }

  lemma ResumeKeepsKeyboards(s: State)
    requires PcMatches(s) && s.pc.Resume?
    ensures ExecResume(s).held == s.held && KeyboardTasks(ExecResume(s).tasks) <= KeyboardTasks(s.tasks)
  {
  }

  lemma ReturnedKeepsFutures(s: State)
    requires s.pc.Returned? || s.pc.DropWaker?
    ensures ExecReturned(s).held == s.held && KeyboardTasks(ExecReturned(s).tasks) <= KeyboardTasks(s.tasks)
  {
  }

  // Making the stream twice takes two keyboard tasks.
  lemma SecondStream(s: State)
    requires PcMatches(s) && Owned(s) && CanExec(s) && s.fault == NoFault && ExecStep(s).fault == StreamTwice
    ensures |KeyboardTasks(s.tasks)| >= 2
  {
    var k :| k in s.tasks && Started(s.tasks, k);
    SubsetCount({k, s.pc.id}, KeyboardTasks(s.tasks));
  }

  lemma {:induction false} SubsetCount(a: set<TaskId>, b: set<TaskId>)
    requires a <= b
    ensures |a| <= |b|
  {
    if a == {} {
    } else {
      var x :| x in a;
      SubsetCount(a - {x}, b - {x});
    }
  }

  lemma ExecTraced(s: State, n: nat)
    requires PcMatches(s) && Owned(s) && Traced(s, n) && CanExec(s) && s.fault == NoFault
    ensures Traced(ExecStep(s), n)
  {
    hide ExecStep, KeyboardTasks, KeyboardsHeld, PcMatches, Owned;
    ExecMakesNone(s);
    SubsetCount(KeyboardTasks(ExecStep(s).tasks), KeyboardTasks(s.tasks));
    if ExecStep(s).fault == StreamTwice {
      SecondStream(s);
    }
  }

  lemma NextTraced(s: State, action: Action, n: nat)
    requires Safe(s) && Owned(s) && Traced(s, n) && Next(s, action).Some?
    ensures Traced(Next(s, action).value, n + KeyboardsMade([action]))
  {
    hide ExecStep, Create, SpawnTask, KeyboardTasks, KeyboardsHeld, Owned, Attended, PcMatches;
    assert [action][1..] == [];
    match action {
      case CreateTask(future) => CreateTraced(s, future, n);
      case Spawn(i) => SpawnTraced(s, i, n);
      case Exec => ExecTraced(s, n);
      case _ =>
    }
  }

  lemma {:induction false} RunTraced(s: State, actions: seq<Action>, n: nat)
    requires Inv(s) && (s.fault == NoFault ==> Owned(s)) && Traced(s, n) && Run(s, actions).Some?
    ensures Traced(Run(s, actions).value, n + KeyboardsMade(actions))
    decreases |actions|
  {
    hide Next, Traced, Owned, Safe, UniqueIds;
    if actions == [] {
    } else {
      var s' := Next(s, actions[0]).value;
      assert [actions[0]][1..] == [];
      NextHappens(s, actions[0]);
      NextKeepsInv(s, actions[0]);
      NextTraced(s, actions[0], n);
      if s'.fault == NoFault {
        NextKeepsOwner(s, actions[0]);
      }
      RunTraced(s', actions[1..], n + KeyboardsMade([actions[0]]));
    }
  }

  lemma NextHappens(s: State, action: Action)
    requires Next(s, action).Some?
    ensures s.fault == NoFault
  {
  }

  /** Over every run from the start: the keyboard tasks there are were created as such; without one the
      scancode stream is never made; and the panic of making it twice takes two. */
  lemma KeyboardsWereCreated(actions: seq<Action>)
    requires Run(INITIAL, actions).Some?
    ensures var s := Run(INITIAL, actions).value;
            && (s.fault == NoFault ==> |KeyboardTasks(s.tasks)| <= KeyboardsMade(actions))
            && (s.fault == NoFault && KeyboardsMade(actions) == 0 ==>
                s.scancodes.None? && forall id :: id in s.tasks ==> s.tasks[id] == Other)
            && (s.fault == StreamTwice ==> KeyboardsMade(actions) >= 2)
  {
    hide Run, Next;
    InitialIsSafe();
    RunTraced(INITIAL, actions, 0);
    var s := Run(INITIAL, actions).value;
    if s.fault == NoFault && KeyboardsMade(actions) == 0 {
      assert KeyboardTasks(s.tasks) == {};
      forall id | id in s.tasks ensures s.tasks[id] == Other {
        assert id !in KeyboardTasks(s.tasks);
      }
      NoOwnerNoScancodes(s);
    }
  }
}
