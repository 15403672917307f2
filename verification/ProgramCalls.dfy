// The calls of the program, read off the steps of a run alone, and that the hooks
// finish exactly these calls.
module ProgramCalls {
  import opened EventLog

  // The hook and the result of the thread's latest request to the allocator
  function LatestServed(steps: seq<Step>, t: Tid): (Hook, Addr)
  {
    if steps == [] then (MallocHook, NULL)
    else
      var front, last := steps[..|steps| - 1], steps[|steps| - 1];
      if last.LibcAlloc? && last.t == t then (last.hook, last.addr) else LatestServed(front, t)
  }

  // The thread's latest call: what it was served, with the size of the block and the
  // frames on its stack, or what it frees
  function LatestCall(steps: seq<Step>, t: Tid): Task
  {
    if steps == [] then Task(MallocHook, NULL, 0, [])
    else
      var front, last := steps[..|steps| - 1], steps[|steps| - 1];
      if last.EnterAlloc? && last.t == t then
        var (hook, a) := LatestServed(front, t);
        Task(hook, a, last.size, last.frames)
      else if last.CallFree? && last.t == t then Task(FreeHook, last.addr, last.size, last.frames)
      else LatestCall(front, t)
  }

  // The calls in the order in which their threads let go of unwind_mutex
  function CallsOf(steps: seq<Step>): seq<Task>
  {
    if steps == [] then []
    else
      var front, last := steps[..|steps| - 1], steps[|steps| - 1];
      CallsOf(front) + if last.UnlockUnwind? then [LatestCall(front, last.t)] else []
  }

  // The addresses that the program has been served and not freed
  function Kept(steps: seq<Step>): set<Addr>
  {
    if steps == [] then {}
    else
      var kept, last := Kept(steps[..|steps| - 1]), steps[|steps| - 1];
      if last.LibcAlloc? && last.addr != NULL then kept + {last.addr}
      else if last.CallFree? then kept - {last.addr}
      else kept
  }

  // The thread works on its latest call.
  ghost predicate WorksOn(p: Phase, served: (Hook, Addr), call: Task)
  {
    match p
    case Idle => true
    case Allocated(hook, a) => (hook, a) == served
    case Releasing(a) => call.hook == FreeHook && a == call.addr
    case _ => p.task == call
  }

  // The address is the program's, or about to be: a call that allocates it is under way.
  ghost predicate IsKept(s: Sys, a: Addr)
  {
    a in s.holder &&
    match s.holder[a]
    case Program => true
    case Thread(t) =>
      var p := PhaseOf(s, t);
      p.Allocated? || (InHook(p) && p.task.hook != FreeHook)
  }

  ghost predicate Tracks(s: Sys, past: seq<Step>)
  {
    && s.done == CallsOf(past)
    && (forall t: Tid :: WorksOn(PhaseOf(s, t), LatestServed(past, t), LatestCall(past, t)))
    && (forall a: Addr :: a in Kept(past) <==> IsKept(s, a))
  }

  lemma StepAdded(past: seq<Step>, step: Step, t: Tid)
    ensures LatestServed(past + [step], t) ==
      if step.LibcAlloc? && step.t == t then (step.hook, step.addr) else LatestServed(past, t)
    ensures step.t != t ==> LatestCall(past + [step], t) == LatestCall(past, t)
    ensures !step.EnterAlloc? && !step.CallFree? ==> LatestCall(past + [step], t) == LatestCall(past, t)
    ensures step.EnterAlloc? && step.t == t ==>
      var (hook, a) := LatestServed(past, t); LatestCall(past + [step], t) == Task(hook, a, step.size, step.frames)
    ensures step.CallFree? && step.t == t ==>
      LatestCall(past + [step], t) == Task(FreeHook, step.addr, step.size, step.frames)
  {
    assert (past + [step])[..|past|] == past;
  }

  lemma HistoryAdded(past: seq<Step>, step: Step)
    ensures CallsOf(past + [step]) == CallsOf(past) + if step.UnlockUnwind? then [LatestCall(past, step.t)] else []
    ensures Kept(past + [step]) ==
      if step.LibcAlloc? && step.addr != NULL then Kept(past) + {step.addr}
      else if step.CallFree? then Kept(past) - {step.addr}
      else Kept(past)
  {
    assert (past + [step])[..|past|] == past;
  }

  lemma StepWorksOn(s: Sys, past: seq<Step>, step: Step, t: Tid)
    requires Exclusive(s) && Tracks(s, past) && Enabled(s, step)
    ensures var past' := past + [step]; WorksOn(PhaseOf(Do(s, step), t), LatestServed(past', t), LatestCall(past', t))
  {
    hide LatestServed, LatestCall, CallsOf, Kept, Exclusive;
    StepAdded(past, step, t);
    CallsAreTracked(s, step.t);
    assert WorksOn(PhaseOf(s, t), LatestServed(past, t), LatestCall(past, t));
  }

  lemma StepKeeps(s: Sys, past: seq<Step>, step: Step, a: Addr)
    requires Exclusive(s) && Held(s) && Tracks(s, past) && Enabled(s, step)
    ensures a in Kept(past + [step]) <==> IsKept(Do(s, step), a)
  {
    hide LatestServed, LatestCall, CallsOf, Kept, Exclusive;
    HistoryAdded(past, step);
    OthersStay(s, step);
    CallsAreTracked(s, step.t);
    StandsInRange(s, step.t);
    assert a in Kept(past) <==> IsKept(s, a);
    assert WorksOn(PhaseOf(s, step.t), LatestServed(past, step.t), LatestCall(past, step.t));
  }

  lemma StepTracks(s: Sys, past: seq<Step>, step: Step)
    requires Exclusive(s) && Held(s) && Tracks(s, past) && Enabled(s, step)
    ensures Tracks(Do(s, step), past + [step])
  {
    hide LatestServed, LatestCall, CallsOf, Kept, Exclusive, Held, IsKept;
    var s' := Do(s, step);
    forall t: Tid ensures WorksOn(PhaseOf(s', t), LatestServed(past + [step], t), LatestCall(past + [step], t)) {
      StepWorksOn(s, past, step, t);
    }
    forall a: Addr ensures a in Kept(past + [step]) <==> IsKept(s', a) {
      StepKeeps(s, past, step, a);
    }
    HistoryAdded(past, step);
    assert WorksOn(PhaseOf(s, step.t), LatestServed(past, step.t), LatestCall(past, step.t));
  }

  lemma {:induction false} RunTracks(s: Sys, past: seq<Step>, steps: seq<Step>)
    requires Inv(s) && Tracks(s, past) && Behaviour(s, steps)
    ensures Tracks(After(s, steps), past + steps)
    decreases |steps|
  {
    hide LatestServed, LatestCall, CallsOf, Kept, Exclusive, Held, Tracks, Do, Enabled;
    if steps == [] {
      assert past + steps == past;
    } else {
      StepKeepsInv(s, steps[0]);
      StepTracks(s, past, steps[0]);
      RunTracks(Do(s, steps[0]), past + [steps[0]], steps[1..]);
      assert past + [steps[0]] + steps[1..] == past + steps;
    }
  }

  lemma NothingTracked()
    ensures Tracks(Start(), [])
  {
  }

  // In every interleaving the calls finished are those that the threads made, with their
  // sizes and frames, in the order in which they let go of unwind_mutex.
  lemma CallsAreFinished(steps: seq<Step>)
    requires Behaviour(Start(), steps)
    ensures After(Start(), steps).done == CallsOf(steps)
  {
    StartInv();
    NothingTracked();
    RunTracks(Start(), [], steps);
    assert [] + steps == steps;
  }

  // Once all hooks have returned, the program owns what it was served and has not freed.
  lemma OwnedIsKept(steps: seq<Step>)
    requires Behaviour(Start(), steps)
    requires forall t: Tid :: PhaseOf(After(Start(), steps), t) == Idle
    ensures After(Start(), steps).owned == Kept(steps)
  {
    hide LatestServed, LatestCall, CallsOf, Kept, Behaviour, After;
    StartInv();
    BehaviourKeepsInv(Start(), steps);
    NothingTracked();
    RunTracks(Start(), [], steps);
    assert [] + steps == steps;
    var s := After(Start(), steps);
    forall a: Addr ensures a in s.owned <==> a in Kept(steps) {
      assert a in Kept(steps) <==> IsKept(s, a);
    }
  }

  // In every interleaving the log, without module records, has the records of these
  // calls, one after the other, and the first records of the call under way.
  lemma LogIsOfCalls(steps: seq<Step>)
    requires Behaviour(Start(), steps)
    ensures var s := After(Start(), steps);
      match s.unwind
      case None => Events(s.log) == Flatten(CallsOf(steps))
      case Some(t) =>
        var records := Records(LatestCall(steps, t));
        exists k :: 0 <= k <= |records| && Events(s.log) == Flatten(CallsOf(steps)) + records[..k]
  {
    hide LatestServed, LatestCall, CallsOf, Behaviour, After, Records, Events, Flatten;
    LogIsGrouped(steps);
    CallsAreFinished(steps);
    StartInv();
    NothingTracked();
    RunTracks(Start(), [], steps);
    assert [] + steps == steps;
    var s := After(Start(), steps);
    if s.unwind.Some? {
      var t := s.unwind.value;
      assert InUnwind(PhaseOf(s, t)) && InRange(PhaseOf(s, t));
      assert WorksOn(PhaseOf(s, t), LatestServed(steps, t), LatestCall(steps, t));
      var records, k := Records(LatestCall(steps, t)), PhaseOf(s, t).k;
      assert k <= |records| && Events(s.log) == Flatten(CallsOf(steps)) + records[..k];
    }
  }
}
