// Runs of a single thread: every sequence of calls that a program may make is the
// history of some run.
module CallRuns {
  import opened EventLog
  import opened ProgramCalls
  import opened Tracing

  // The steps lead from one state to the other.
  ghost predicate Leads(s: Sys, steps: seq<Step>, s': Sys)
  {
    Behaviour(s, steps) && After(s, steps) == s'
  }

  lemma {:induction false} LeadsOn(s: Sys, x: seq<Step>, s1: Sys, y: seq<Step>, s2: Sys)
    requires Leads(s, x, s1) && Leads(s1, y, s2)
    ensures Leads(s, x + y, s2)
    decreases |x|
  {
    if x == [] {
      assert x + y == y;
    } else {
      LeadsOn(Do(s, x[0]), x[1..], s1, y, s2);
      assert (x + y)[0] == x[0] && (x + y)[1..] == x[1..] + y;
    }
  }

  lemma NoSteps(s: Sys)
    ensures Leads(s, [], s)
  {
  }

  lemma OneStep(s: Sys, step: Step)
    requires Enabled(s, step)
    ensures Leads(s, [step], Do(s, step))
  {
    assert [step][1..] == [];
  }

  // ------------------------------------------------------------ one tracked call

  function Writes(t: Tid, n: nat): seq<Step>
  {
    if n == 0 then [] else [BeginWrite(t)] + [EndWrite(t)] + Writes(t, n - 1)
  }

  // The state with thread t at p, and another log
  function At(s: Sys, t: Tid, p: Phase, log: seq<Record>): Sys
  {
    s.(phase := s.phase[t := p], log := log)
  }

  lemma WriteLeads(s: Sys, t: Tid, task: Task, k: nat, log: seq<Record>)
    requires s.fd == None && k < |Records(task)|
    ensures Leads(At(s, t, Locked(task, k), log), [BeginWrite(t)] + [EndWrite(t)],
                  At(s, t, Locked(task, k + 1), log + [Records(task)[k]]))
  {
    var s0 := At(s, t, Locked(task, k), log);
    OneStep(s0, BeginWrite(t));
    var s1 := Do(s0, BeginWrite(t));
    OneStep(s1, EndWrite(t));
    assert Do(s1, EndWrite(t)).phase == s.phase[t := Locked(task, k + 1)];
    LeadsOn(s0, [BeginWrite(t)], s1, [EndWrite(t)], Do(s1, EndWrite(t)));
  }

  lemma {:induction false} WritesLead(s: Sys, t: Tid, task: Task, k: nat, log: seq<Record>)
    requires s.fd == None && k <= |Records(task)|
    ensures Leads(At(s, t, Locked(task, k), log), Writes(t, |Records(task)| - k),
                  At(s, t, Locked(task, |Records(task)|), log + Records(task)[k..]))
    decreases |Records(task)| - k
  {
    hide Records, At;
    var n := |Records(task)|;
    if k == n {
      assert log + Records(task)[n..] == log;
    } else {
      WriteLeads(s, t, task, k, log);
      WritesLead(s, t, task, k + 1, log + [Records(task)[k]]);
      assert log + [Records(task)[k]] + Records(task)[k + 1..] == log + Records(task)[k..];
      LeadsOn(At(s, t, Locked(task, k), log), [BeginWrite(t)] + [EndWrite(t)],
              At(s, t, Locked(task, k + 1), log + [Records(task)[k]]), Writes(t, n - k - 1),
              At(s, t, Locked(task, n), log + Records(task)[k..]));
    }
  }

  // jm_backtrace_unwind
  function UnwindSteps(t: Tid, task: Task): seq<Step>
  {
    [LockUnwind(t)] + Writes(t, |Records(task)|) + [UnlockUnwind(t)]
  }

  lemma UnwindLeads(s: Sys, t: Tid, task: Task)
    requires s.fd == None && s.unwind == None && PhaseOf(s, t) == Entered(task)
    ensures Leads(s, UnwindSteps(t, task),
                  At(s, t, Tracked(task), s.log + Records(task)).(done := s.done + [task]))
  {
    hide Records;
    var n, writes := |Records(task)|, Writes(t, |Records(task)|);
    var s1 := Do(s, LockUnwind(t));
    var s2 := At(s1, t, Locked(task, n), s.log + Records(task));
    OneStep(s, LockUnwind(t));
    assert At(s1, t, Locked(task, 0), s.log) == s1;
    WritesLead(s1, t, task, 0, s.log);
    assert Records(task)[0..] == Records(task);
    LeadsOn(s, [LockUnwind(t)], s1, writes, s2);
    OneStep(s2, UnlockUnwind(t));
    assert Do(s2, UnlockUnwind(t)).phase == s.phase[t := Tracked(task)];
    LeadsOn(s, [LockUnwind(t)] + writes, s2, [UnlockUnwind(t)], Do(s2, UnlockUnwind(t)));
  }

  // jm_tracker_update_mappings, for modules it has not seen
  function ModuleSteps(t: Tid, bases: seq<Addr>): seq<Step>
  {
    if bases == [] then [] else [BeginModule(t)] + [EndModule(t, bases[0])] + ModuleSteps(t, bases[1..])
  }

  function Modules(bases: seq<Addr>): seq<Record>
  {
    seq(|bases|, i requires 0 <= i < |bases| => ModuleRecord(bases[i]))
  }

  lemma {:induction false} ModulesLead(s: Sys, t: Tid, task: Task, bases: seq<Addr>)
    requires s.fd == None && PhaseOf(s, t) == Entered(task) && task.hook != FreeHook
    ensures Leads(s, ModuleSteps(t, bases), At(s, t, Entered(task), s.log + Modules(bases)))
    decreases |bases|
  {
    hide Leads;
    if bases == [] {
      NoSteps(s);
      assert s.phase[t := Entered(task)] == s.phase && s.log + Modules([]) == s.log;
    } else {
      var s2 := ModuleLeads(s, t, task, bases[0]);
      ModulesLead(s2, t, task, bases[1..]);
      assert s.log + [ModuleRecord(bases[0])] + Modules(bases[1..]) == s.log + Modules(bases);
      assert s2.phase[t := Entered(task)] == s.phase[t := Entered(task)];
      LeadsOn(s, [BeginModule(t)] + [EndModule(t, bases[0])], s2, ModuleSteps(t, bases[1..]),
              At(s, t, Entered(task), s.log + Modules(bases)));
    }
  }

  lemma ModuleLeads(s: Sys, t: Tid, task: Task, base: Addr) returns (s': Sys)
    requires s.fd == None && PhaseOf(s, t) == Entered(task) && task.hook != FreeHook
    ensures s' == At(s, t, Entered(task), s.log + [ModuleRecord(base)])
    ensures Leads(s, [BeginModule(t)] + [EndModule(t, base)], s')
  {
    var s1 := Do(s, BeginModule(t));
    s' := Do(s1, EndModule(t, base));
    OneStep(s, BeginModule(t));
    OneStep(s1, EndModule(t, base));
    LeadsOn(s, [BeginModule(t)], s1, [EndModule(t, base)], s');
    assert s'.phase == s.phase[t := Entered(task)];
  }

  // ------------------------------------------------------------ one call of the program

  // No thread is inside a hook.
  ghost predicate Quiet(s: Sys)
  {
    && (forall t: Tid :: PhaseOf(s, t) == Idle)
    && s.unwind == None && s.fd == None && s.guards == {} && s.live == s.owned && NULL !in s.owned
  }

  // The program may make the call when it owns the addresses.
  predicate MayCall(call: Task, owned: set<Addr>)
  {
    && call.addr != NULL && |call.frames| < MAX_BACKTRACE_COUNT
    && (call.hook == FreeHook <==> call.addr in owned)
  }

  function OwnedAfter(call: Task, owned: set<Addr>): set<Addr>
  {
    if call.hook == FreeHook then owned - {call.addr} else owned + {call.addr}
  }

  // Every alloc finds the same new modules.
  function CallSteps(t: Tid, bases: seq<Addr>, call: Task): seq<Step>
  {
    if call.hook == FreeHook then
      [CallFree(t, call.addr, call.size, call.frames)] + UnwindSteps(t, call) + [Leave(t)] + [LibcFree(t)]
    else
      [LibcAlloc(t, call.hook, call.addr)] + [EnterAlloc(t, call.size, call.frames)] + ModuleSteps(t, bases) +
      UnwindSteps(t, call) + [Leave(t)]
  }

  function CallRecords(bases: seq<Addr>, call: Task): seq<Record>
  {
    (if call.hook == FreeHook then [] else Modules(bases)) + Records(call)
  }

  // The state after a call that left the others where they were
  ghost predicate Called(s: Sys, bases: seq<Addr>, call: Task, s': Sys)
  {
    && Quiet(s') && s'.owned == OwnedAfter(call, s.owned)
    && s'.log == s.log + CallRecords(bases, call) && s'.done == s.done + [call]
  }

  lemma QuietAgain(s: Sys, t: Tid, s': Sys)
    requires Quiet(s) && s'.phase == s.phase[t := Idle] && s'.unwind == None && s'.fd == None && s'.guards == {}
    requires s'.live == s'.owned && NULL !in s'.owned
    ensures Quiet(s')
  {
    forall u: Tid ensures PhaseOf(s', u) == Idle {
      assert PhaseOf(s, u) == Idle;
    }
  }

  // An alloc up to the unwinding, and from there
  lemma AllocEnters(s: Sys, t: Tid, call: Task) returns (s': Sys)
    requires Quiet(s) && MayCall(call, s.owned) && call.hook != FreeHook
    ensures Leads(s, [LibcAlloc(t, call.hook, call.addr)] + [EnterAlloc(t, call.size, call.frames)], s')
    ensures s'.phase == s.phase[t := Entered(call)] && s'.unwind == None && s'.fd == None
    ensures s'.live == s.owned + {call.addr} && s'.owned == s.owned && s'.guards == {(t, call.hook)}
    ensures s'.log == s.log && s'.done == s.done
  {
    var x, y := LibcAlloc(t, call.hook, call.addr), EnterAlloc(t, call.size, call.frames);
    var s1 := Do(s, x);
    s' := Do(s1, y);
    OneStep(s, x);
    OneStep(s1, y);
    LeadsOn(s, [x], s1, [y], s');
  }

  lemma AllocLeaves(s: Sys, t: Tid, call: Task) returns (s': Sys)
    requires call.hook != FreeHook && call.addr != NULL && t in s.phase && s.phase[t] == Tracked(call)
    requires s.guards == {(t, call.hook)}
    ensures Leads(s, [Leave(t)], s') && s'.phase == s.phase[t := Idle] && s'.guards == {}
    ensures s'.owned == s.owned + {call.addr} && s'.live == s.live && s'.unwind == s.unwind && s'.fd == s.fd
    ensures s'.log == s.log && s'.done == s.done
  {
    s' := Do(s, Leave(t));
    OneStep(s, Leave(t));
  }

  lemma AllocRuns(s: Sys, t: Tid, bases: seq<Addr>, call: Task) returns (s': Sys)
    requires Quiet(s) && MayCall(call, s.owned) && call.hook != FreeHook
    ensures Leads(s, CallSteps(t, bases, call), s') && Called(s, bases, call, s')
  {
    hide Records, UnwindSteps, Leads, Modules, ModuleSteps;
    var start := [LibcAlloc(t, call.hook, call.addr)] + [EnterAlloc(t, call.size, call.frames)];
    var s1 := AllocEnters(s, t, call);
    ModulesLead(s1, t, call, bases);
    var s2 := At(s1, t, Entered(call), s.log + Modules(bases));
    UnwindLeads(s2, t, call);
    var s3 := At(s2, t, Tracked(call), s2.log + Records(call)).(done := s.done + [call]);
    s' := AllocLeaves(s3, t, call);
    LeadsOn(s, start, s1, ModuleSteps(t, bases), s2);
    LeadsOn(s, start + ModuleSteps(t, bases), s2, UnwindSteps(t, call), s3);
    LeadsOn(s, start + ModuleSteps(t, bases) + UnwindSteps(t, call), s3, [Leave(t)], s');
    assert s.log + Modules(bases) + Records(call) == s.log + CallRecords(bases, call);
    assert s'.phase == s.phase[t := Idle];
    QuietAgain(s, t, s');
  }

  lemma FreeEnters(s: Sys, t: Tid, call: Task) returns (s': Sys)
    requires Quiet(s) && MayCall(call, s.owned) && call.hook == FreeHook
    ensures Leads(s, [CallFree(t, call.addr, call.size, call.frames)], s')
    ensures s'.phase == s.phase[t := Entered(call)] && s'.unwind == None && s'.fd == None
    ensures s'.live == s.owned && s'.owned == s.owned - {call.addr} && s'.guards == {(t, FreeHook)}
    ensures s'.log == s.log && s'.done == s.done
  {
    s' := Do(s, CallFree(t, call.addr, call.size, call.frames));
    OneStep(s, CallFree(t, call.addr, call.size, call.frames));
  }

  lemma FreeLeaves(s: Sys, t: Tid, call: Task) returns (s': Sys)
    requires call.hook == FreeHook && t in s.phase && s.phase[t] == Tracked(call) && s.guards == {(t, FreeHook)}
    ensures Leads(s, [Leave(t)] + [LibcFree(t)], s') && s'.phase == s.phase[t := Idle] && s'.guards == {}
    ensures s'.owned == s.owned && s'.live == s.live - {call.addr} && s'.unwind == s.unwind && s'.fd == s.fd
    ensures s'.log == s.log && s'.done == s.done
  {
    var s1 := Do(s, Leave(t));
    s' := Do(s1, LibcFree(t));
    OneStep(s, Leave(t));
    OneStep(s1, LibcFree(t));
    LeadsOn(s, [Leave(t)], s1, [LibcFree(t)], s');
  }

  lemma FreeRuns(s: Sys, t: Tid, bases: seq<Addr>, call: Task) returns (s': Sys)
    requires Quiet(s) && MayCall(call, s.owned) && call.hook == FreeHook
    ensures Leads(s, CallSteps(t, bases, call), s') && Called(s, bases, call, s')
  {
    hide Records, UnwindSteps, Leads;
    var start, end := [CallFree(t, call.addr, call.size, call.frames)], [Leave(t)] + [LibcFree(t)];
    var s1 := FreeEnters(s, t, call);
    UnwindLeads(s1, t, call);
    var s2 := At(s1, t, Tracked(call), s.log + Records(call)).(done := s.done + [call]);
    s' := FreeLeaves(s2, t, call);
    LeadsOn(s, start, s1, UnwindSteps(t, call), s2);
    LeadsOn(s, start + UnwindSteps(t, call), s2, end, s');
    assert start + UnwindSteps(t, call) + end == CallSteps(t, bases, call);
    assert s.log + Records(call) == s.log + CallRecords(bases, call);
    assert s'.phase == s.phase[t := Idle];
    QuietAgain(s, t, s');
  }

  // ------------------------------------------------------------ sequences of calls

  predicate MayCallAll(calls: seq<Task>, owned: set<Addr>)
  {
    calls == [] || (MayCall(calls[0], owned) && MayCallAll(calls[1..], OwnedAfter(calls[0], owned)))
  }

  function OwnedAfterAll(calls: seq<Task>, owned: set<Addr>): set<Addr>
  {
    if calls == [] then owned else OwnedAfterAll(calls[1..], OwnedAfter(calls[0], owned))
  }

  lemma {:induction false} MayCallOneMore(calls: seq<Task>, owned: set<Addr>, call: Task)
    ensures MayCallAll(calls + [call], owned)
      <==> MayCallAll(calls, owned) && MayCall(call, OwnedAfterAll(calls, owned))
    ensures OwnedAfterAll(calls + [call], owned) == OwnedAfter(call, OwnedAfterAll(calls, owned))
    decreases |calls|
  {
    var grown := calls + [call];
    if calls == [] {
      assert grown == [call] && grown[1..] == [];
    } else {
      assert grown[0] == calls[0] && grown[1..] == calls[1..] + [call];
      MayCallOneMore(calls[1..], OwnedAfter(calls[0], owned), call);
    }
  }

  function StepsOf(t: Tid, bases: seq<Addr>, calls: seq<Task>): seq<Step>
  {
    if calls == [] then [] else CallSteps(t, bases, calls[0]) + StepsOf(t, bases, calls[1..])
  }

  // The records of the calls, and those of the modules that the allocs find
  function RecordsOf(bases: seq<Addr>, calls: seq<Task>): seq<Record>
  {
    if calls == [] then [] else RecordsOf(bases, calls[..|calls| - 1]) + CallRecords(bases, calls[|calls| - 1])
  }

  lemma RecordsOneMore(bases: seq<Addr>, calls: seq<Task>, call: Task)
    ensures RecordsOf(bases, calls + [call]) == RecordsOf(bases, calls) + CallRecords(bases, call)
  {
    assert (calls + [call])[..|calls|] == calls;
  }

  lemma {:induction false} RecordsWithoutModules(calls: seq<Task>)
    ensures RecordsOf([], calls) == Flatten(calls)
    decreases |calls|
  {
    if calls != [] {
      RecordsWithoutModules(calls[..|calls| - 1]);
      assert CallRecords([], calls[|calls| - 1]) == Records(calls[|calls| - 1]);
    }
  }

  lemma {:induction false} CallsRunFrom(s: Sys, t: Tid, bases: seq<Addr>, calls: seq<Task>) returns (end: Sys)
    requires Quiet(s) && MayCallAll(calls, s.owned) && s.log == RecordsOf(bases, s.done)
    ensures Leads(s, StepsOf(t, bases, calls), end)
    ensures Quiet(end) && end.done == s.done + calls && end.log == RecordsOf(bases, end.done)
    decreases |calls|
  {
    hide CallSteps, CallRecords, RecordsOf, Quiet, MayCall, OwnedAfter, Leads;
    if calls == [] {
      end := s;
      NoSteps(s);
      assert s.done + calls == s.done;
    } else {
      var first, rest := calls[0], calls[1..];
      var s1;
      if first.hook == FreeHook {
        s1 := FreeRuns(s, t, bases, first);
      } else {
        s1 := AllocRuns(s, t, bases, first);
      }
      RecordsOneMore(bases, s.done, first);
      end := CallsRunFrom(s1, t, bases, rest);
      LeadsOn(s, CallSteps(t, bases, first), s1, StepsOf(t, bases, rest), end);
      assert s.done + [first] + rest == s.done + calls;
    }
  }

  lemma {:induction false} ModulesAllocNothing(t: Tid, bases: seq<Addr>)
    ensures forall i :: 0 <= i < |ModuleSteps(t, bases)| ==> !ModuleSteps(t, bases)[i].LibcAlloc?
  {
    if bases != [] {
      ModulesAllocNothing(t, bases[1..]);
    }
  }

  lemma {:induction false} WritesAllocNothing(t: Tid, n: nat)
    ensures forall i :: 0 <= i < |Writes(t, n)| ==> !Writes(t, n)[i].LibcAlloc?
  {
    if n > 0 {
      WritesAllocNothing(t, n - 1);
    }
  }

  lemma {:induction false} CallsDoNotFail(t: Tid, bases: seq<Addr>, calls: seq<Task>, owned: set<Addr>)
    requires MayCallAll(calls, owned)
    ensures NoFailure(StepsOf(t, bases, calls))
    decreases |calls|
  {
    if calls != [] {
      WritesAllocNothing(t, |Records(calls[0])|);
      ModulesAllocNothing(t, bases);
      CallsDoNotFail(t, bases, calls[1..], OwnedAfter(calls[0], owned));
    }
  }

  // Every sequence of calls that a program may make is that of some run, with or without
  // modules written on the way.
  lemma CallsCanRun(t: Tid, bases: seq<Addr>, calls: seq<Task>)
    requires MayCallAll(calls, {})
    ensures var steps := StepsOf(t, bases, calls);
      && Behaviour(Start(), steps) && NoFailure(steps)
      && (forall u: Tid :: PhaseOf(After(Start(), steps), u) == Idle)
      && CallsOf(steps) == calls && After(Start(), steps).log == RecordsOf(bases, calls)
    ensures RecordsOf([], calls) == Flatten(calls)
  {
    hide StepsOf, CallsOf, RecordsOf, NoFailure;
    NoRecords(bases);
    var end := CallsRunFrom(Start(), t, bases, calls);
    CallsDoNotFail(t, bases, calls, {});
    CallsAreFinished(StepsOf(t, bases, calls));
    RecordsWithoutModules(calls);
    assert [] + calls == calls;
  }

  lemma NoRecords(bases: seq<Addr>)
    ensures RecordsOf(bases, []) == []
  {
  }

  lemma TwoSteps(s: Sys, x: Step, y: Step) returns (s': Sys)
    requires Enabled(s, x) && Enabled(Do(s, x), y)
    ensures Leads(s, [x] + [y], s') && s' == Do(Do(s, x), y)
  {
    OneStep(s, x);
    OneStep(Do(s, x), y);
    s' := Do(Do(s, x), y);
    LeadsOn(s, [x], Do(s, x), [y], s');
  }

  // Two requests served, then both hooks entered
  lemma BothEnter(t: Tid, u: Tid, a: Addr, b: Addr, x: seq<Step>, y: seq<Step>) returns (s: Sys)
    requires t != u && a != NULL && b != NULL && a != b
    requires x == [LibcAlloc(t, MallocHook, a)] + [LibcAlloc(u, CallocHook, b)]
    requires y == [EnterAlloc(u, 1, [])] + [EnterAlloc(t, 1, [])]
    ensures Leads(Start(), x + y, s) && s.unwind == None && s.fd == None
    ensures PhaseOf(s, t) == Entered(Task(MallocHook, a, 1, [])) && PhaseOf(s, u) == Entered(Task(CallocHook, b, 1, []))
  {
    hide Leads;
    var s1 := TwoSteps(Start(), LibcAlloc(t, MallocHook, a), LibcAlloc(u, CallocHook, b));
    s := TwoSteps(s1, EnterAlloc(u, 1, []), EnterAlloc(t, 1, []));
    LeadsOn(Start(), x, s1, y, s);
  }

  // Calls of different threads overlap: one thread may write a module while another is in
  // jm_backtrace_unwind.
  lemma HooksOverlap(t: Tid, u: Tid, a: Addr, b: Addr)
    requires t != u && a != NULL && b != NULL && a != b
    ensures exists steps ::
      && Behaviour(Start(), steps) && NoFailure(steps)
      && PhaseOf(After(Start(), steps), t) == Locked(Task(MallocHook, a, 1, []), 0)
      && PhaseOf(After(Start(), steps), u) == MapWriting(Task(CallocHook, b, 1, []))
  {
    hide Behaviour, After;
    var x := [LibcAlloc(t, MallocHook, a)] + [LibcAlloc(u, CallocHook, b)];
    var y, z := [EnterAlloc(u, 1, [])] + [EnterAlloc(t, 1, [])], [BeginModule(u)] + [LockUnwind(t)];
    var s2 := BothEnter(t, u, a, b, x, y);
    var s3 := TwoSteps(s2, BeginModule(u), LockUnwind(t));
    LeadsOn(Start(), x + y, s2, z, s3);
    assert Behaviour(Start(), x + y + z) && NoFailure(x + y + z);
  }
}
