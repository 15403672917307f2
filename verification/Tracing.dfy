// The profiler as a whole: concurrent hooks write the log, the interpreter reads it.
module Tracing {
  import opened EventLog
  import opened LeakReport
  import opened ProgramCalls

  // No request of the run fails.
  ghost predicate NoFailure(steps: seq<Step>)
  {
    forall i :: 0 <= i < |steps| && steps[i].LibcAlloc? ==> steps[i].addr != NULL
  }

  ghost predicate NonNull(s: Sys)
  {
    && (forall t: Tid :: PhaseOf(s, t) != Idle ==> AddrOf(PhaseOf(s, t)) != NULL)
    && EventsFirst(s.log) && NoNull(s.log)
  }

  lemma CursorOfWriter(s: Sys, t: Tid)
    requires WholeGroups(s) && PhaseOf(s, t).Writing? && PhaseOf(s, t).k > 0
    ensures Cursor(s.log) == PhaseOf(s, t).task.addr
  {
    assert s.unwind == Some(t);
    EventsSuffice(s.log, NULL);
    CursorOfGroup(Flatten(s.done), PhaseOf(s, t).task, PhaseOf(s, t).k);
  }

  lemma LogGrows(log: seq<Record>, r: Record)
    requires EventsFirst(log) && NoNull(log)
    requires r.AllocEvent? || r.FreeEvent? ==> r.addr != NULL
    requires r.FrameRecord? ==> Cursor(log) != NULL
    ensures EventsFirst(log + [r]) && NoNull(log + [r])
  {
    var grown := log + [r];
    forall i | 0 <= i < |grown| && grown[i].FrameRecord? ensures Cursor(grown[..i]) != NULL {
      assert i < |log| ==> grown[..i] == log[..i];
      assert i == |log| ==> grown[..i] == log;
    }
  }

  lemma StepKeepsNonNull(s: Sys, step: Step)
    requires Inv(s) && NonNull(s) && Enabled(s, step) && (step.LibcAlloc? ==> step.addr != NULL)
    ensures NonNull(Do(s, step))
  {
    OthersStay(s, step);
    assert InRange(PhaseOf(s, step.t));
    if step.EndWrite? {
      var Writing(task, k) := PhaseOf(s, step.t);
      RecordsAreEvents(task, k);
      if k > 0 {
        CursorOfWriter(s, step.t);
      }
      LogGrows(s.log, Records(task)[k]);
    } else if step.EndModule? {
      LogGrows(s.log, ModuleRecord(step.base));
    }
  }

  lemma {:induction false} RunKeepsNonNull(s: Sys, steps: seq<Step>)
    requires Inv(s) && NonNull(s) && Behaviour(s, steps) && NoFailure(steps)
    ensures Inv(After(s, steps)) && NonNull(After(s, steps))
    decreases |steps|
  {
    if steps != [] {
      StepKeepsInv(s, steps[0]);
      StepKeepsNonNull(s, steps[0]);
      RunKeepsNonNull(Do(s, steps[0]), steps[1..]);
    }
  }

  // Every log of a run without failed requests is in order, in turn without address reuse.
  lemma LogIsInOrder(steps: seq<Step>)
    requires Behaviour(Start(), steps) && NoFailure(steps)
    ensures InOrder(After(Start(), steps).log)
    ensures NoReuse(After(Start(), steps).log) ==> InTurn(After(Start(), steps).log)
  {
    StartInv();
    RunKeepsNonNull(Start(), steps);
    var s := After(Start(), steps);
    forall a: Addr ensures Alternates(About(s.log, a)) {
      if a != NULL {
        assert AccountOf(s, a);
      } else {
        NothingAboutNull(s.log);
      }
    }
  }

  lemma {:induction false} NothingAboutNull(log: seq<Record>)
    requires NoNull(log)
    ensures About(log, NULL) == []
    decreases |log|
  {
    if log != [] {
      var front := log[..|log| - 1];
      assert forall i :: 0 <= i < |front| ==> front[i] == log[i];
      NothingAboutNull(front);
    }
  }

  // The addresses that the log leaves allocated are those served and not freed.
  lemma OutstandingIsKept(steps: seq<Step>)
    requires Behaviour(Start(), steps) && NoFailure(steps)
    requires forall t: Tid :: PhaseOf(After(Start(), steps), t) == Idle
    ensures Outstanding(After(Start(), steps).log) == Kept(steps)
  {
    var s := After(Start(), steps);
    StartInv();
    RunKeepsNonNull(Start(), steps);
    NothingAboutNull(s.log);
    OwnedIsKept(steps);
    forall a: Addr ensures a in Outstanding(s.log) <==> a in s.owned {
      if a != NULL {
        OutstandingIsOwned(steps, a);
        EventsAlternate(steps, a);
      }
      OutstandingIsOdd(s.log, a);
    }
  }

  lemma QuietLog(steps: seq<Step>)
    requires Behaviour(Start(), steps)
    requires forall t: Tid :: PhaseOf(After(Start(), steps), t) == Idle
    ensures Events(After(Start(), steps).log) == Flatten(CallsOf(steps))
  {
    hide Flatten, Events, CallsOf, LatestCall, Records;
    LogIsOfCalls(steps);
    LogIsGrouped(steps);
    var s := After(Start(), steps);
    assert s.unwind.Some? ==> InUnwind(PhaseOf(s, s.unwind.value));
  }

  // What the log says of an address is what the calls about it were: their kinds, sizes
  // and frames, and the number of the latest alloc.
  lemma LogTellsCalls(steps: seq<Step>, a: Addr)
    requires Behaviour(Start(), steps)
    requires forall t: Tid :: PhaseOf(After(Start(), steps), t) == Idle
    ensures var log, made := After(Start(), steps).log, CallsOf(steps); var calls := TasksAbout(made, a);
      && About(log, a) == Kinds(calls) && TraceOf(log, a) == FramesAbout(made, a)
      && LatestSize(log, a) == SizeOfLatest(calls) && TraceSince(log, a) == FramesSince(calls)
      && CountAllocs(log) == Allocating(made) && SumSizes(log) == BytesServed(made)
      && LatestIndex(log, a) + 1 == AllocNumber(made, a)
  {
    hide Flatten, Events, CallsOf, About, TraceOf, LatestSize, TraceSince, CountAllocs, LatestIndex, AllocNumber;
    var log, made := After(Start(), steps).log, CallsOf(steps);
    QuietLog(steps);
    AboutEvents(log, a);
    AboutOfTasks(made, a);
    EventsSuffice(log, a);
    TraceOfTasks(made, a);
    LatestEvents(log, a);
    LatestOfTasks(made, a);
    IndexEvents(log, a);
    IndexOfTasks(made, a);
  }

  lemma ConditionsOfCalls(steps: seq<Step>)
    requires Behaviour(Start(), steps)
    requires forall t: Tid :: PhaseOf(After(Start(), steps), t) == Idle
    ensures var log, made := After(Start(), steps).log, CallsOf(steps);
      && (NoReuse(log) <==> NoneComesBack(made)) && (FewFrames(log) <==> FewFramesEach(made))
  {
    hide After, Behaviour, CallsOf, About, TraceOf, TasksAbout, FramesAbout;
    var log, made := After(Start(), steps).log, CallsOf(steps);
    forall a: Addr
      ensures |About(log, a)| == |TasksAbout(made, a)| && |TraceOf(log, a)| == |FramesAbout(made, a)|
    {
      LogTellsCalls(steps, a);
    }
    if FewFrames(log) {
      forall a: Addr ensures |FramesAbout(made, a)| <= MAX_BACKTRACE_COUNT {
        assert FewAbout(log, a);
      }
    }
  }

  // The calls about an address, and the trace of its entry.
  lemma CallsOfAddress(steps: seq<Step>, a: Addr)
    requires Behaviour(Start(), steps) && NoFailure(steps) && NoneComesBack(CallsOf(steps))
    requires forall t: Tid :: PhaseOf(After(Start(), steps), t) == Idle
    ensures var log, calls := After(Start(), steps).log, TasksAbout(CallsOf(steps), a);
      && AllocThenFree(calls) && About(log, a) == Kinds(calls)
      && (calls != [] ==> LatestSize(log, a) == calls[0].size)
      && TraceOf(log, a) ==
           if calls == [] then [] else if |calls| == 1 then calls[0].frames else calls[0].frames + calls[1].frames
  {
    hide Behaviour, After, PhaseOf, NoFailure, About, TraceOf, Kinds, TasksAbout, FramesOf, SizeOfLatest, CallsOf;
    var log, made := After(Start(), steps).log, CallsOf(steps);
    var calls := TasksAbout(made, a);
    LogTellsCalls(steps, a);
    LogIsInOrder(steps);
    assert |calls| <= 2 && Alternates(About(log, a));
    AtMostTwoCalls(calls);
    FramesAboutCalls(made, a);
    FramesOfTwo(calls);
    if calls != [] {
      SizeOfTwo(calls);
    }
  }

  // The profiler is right: whatever the interleaving, once all hooks have returned the
  // log is read without fault exactly when the calls about each address have no more
  // frames than its entry can hold. Then the leaks reported are the addresses served and
  // not freed, and each entry belongs to an alloc and perhaps a free, with the size of
  // the alloc and the frames of both in that order. Calls and addresses are those of the
  // run's steps.
  lemma ReportIsRight(steps: seq<Step>, a: Addr)
    requires Behaviour(Start(), steps) && NoFailure(steps) && NoneComesBack(CallsOf(steps))
    requires forall t: Tid :: PhaseOf(After(Start(), steps), t) == Idle
    ensures ReadAll(After(Start(), steps).log).Ok? <==> FewFramesEach(CallsOf(steps))
    ensures ReadAll(After(Start(), steps).log).Ok? ==>
      var summary := ReadAll(After(Start(), steps).log).summary;
      && Leaks(summary) == Kept(steps)
      && summary.allocCount == Allocating(CallsOf(steps)) == summary.freeCount + |Kept(steps)|
      && summary.total == BytesServed(CallsOf(steps))
      && EntryTellsCalls(summary, TasksAbout(CallsOf(steps), a), a)
  {
    hide CallsOf, LatestCall, Kept, Behaviour, After, TasksAbout, FramesAbout, NoReuse, NoneComesBack;
    var log := After(Start(), steps).log;
    LogIsInOrder(steps);
    ConditionsOfCalls(steps);
    ReadDescribes(log);
    if ReadAll(log).Ok? {
      LeaksAreOutstanding(log);
      OutstandingIsKept(steps);
      assert DescribesEntry(ReadAll(log).summary, log, a);
      CallsOfAddress(steps, a);
      LogTellsCalls(steps, a);
    }
  }

  // The entry of a: there is one if a was allocated, leaking if it was not freed, with
  // the size of the alloc and the frames of the alloc followed by those of the free.
  ghost predicate EntryTellsCalls(s: Summary, calls: seq<Task>, a: Addr)
  {
    && AllocThenFree(calls)
    && (a in s.entries <==> calls != [])
    && (calls != [] ==>
        && (s.entries[a].leaking <==> |calls| == 1) && s.entries[a].size == calls[0].size
        && s.entries[a].traces == if |calls| == 1 then calls[0].frames else calls[0].frames + calls[1].frames)
  }
}
