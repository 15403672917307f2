// What src/interpret.c makes of a log: counts, and for every address an entry that
// says whether it leaked and collects its stack frames.
module LeakReport {
  import opened EventLog

  datatype Info = Info(size: nat, leaking: bool, traces: seq<Addr>)

  datatype Summary = Summary(allocCount: nat, freeCount: nat, total: nat, ctx: Addr, entries: map<Addr, Info>)

  // The ways in which reading a log can go wrong: the assertion on the cursor, an entry
  // that is not there, and a frame too many for the trace buffer of an entry.
  datatype Fault = AssertionFailed | NullEntry | TraceOverflow

  datatype Outcome = Ok(summary: Summary) | Failed(fault: Fault)

  // One round of the loop of jm_symbols_parse_log, for logs without address reuse.
  function ReadOne(s: Summary, r: Record): Outcome
  {
    match r
    case AllocEvent(a, size) =>
      Ok(s.(allocCount := s.allocCount + 1, total := s.total + size, ctx := a,
            entries := s.entries[a := Info(size, true, [])]))
    case FrameRecord(f) =>
      if s.ctx == NULL then Failed(AssertionFailed)
      else if s.ctx !in s.entries then Failed(NullEntry)
      else if |s.entries[s.ctx].traces| >= MAX_BACKTRACE_COUNT then Failed(TraceOverflow)
      else
        var info := s.entries[s.ctx];
        Ok(s.(entries := s.entries[s.ctx := info.(traces := info.traces + [f])]))
    case FreeEvent(a, _) =>
      if a == NULL || a !in s.entries then Failed(NullEntry)
      else Ok(s.(freeCount := s.freeCount + 1, ctx := a, entries := s.entries[a := s.entries[a].(leaking := false)]))
    case ModuleRecord(_) => Ok(s)
  }

  function ReadAll(log: seq<Record>): Outcome
  {
    if log == [] then Ok(Summary(0, 0, 0, NULL, map[]))
    else
      match ReadAll(log[..|log| - 1])
      case Failed(f) => Failed(f)
      case Ok(s) => ReadOne(s, log[|log| - 1])
  }

  // ------------------------------------------------------------ facts about a log

  function CountAllocs(log: seq<Record>): nat
  {
    if log == [] then 0 else CountAllocs(log[..|log| - 1]) + if log[|log| - 1].AllocEvent? then 1 else 0
  }

  function CountFrees(log: seq<Record>): nat
  {
    if log == [] then 0 else CountFrees(log[..|log| - 1]) + if log[|log| - 1].FreeEvent? then 1 else 0
  }

  function SumSizes(log: seq<Record>): nat
  {
    if log == [] then 0
    else SumSizes(log[..|log| - 1]) + if log[|log| - 1].AllocEvent? then log[|log| - 1].size else 0
  }

  // The address of the last event.
  function Cursor(log: seq<Record>): Addr
  {
    if log == [] then NULL
    else if log[|log| - 1].AllocEvent? || log[|log| - 1].FreeEvent? then log[|log| - 1].addr
    else Cursor(log[..|log| - 1])
  }

  // The frames that follow the events of an address.
  function TraceOf(log: seq<Record>, a: Addr): seq<Addr>
  {
    if log == [] then []
    else
      var front, last := log[..|log| - 1], log[|log| - 1];
      TraceOf(front, a) + if last.FrameRecord? && Cursor(front) == a then [last.addr] else []
  }

  // Addresses allocated and not yet freed.
  function Outstanding(log: seq<Record>): set<Addr>
  {
    if log == [] then {}
    else
      var rest, last := Outstanding(log[..|log| - 1]), log[|log| - 1];
      if last.AllocEvent? then rest + {last.addr}
      else if last.FreeEvent? then rest - {last.addr}
      else rest
  }

  // ------------------------------------------------------------ the latest alloc of an address

  // Its place among all allocs; -1 if there is none
  function LatestIndex(log: seq<Record>, a: Addr): (i: int)
    ensures -1 <= i < CountAllocs(log)
  {
    if log == [] then -1
    else
      var front, last := log[..|log| - 1], log[|log| - 1];
      if last.AllocEvent? && last.addr == a then CountAllocs(front) else LatestIndex(front, a)
  }

  function LatestSize(log: seq<Record>, a: Addr): nat
  {
    if log == [] then 0
    else
      var front, last := log[..|log| - 1], log[|log| - 1];
      if last.AllocEvent? && last.addr == a then last.size else LatestSize(front, a)
  }

  // The frames of an address since
  function TraceSince(log: seq<Record>, a: Addr): seq<Addr>
  {
    if log == [] then []
    else
      var front, last := log[..|log| - 1], log[|log| - 1];
      if last.AllocEvent? && last.addr == a then []
      else TraceSince(front, a) + if last.FrameRecord? && Cursor(front) == a then [last.addr] else []
  }

  // The address of the ith alloc
  function AllocatedAt(log: seq<Record>, i: nat): Addr
    requires i < CountAllocs(log)
  {
    var front, last := log[..|log| - 1], log[|log| - 1];
    if last.AllocEvent? && i == CountAllocs(front) then last.addr else AllocatedAt(front, i)
  }

  lemma {:induction false} LatestIsAllocated(log: seq<Record>, a: Addr)
    ensures LatestIndex(log, a) >= 0 ==> AllocatedAt(log, LatestIndex(log, a)) == a
    ensures a in Outstanding(log) ==> LatestIndex(log, a) >= 0
    decreases |log|
  {
    if log != [] {
      LatestIsAllocated(log[..|log| - 1], a);
    }
  }

  // ------------------------------------------------------------ well-formed logs

  ghost predicate NoReuse(log: seq<Record>)
  {
    forall a: Addr :: |About(log, a)| <= 2
  }

  ghost predicate EventsFirst(log: seq<Record>)
  {
    forall i :: 0 <= i < |log| && log[i].FrameRecord? ==> Cursor(log[..i]) != NULL
  }

  ghost predicate NoNull(log: seq<Record>)
  {
    forall i :: 0 <= i < |log| && (log[i].AllocEvent? || log[i].FreeEvent?) ==> log[i].addr != NULL
  }

  // Allocs and frees in turn, frames after events
  ghost predicate InOrder(log: seq<Record>)
  {
    EventsFirst(log) && NoNull(log) && forall a: Addr :: Alternates(About(log, a))
  }

  // The same, and no address twice
  ghost predicate InTurn(log: seq<Record>)
  {
    NoReuse(log) && InOrder(log)
  }

  // The trace buffers suffice.
  ghost predicate FewFrames(log: seq<Record>)
  {
    forall a: Addr :: FewAbout(log, a)
  }

  ghost predicate FewAbout(log: seq<Record>, a: Addr)
  {
    |TraceOf(log, a)| <= MAX_BACKTRACE_COUNT
  }

  ghost predicate WellFormed(log: seq<Record>)
  {
    InTurn(log) && FewFrames(log)
  }

  lemma FrontIsInOrder(log: seq<Record>)
    requires InOrder(log) && log != []
    ensures InOrder(log[..|log| - 1])
  {
    var front := log[..|log| - 1];
    forall a: Addr ensures Alternates(About(front, a)) {
      AboutFront(log, a);
    }
    forall i | 0 <= i < |front| && front[i].FrameRecord? ensures Cursor(front[..i]) != NULL {
      assert front[..i] == log[..i];
    }
  }

  lemma FrontIsInTurn(log: seq<Record>)
    requires InTurn(log) && log != []
    ensures InTurn(log[..|log| - 1])
  {
    var front := log[..|log| - 1];
    FrontIsInOrder(log);
    forall a: Addr ensures |About(front, a)| <= 2 {
      AboutFront(log, a);
    }
  }

  lemma AboutFront(log: seq<Record>, a: Addr)
    requires log != []
    ensures About(log[..|log| - 1], a) <= About(log, a)
  {
  }

  // The last event of a log fits the alternation: it tells how many came before.
  lemma LastAlternates(log: seq<Record>, a: Addr)
    requires log != [] && Alternates(About(log, a))
    ensures var front, last := log[..|log| - 1], log[|log| - 1];
      && Alternates(About(front, a))
      && (last.AllocEvent? && last.addr == a ==>
          |About(front, a)| % 2 == 0 && |About(log, a)| == |About(front, a)| + 1)
      && (last.FreeEvent? && last.addr == a ==>
          |About(front, a)| % 2 == 1 && |About(log, a)| == |About(front, a)| + 1)
      && ((!last.AllocEvent? && !last.FreeEvent?) || last.addr != a ==> About(log, a) == About(front, a))
  {
    var front, last := log[..|log| - 1], log[|log| - 1];
    var n := |About(front, a)|;
    forall i | 0 <= i < n ensures About(front, a)[i] <==> i % 2 == 0 {
      assert About(front, a)[i] == About(log, a)[i];
    }
    if (last.AllocEvent? || last.FreeEvent?) && last.addr == a {
      assert About(log, a)[n] == last.AllocEvent?;
    }
  }

  // The summary says about the log what its reader wants to know.
  ghost predicate Describes(s: Summary, log: seq<Record>)
  {
    && s.allocCount == CountAllocs(log) && s.freeCount == CountFrees(log) && s.total == SumSizes(log)
    && s.ctx == Cursor(log)
    && forall a: Addr :: DescribesEntry(s, log, a)
  }

  ghost predicate DescribesEntry(s: Summary, log: seq<Record>, a: Addr)
  {
    && (a in s.entries <==> About(log, a) != [])
    && (a in s.entries ==>
        && (s.entries[a].leaking <==> |About(log, a)| == 1)
        && s.entries[a].size == LatestSize(log, a) && s.entries[a].traces == TraceOf(log, a))
    && (a !in s.entries ==> TraceOf(log, a) == [])
  }

  lemma DescribesAt(s: Summary, log: seq<Record>, a: Addr)
    requires Describes(s, log)
    ensures DescribesEntry(s, log, a)
  {
  }

  lemma EntryAfter(s: Summary, log: seq<Record>, a: Addr)
    requires log != [] && InTurn(log) && Describes(s, log[..|log| - 1])
    requires ReadOne(s, log[|log| - 1]).Ok?
    ensures DescribesEntry(ReadOne(s, log[|log| - 1]).summary, log, a)
  {
    var front, last := log[..|log| - 1], log[|log| - 1];
    assert DescribesEntry(s, front, a);
    assert |About(log, a)| <= 2;
    LastAlternates(log, a);
    if !last.FrameRecord? {
      assert TraceOf(log, a) == TraceOf(front, a) + [] == TraceOf(front, a);
    } else if Cursor(front) != a {
      assert TraceOf(log, a) == TraceOf(front, a) + [] == TraceOf(front, a);
    }
  }

  // The only fault of a log in turn is a frame too many.
  lemma FaultIsOverflow(s: Summary, log: seq<Record>)
    requires log != [] && InTurn(log) && Describes(s, log[..|log| - 1])
    ensures var front, last := log[..|log| - 1], log[|log| - 1];
      ReadOne(s, last).Ok? <==> (last.FrameRecord? ==> |TraceOf(front, Cursor(front))| < MAX_BACKTRACE_COUNT)
  {
    var front, last := log[..|log| - 1], log[|log| - 1];
    if last.FrameRecord? {
      CursorHasEvent(front);
      DescribesAt(s, front, Cursor(front));
    } else if last.FreeEvent? {
      DescribesAt(s, front, last.addr);
      LastAlternates(log, last.addr);
    }
  }

  lemma {:induction false} CursorHasEvent(log: seq<Record>)
    ensures Cursor(log) != NULL ==> About(log, Cursor(log)) != []
  {
    if log != [] {
      CursorHasEvent(log[..|log| - 1]);
    }
  }

  lemma FewFramesGrow(log: seq<Record>)
    requires log != []
    ensures var front, last := log[..|log| - 1], log[|log| - 1];
      FewFrames(log) <==>
      FewFrames(front) && (last.FrameRecord? ==> |TraceOf(front, Cursor(front))| < MAX_BACKTRACE_COUNT)
  {
    var front, last := log[..|log| - 1], log[|log| - 1];
    if FewFrames(log) {
      forall a: Addr ensures FewAbout(front, a) {
        assert FewAbout(log, a);
      }
      assert FewAbout(log, Cursor(front));
    } else if FewFrames(front) {
      var a: Addr :| !FewAbout(log, a);
      assert FewAbout(front, a);
    }
  }

  // A log in turn is read without fault exactly when the trace buffers suffice, and then
  // the summary describes it.
  lemma {:induction false} ReadDescribes(log: seq<Record>)
    requires InTurn(log)
    ensures ReadAll(log).Ok? <==> FewFrames(log)
    ensures ReadAll(log).Ok? ==> Describes(ReadAll(log).summary, log)
    decreases |log|
  {
    if log != [] {
      var front := log[..|log| - 1];
      FrontIsInTurn(log);
      FewFramesGrow(log);
      ReadDescribes(front);
      if FewFrames(front) {
        var s := ReadAll(front).summary;
        FaultIsOverflow(s, log);
        if ReadAll(log).Ok? {
          forall a: Addr ensures DescribesEntry(ReadAll(log).summary, log, a) {
            EntryAfter(s, log, a);
          }
        }
      }
    }
  }

  // On any log that is read: the cursor, which addresses have entries, and their frames
  lemma {:induction false} ReadSoFar(log: seq<Record>)
    requires ReadAll(log).Ok?
    ensures var s := ReadAll(log).summary;
      && s.ctx == Cursor(log)
      && (forall a: Addr :: a in s.entries <==> LatestIndex(log, a) >= 0)
      && (forall a: Addr :: a in s.entries ==> s.entries[a].traces == TraceSince(log, a))
      && (Cursor(log) != NULL ==> Cursor(log) in s.entries)
    decreases |log|
  {
    if log != [] {
      var front, last := log[..|log| - 1], log[|log| - 1];
      ReadSoFar(front);
      forall a: Addr | a in ReadAll(log).summary.entries
        ensures ReadAll(log).summary.entries[a].traces == TraceSince(log, a)
      {
        assert TraceSince(front, a) + [] == TraceSince(front, a);
      }
    }
  }

  // Any log fails at the first record that is a frame before all events, a frame too many
  // for its entry, or a free of an address never allocated, with the fault for it.
  lemma FaultsAreExact(log: seq<Record>, r: Record)
    requires ReadAll(log).Ok?
    ensures ReadAll(log + [r]) == Failed(AssertionFailed) <==> r.FrameRecord? && Cursor(log) == NULL
    ensures ReadAll(log + [r]) == Failed(TraceOverflow)
      <==> r.FrameRecord? && Cursor(log) != NULL && |TraceSince(log, Cursor(log))| >= 32
    ensures ReadAll(log + [r]) == Failed(NullEntry)
      <==> r.FreeEvent? && (r.addr == NULL || LatestIndex(log, r.addr) < 0)
  {
    ReadSoFar(log);
    assert (log + [r])[..|log|] == log;
  }

  // ------------------------------------------------------------ leaks

  lemma {:induction false} OutstandingIsOdd(log: seq<Record>, a: Addr)
    requires Alternates(About(log, a))
    ensures a in Outstanding(log) <==> |About(log, a)| % 2 == 1
    decreases |log|
  {
    if log != [] {
      LastAlternates(log, a);
      OutstandingIsOdd(log[..|log| - 1], a);
    }
  }

  // Allocs minus frees is the number of addresses still allocated.
  lemma {:induction false} OutstandingCount(log: seq<Record>)
    requires forall a: Addr :: Alternates(About(log, a))
    ensures CountAllocs(log) == CountFrees(log) + |Outstanding(log)|
    decreases |log|
  {
    if log != [] {
      var front, last := log[..|log| - 1], log[|log| - 1];
      forall a: Addr ensures Alternates(About(front, a)) {
        AboutFront(log, a);
      }
      OutstandingCount(front);
      if last.AllocEvent? || last.FreeEvent? {
        OutstandingIsOdd(front, last.addr);
        LastAlternates(log, last.addr);
      }
    }
  }

  function Leaks(s: Summary): set<Addr>
  {
    set a | a in s.entries && s.entries[a].leaking
  }

  lemma LeakIsOutstanding(s: Summary, log: seq<Record>, a: Addr)
    requires Describes(s, log) && Alternates(About(log, a)) && |About(log, a)| <= 2
    ensures a in Leaks(s) <==> a in Outstanding(log)
  {
    DescribesAt(s, log, a);
    OutstandingIsOdd(log, a);
  }

  // The reported leaks are the addresses never freed, as many as allocs exceed frees.
  lemma LeaksAreOutstanding(log: seq<Record>)
    requires WellFormed(log)
    ensures ReadAll(log).Ok?
    ensures var s := ReadAll(log).summary;
      && Leaks(s) == Outstanding(log)
      && |Leaks(s)| == s.allocCount - s.freeCount
      && s.total == SumSizes(log)
  {
    hide ReadAll, DescribesEntry, Outstanding, Alternates;
    ReadDescribes(log);
    OutstandingCount(log);
    var s := ReadAll(log).summary;
    forall a: Addr ensures a in Leaks(s) <==> a in Outstanding(log) {
      LeakIsOutstanding(s, log, a);
    }
  }

  // ------------------------------------------------------------ frames and their threads

  // The frames of the tasks about an address, in order.
  function FramesAbout(tasks: seq<Task>, a: Addr): seq<Addr>
  {
    if tasks == [] then []
    else
      var last := tasks[|tasks| - 1];
      FramesAbout(tasks[..|tasks| - 1], a) + if last.addr == a then last.frames else []
  }

  lemma {:induction false} CursorOfGroup(log: seq<Record>, task: Task, k: nat)
    requires 0 < k <= |Records(task)|
    ensures Cursor(log + Records(task)[..k]) == task.addr
    decreases k
  {
    var part := log + Records(task)[..k];
    assert part[|part| - 1] == Records(task)[k - 1];
    if k > 1 {
      RecordsAreEvents(task, k - 1);
      assert part[..|part| - 1] == log + Records(task)[..k - 1];
      CursorOfGroup(log, task, k - 1);
    }
  }

  lemma {:induction false} TraceOfGroup(log: seq<Record>, task: Task, k: nat, a: Addr)
    requires 0 < k <= |Records(task)|
    ensures TraceOf(log + Records(task)[..k], a) == TraceOf(log, a) + if task.addr == a then task.frames[..k - 1] else []
    decreases k
  {
    var part := log + Records(task)[..k];
    var front := log + Records(task)[..k - 1];
    assert part[..|part| - 1] == front && part[|part| - 1] == Records(task)[k - 1];
    if k > 1 {
      RecordsAreEvents(task, k - 1);
      CursorOfGroup(log, task, k - 1);
      TraceOfGroup(log, task, k - 1, a);
      assert task.frames[..k - 1] == task.frames[..k - 2] + [task.frames[k - 2]];
    } else {
      assert front == log && task.frames[..0] == [];
    }
  }

  // The cursor gives every frame to the task that produced it.
  lemma {:induction false} TraceOfTasks(tasks: seq<Task>, a: Addr)
    ensures TraceOf(Flatten(tasks), a) == FramesAbout(tasks, a)
  {
    if tasks != [] {
      var front, last := tasks[..|tasks| - 1], tasks[|tasks| - 1];
      TraceOfTasks(front, a);
      TraceOfGroup(Flatten(front), last, |Records(last)|, a);
      assert Records(last)[..|Records(last)|] == Records(last);
      assert last.frames[..|last.frames|] == last.frames;
    }
  }

  // Module records in between change neither cursor nor traces.
  lemma {:induction false} EventsSuffice(log: seq<Record>, a: Addr)
    ensures Cursor(Events(log)) == Cursor(log) && TraceOf(Events(log), a) == TraceOf(log, a)
    decreases |log|
  {
    if log != [] {
      var front, last := log[..|log| - 1], log[|log| - 1];
      EventsSuffice(front, a);
      if !last.ModuleRecord? {
        assert (Events(front) + [last])[..|Events(front)|] == Events(front);
      } else {
        assert Events(front) + [] == Events(front) && TraceOf(front, a) + [] == TraceOf(front, a);
      }
    }
  }

  // ------------------------------------------------------------ the calls about an address

  // The calls about an address, in order.
  function TasksAbout(tasks: seq<Task>, a: Addr): seq<Task>
  {
    if tasks == [] then []
    else
      var last := tasks[|tasks| - 1];
      TasksAbout(tasks[..|tasks| - 1], a) + if last.addr == a then [last] else []
  }

  // Which of them are allocs.
  function Kinds(tasks: seq<Task>): (r: seq<bool>)
    ensures |r| == |tasks| && forall i :: 0 <= i < |r| ==> r[i] == (tasks[i].hook != FreeHook)
  {
    seq(|tasks|, i requires 0 <= i < |tasks| => tasks[i].hook != FreeHook)
  }

  lemma {:induction false} AboutOfGroup(log: seq<Record>, task: Task, k: nat, a: Addr)
    requires 0 < k <= |Records(task)|
    ensures About(log + Records(task)[..k], a) ==
      About(log, a) + if task.addr == a then [task.hook != FreeHook] else []
    decreases k
  {
    var part, front := log + Records(task)[..k], log + Records(task)[..k - 1];
    assert part[..|part| - 1] == front && part[|part| - 1] == Records(task)[k - 1];
    if k > 1 {
      RecordsAreEvents(task, k - 1);
      AboutOfGroup(log, task, k - 1, a);
      assert About(part, a) == About(front, a) + [] == About(front, a);
    } else {
      assert front == log;
    }
  }

  // The events of an address are those of the calls about it.
  lemma {:induction false} AboutOfTasks(tasks: seq<Task>, a: Addr)
    ensures About(Flatten(tasks), a) == Kinds(TasksAbout(tasks, a))
  {
    if tasks != [] {
      var front, last := tasks[..|tasks| - 1], tasks[|tasks| - 1];
      AboutOfTasks(front, a);
      AboutOfGroup(Flatten(front), last, |Records(last)|, a);
      assert Records(last)[..|Records(last)|] == Records(last);
    }
  }

  lemma {:induction false} AboutEvents(log: seq<Record>, a: Addr)
    ensures About(Events(log), a) == About(log, a)
    decreases |log|
  {
    if log != [] {
      var front, last := log[..|log| - 1], log[|log| - 1];
      AboutEvents(front, a);
      if !last.ModuleRecord? {
        assert (Events(front) + [last])[..|Events(front)|] == Events(front);
      } else {
        assert Events(front) + [] == Events(front) && About(front, a) + [] == About(front, a);
      }
    }
  }

  // Nothing, an alloc, or an alloc and a free
  ghost predicate AllocThenFree(calls: seq<Task>)
  {
    && |calls| <= 2
    && (|calls| > 0 ==> calls[0].hook != FreeHook)
    && (|calls| > 1 ==> calls[1].hook == FreeHook)
  }

  // The frames of the alloc, and then those of the free
  function FramesOf(calls: seq<Task>): seq<Addr>
  {
    if calls == [] then [] else FramesOf(calls[..|calls| - 1]) + calls[|calls| - 1].frames
  }

  lemma {:induction false} FramesAboutCalls(tasks: seq<Task>, a: Addr)
    ensures FramesAbout(tasks, a) == FramesOf(TasksAbout(tasks, a))
  {
    if tasks != [] {
      var front, last := tasks[..|tasks| - 1], tasks[|tasks| - 1];
      FramesAboutCalls(front, a);
      var calls := TasksAbout(front, a);
      assert (calls + [last])[..|calls|] == calls;
      assert calls + [] == calls && FramesOf(calls) + [] == FramesOf(calls);
    }
  }

  lemma AtMostTwoCalls(calls: seq<Task>)
    requires Alternates(Kinds(calls)) && |calls| <= 2
    ensures AllocThenFree(calls)
  {
  }

  lemma FramesOfTwo(calls: seq<Task>)
    requires AllocThenFree(calls)
    ensures FramesOf(calls) ==
      if calls == [] then [] else if |calls| == 1 then calls[0].frames else calls[0].frames + calls[1].frames
  {
    if |calls| == 1 {
      assert calls[..0] == [] && [] + calls[0].frames == calls[0].frames;
    } else if |calls| == 2 {
      assert calls[..1][..0] == [] && [] + calls[0].frames == calls[0].frames;
    }
  }

  // ------------------------------------------------------------ the latest call that allocated

  // The size of the block that the latest alloc among the calls about an address served
  function SizeOfLatest(calls: seq<Task>): nat
  {
    if calls == [] then 0
    else
      var last := calls[|calls| - 1];
      if last.hook != FreeHook then last.size else SizeOfLatest(calls[..|calls| - 1])
  }

  // The frames of that call and of those after it
  function FramesSince(calls: seq<Task>): seq<Addr>
  {
    if calls == [] then []
    else
      var last := calls[|calls| - 1];
      if last.hook != FreeHook then last.frames else FramesSince(calls[..|calls| - 1]) + last.frames
  }

  lemma SizeOfTwo(calls: seq<Task>)
    requires AllocThenFree(calls) && calls != []
    ensures SizeOfLatest(calls) == calls[0].size
  {
    if |calls| == 2 {
      assert calls[..1][|calls[..1]| - 1] == calls[0];
    }
  }

  lemma LatestAfter(front: seq<Record>, r: Record, a: Addr)
    ensures var log, served := front + [r], r.AllocEvent? && r.addr == a;
      && LatestSize(log, a) == (if served then r.size else LatestSize(front, a))
      && TraceSince(log, a) == (if served then [] else TraceSince(front, a)) +
         (if r.FrameRecord? && Cursor(front) == a then [r.addr] else [])
  {
    assert (front + [r])[..|front|] == front;
  }

  lemma {:induction false} LatestOfGroup(log: seq<Record>, task: Task, k: nat, a: Addr)
    requires 0 < k <= |Records(task)|
    ensures var part := log + Records(task)[..k];
      && LatestSize(part, a) == (if task.addr == a && task.hook != FreeHook then task.size else LatestSize(log, a))
      && TraceSince(part, a) == (if task.addr == a && task.hook != FreeHook then [] else TraceSince(log, a)) +
         (if task.addr == a then task.frames[..k - 1] else [])
    decreases k
  {
    hide LatestSize, TraceSince, Cursor;
    var part, front, r := log + Records(task)[..k], log + Records(task)[..k - 1], Records(task)[k - 1];
    assert part == front + [r];
    RecordsAreEvents(task, k - 1);
    LatestAfter(front, r, a);
    if k > 1 {
      CursorOfGroup(log, task, k - 1);
      LatestOfGroup(log, task, k - 1, a);
      assert task.frames[..k - 1] == task.frames[..k - 2] + [task.frames[k - 2]];
    } else {
      assert front == log && task.frames[..0] == [];
    }
  }

  // Size and frames since the latest alloc are those of the calls about the address.
  lemma {:induction false} LatestOfTasks(tasks: seq<Task>, a: Addr)
    ensures LatestSize(Flatten(tasks), a) == SizeOfLatest(TasksAbout(tasks, a))
    ensures TraceSince(Flatten(tasks), a) == FramesSince(TasksAbout(tasks, a))
  {
    if tasks != [] {
      var front, last := tasks[..|tasks| - 1], tasks[|tasks| - 1];
      LatestOfTasks(front, a);
      LatestOfGroup(Flatten(front), last, |Records(last)|, a);
      assert Records(last)[..|Records(last)|] == Records(last);
      assert last.frames[..|last.frames|] == last.frames;
      var calls := TasksAbout(front, a);
      assert (calls + [last])[..|calls|] == calls && calls + [] == calls;
    }
  }

  lemma {:induction false} LatestEvents(log: seq<Record>, a: Addr)
    ensures LatestSize(Events(log), a) == LatestSize(log, a) && TraceSince(Events(log), a) == TraceSince(log, a)
    decreases |log|
  {
    if log != [] {
      var front, last := log[..|log| - 1], log[|log| - 1];
      LatestEvents(front, a);
      EventsSuffice(front, a);
      if !last.ModuleRecord? {
        assert (Events(front) + [last])[..|Events(front)|] == Events(front);
      } else {
        assert Events(front) + [] == Events(front) && TraceSince(front, a) + [] == TraceSince(front, a);
      }
    }
  }

  // ------------------------------------------------------------ conditions on calls

  function Allocating(calls: seq<Task>): nat
  {
    if calls == [] then 0
    else Allocating(calls[..|calls| - 1]) + if calls[|calls| - 1].hook != FreeHook then 1 else 0
  }

  // The bytes served in all
  function BytesServed(calls: seq<Task>): nat
  {
    if calls == [] then 0
    else
      BytesServed(calls[..|calls| - 1]) + if calls[|calls| - 1].hook != FreeHook then calls[|calls| - 1].size else 0
  }

  // The number of the latest call that allocated an address, among those that allocate;
  // 0 if there is none
  function AllocNumber(calls: seq<Task>, a: Addr): nat
  {
    if calls == [] then 0
    else
      var front, last := calls[..|calls| - 1], calls[|calls| - 1];
      if last.hook != FreeHook && last.addr == a then Allocating(front) + 1 else AllocNumber(front, a)
  }

  // No address comes back: at most an alloc and a free
  ghost predicate NoneComesBack(calls: seq<Task>)
  {
    forall a: Addr :: |TasksAbout(calls, a)| <= 2
  }

  // The calls about one address have no more frames than its entry holds.
  ghost predicate FewFramesEach(calls: seq<Task>)
  {
    forall a: Addr :: |FramesAbout(calls, a)| <= MAX_BACKTRACE_COUNT
  }

  // The same for the calls since the latest that allocated the address, at any time
  ghost predicate FewFramesSince(calls: seq<Task>)
    decreases |calls|
  {
    calls == [] ||
    var front, last := calls[..|calls| - 1], calls[|calls| - 1];
    FewFramesSince(front) && |FramesSince(TasksAbout(calls, last.addr))| <= MAX_BACKTRACE_COUNT
  }

  lemma {:induction false} IndexOfGroup(log: seq<Record>, task: Task, k: nat, a: Addr)
    requires 0 < k <= |Records(task)|
    ensures var part := log + Records(task)[..k];
      && CountAllocs(part) == CountAllocs(log) + (if task.hook != FreeHook then 1 else 0)
      && SumSizes(part) == SumSizes(log) + (if task.hook != FreeHook then task.size else 0)
      && LatestIndex(part, a) ==
         (if task.hook != FreeHook && task.addr == a then CountAllocs(log) else LatestIndex(log, a))
    decreases k
  {
    var part, front := log + Records(task)[..k], log + Records(task)[..k - 1];
    assert part[..|part| - 1] == front && part[|part| - 1] == Records(task)[k - 1];
    if k > 1 {
      RecordsAreEvents(task, k - 1);
      IndexOfGroup(log, task, k - 1, a);
    } else {
      assert front == log;
    }
  }

  lemma {:induction false} IndexOfTasks(tasks: seq<Task>, a: Addr)
    ensures CountAllocs(Flatten(tasks)) == Allocating(tasks) && SumSizes(Flatten(tasks)) == BytesServed(tasks)
    ensures LatestIndex(Flatten(tasks), a) + 1 == AllocNumber(tasks, a)
  {
    if tasks != [] {
      var front, last := tasks[..|tasks| - 1], tasks[|tasks| - 1];
      IndexOfTasks(front, a);
      IndexOfGroup(Flatten(front), last, |Records(last)|, a);
      assert Records(last)[..|Records(last)|] == Records(last);
    }
  }

  lemma {:induction false} IndexEvents(log: seq<Record>, a: Addr)
    ensures CountAllocs(Events(log)) == CountAllocs(log) && SumSizes(Events(log)) == SumSizes(log)
    ensures LatestIndex(Events(log), a) == LatestIndex(log, a)
    decreases |log|
  {
    if log != [] {
      var front, last := log[..|log| - 1], log[|log| - 1];
      IndexEvents(front, a);
      if !last.ModuleRecord? {
        assert (Events(front) + [last])[..|Events(front)|] == Events(front);
      } else {
        assert Events(front) + [] == Events(front);
      }
    }
  }
}
