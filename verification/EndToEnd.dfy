// From the hooks to the report: the records of any run, written as lines among those of
// the executable path, the modules and the heap regions, read back and listed by the
// interpreter.
module EndToEnd {
  import opened Handles
  import opened HashState
  import opened AddedTable
  import opened EventLog
  import opened LeakReport
  import opened ProgramCalls
  import opened ReaderState
  import opened Listing
  import opened Tracing
  import opened LogFile
  import opened Interpreter

  // ------------------------------------------------------------ records as read

  // The size of a free matters to nothing the report is made of.
  lemma {:induction false} AsReadSame(log: seq<Record>, a: Addr)
    ensures var read := AllAsRead(log);
      && CountAllocs(read) == CountAllocs(log) && CountFrees(read) == CountFrees(log) && Cursor(read) == Cursor(log)
      && About(read, a) == About(log, a) && LatestIndex(read, a) == LatestIndex(log, a)
      && LatestSize(read, a) == LatestSize(log, a) && TraceSince(read, a) == TraceSince(log, a)
      && SumSizes(read) == SumSizes(log)
      && Outstanding(read) == Outstanding(log)
    decreases |log|
  {
    if log != [] {
      var n := |log| - 1;
      AsReadSame(log[..n], a);
      assert AllAsRead(log)[..n] == AllAsRead(log[..n]);
    }
  }

  lemma {:induction false} AsReadInOrder(log: seq<Record>)
    requires InOrder(log)
    ensures InOrder(AllAsRead(log))
  {
    var read := AllAsRead(log);
    forall a: Addr ensures Alternates(About(read, a)) {
      AsReadSame(log, a);
    }
    forall i | 0 <= i < |read| && read[i].FrameRecord? ensures Cursor(read[..i]) != NULL {
      assert read[..i] == AllAsRead(log[..i]);
      AsReadSame(log[..i], NULL);
    }
  }

  lemma {:induction false} FewSinceAsRead(log: seq<Record>)
    ensures FewSince(AllAsRead(log)) <==> FewSince(log)
    decreases |log|
  {
    if log != [] {
      var n := |log| - 1;
      FewSinceAsRead(log[..n]);
      AsReadSame(log[..n], Cursor(log[..n]));
      assert AllAsRead(log)[..n] == AllAsRead(log[..n]);
    }
  }

  lemma {:induction false} SuppliesAsRead(log: seq<Record>, supply: seq<Element>)
    ensures Supplies(AllAsRead(log), supply) <==> Supplies(log, supply)
    decreases |log|
  {
    AsReadSame(log, NULL);
    if log != [] {
      var n := |log| - 1;
      assert AllAsRead(log)[..n] == AllAsRead(log[..n]);
      if |supply| == CountAllocs(log) {
        SuppliesAsRead(log[..n], if log[n].AllocEvent? then supply[..|supply| - 1] else supply);
      }
    }
  }

  lemma {:induction false} FindsLatestAsRead(hash: HashFn, log: seq<Record>, supply: seq<Element>)
    requires |supply| == CountAllocs(log)
    ensures |supply| == CountAllocs(AllAsRead(log))
    ensures FindsLatest(hash, AllAsRead(log), supply) <==> FindsLatest(hash, log, supply)
    decreases |log|
  {
    hide TableOf, Find;
    AsReadSame(log, NULL);
    if log != [] {
      var n := |log| - 1;
      assert AllAsRead(log)[..n] == AllAsRead(log[..n]);
      FindsLatestAsRead(hash, log[..n], if log[n].AllocEvent? then supply[..|supply| - 1] else supply);
      AsReadSame(log[..n], if log[n].FreeEvent? then log[n].addr else Cursor(log[..n]));
    }
  }

  lemma {:induction false} AsReadKeepsAddresses(log: seq<Record>)
    ensures AddressesIn(AllAsRead(log)) == AddressesIn(log)
    decreases |log|
  {
    if log != [] {
      var n := |log| - 1;
      AsReadKeepsAddresses(log[..n]);
      assert AllAsRead(log)[..n] == AllAsRead(log[..n]);
    }
  }

  lemma {:induction false} AsReadIsFollowable(log: seq<Record>)
    requires Followable(log)
    ensures Followable(AllAsRead(log))
    decreases |log|
  {
    if log != [] {
      var n := |log| - 1;
      AsReadIsFollowable(log[..n]);
      AsReadKeepsAddresses(log[..n]);
      assert AllAsRead(log)[..n] == AllAsRead(log[..n]);
    }
  }

  // ------------------------------------------------------------ addresses

  lemma {:induction false} WrittenAddresses(log: seq<Stamped>)
    requires AllLoggable(log)
    ensures forall i :: 0 <= i < |RecordsWritten(log)| ==> RecordsWritten(log)[i].addr < POINTER_LIMIT
    decreases |log|
  {
    if log != [] {
      WrittenAddresses(log[1..]);
    }
  }

  lemma {:induction false} PointersAt(log: seq<Record>)
    requires forall i :: 0 <= i < |log| ==> log[i].addr < POINTER_LIMIT
    ensures Pointers64(log)
    decreases |log|
  {
    if log != [] {
      PointersAt(log[..|log| - 1]);
    }
  }

  lemma {:induction false} AllocsOfPrefix(log: seq<Record>, n: nat)
    requires n <= |log|
    ensures CountAllocs(log[..n]) <= CountAllocs(log) && (Pointers64(log) ==> Pointers64(log[..n]))
    decreases |log|
  {
    if n < |log| {
      assert log[..|log| - 1][..n] == log[..n];
      AllocsOfPrefix(log[..|log| - 1], n);
    } else {
      assert log[..n] == log;
    }
  }

  // Without reuse, or with fewer than ten allocs, lookups find the latest entries.
  lemma LookupsAreRight(hash: HashFn, log: seq<Record>, n: nat, supply: seq<Element>)
    requires InOrder(log) && Pointers64(log) && n <= |log| && Supplies(log[..n], supply)
    requires NoReuse(log) || CountAllocs(log) < BKT_CAPACITY_THRESH
    ensures |supply| == CountAllocs(log[..n]) && FindsLatest(hash, log[..n], supply)
  {
    AllocsOfPrefix(log, n);
    if NoReuse(log) {
      InTurnIsFollowable(log);
      PrefixIsFollowable(log, n);
    } else {
      FewAllocsAreTame(hash, log[..n], supply);
    }
    TameFindsLatest(hash, log[..n], supply);
  }

  // ------------------------------------------------------------ the list, by the calls

  // The line of an address that the program was served and has not freed: the number of
  // the call that allocated it last, its size and its frames.
  ghost predicate IsOwnedLine(x: Line, steps: seq<Step>, a: Addr)
  {
    var calls := TasksAbout(CallsOf(steps), a);
    && a in Kept(steps) && x.key == PtrKey(a) && x.number == AllocNumber(CallsOf(steps), a)
    && calls != [] && calls[|calls| - 1].hook != FreeHook
    && x.size == calls[|calls| - 1].size && x.traces == calls[|calls| - 1].frames
  }

  ghost predicate OwnedIsListed(list: seq<Line>, steps: seq<Step>, a: Addr)
  {
    exists i :: 0 <= i < |list| && IsOwnedLine(list[i], steps, a)
  }

  ghost predicate ListedIsOwned(x: Line, steps: seq<Step>)
  {
    exists a :: IsOwnedLine(x, steps, a)
  }

  // Exactly one line for each address that the program still owns, in the order of allocation
  ghost predicate ListsOwned(list: seq<Line>, steps: seq<Step>)
  {
    && (forall a :: a in Kept(steps) ==> OwnedIsListed(list, steps, a))
    && (forall i :: 0 <= i < |list| ==> ListedIsOwned(list[i], steps))
    && |list| == |Kept(steps)| && Increasing(list)
  }

  lemma LineOfCall(steps: seq<Step>, a: Addr)
    requires Behaviour(Start(), steps) && NoFailure(steps)
    requires forall t: Tid :: PhaseOf(After(Start(), steps), t) == Idle
    requires a in Kept(steps)
    ensures var log := After(Start(), steps).log;
      LatestIndex(log, a) >= 0 && IsOwnedLine(LeakLine(log, a), steps, a)
  {
    hide Behaviour, After, NoFailure, PhaseOf, About, TasksAbout, LatestIndex, LatestSize, TraceSince;
    hide CallsOf, Kept, AllocNumber;
    var log := After(Start(), steps).log;
    OutstandingIsKept(steps);
    LogIsInOrder(steps);
    AboutAlternates(log, a);
    OutstandingIsOdd(log, a);
    LatestIsAllocated(log, a);
    LogTellsCalls(steps, a);
    LastIsAlloc(TasksAbout(CallsOf(steps), a));
  }

  lemma LastIsAlloc(calls: seq<Task>)
    requires Alternates(Kinds(calls)) && |Kinds(calls)| % 2 == 1
    ensures calls != [] && calls[|calls| - 1].hook != FreeHook
    ensures SizeOfLatest(calls) == calls[|calls| - 1].size && FramesSince(calls) == calls[|calls| - 1].frames
  {
    assert Kinds(calls)[|calls| - 1] == (calls[|calls| - 1].hook != FreeHook);
  }

  lemma OwnedAreListed(steps: seq<Step>, records: seq<Record>, list: seq<Line>)
    requires Behaviour(Start(), steps) && NoFailure(steps)
    requires forall t: Tid :: PhaseOf(After(Start(), steps), t) == Idle
    requires records == AllAsRead(After(Start(), steps).log)
    requires ListsExactly(list, records, Outstanding(records))
    ensures ListsOwned(list, steps)
  {
    hide Behaviour, After, NoFailure, PhaseOf, Outstanding, IsOwnedLine, OwnedIsListed, ListedIsOwned, LatestIndex;
    hide CallsOf, Kept, AllocNumber;
    var log := After(Start(), steps).log;
    AsReadSame(log, NULL);
    OutstandingIsKept(steps);
    forall a | a in Kept(steps) ensures OwnedIsListed(list, steps, a) {
      LineOfCall(steps, a);
      LineAsRead(log, a);
      OwnedListed(list, steps, a, LeakLine(log, a));
    }
    forall i | 0 <= i < |list| ensures ListedIsOwned(list[i], steps) {
      var a := OwnerOf(list[i], records, Kept(steps));
      LineOfCall(steps, a);
      LineAsRead(log, a);
      ListedOwned(list[i], steps, a);
    }
  }

  lemma LineAsRead(log: seq<Record>, a: Addr)
    requires LatestIndex(log, a) >= 0
    ensures LatestIndex(AllAsRead(log), a) >= 0 && LeakLine(AllAsRead(log), a) == LeakLine(log, a)
  {
    AsReadSame(log, a);
  }

  lemma OwnerOf(x: Line, log: seq<Record>, addrs: set<Addr>) returns (a: Addr)
    requires IsLineOf(x, log, addrs)
    ensures a in addrs && LatestIndex(log, a) >= 0 && x == LeakLine(log, a)
  {
    a := AllocatedAt(log, x.number - 1);
  }

  lemma OwnedListed(list: seq<Line>, steps: seq<Step>, a: Addr, x: Line)
    requires x in list && IsOwnedLine(x, steps, a)
    ensures OwnedIsListed(list, steps, a)
  {
  }

  lemma ListedOwned(x: Line, steps: seq<Step>, a: Addr)
    requires IsOwnedLine(x, steps, a)
    ensures ListedIsOwned(x, steps)
  {
  }

  // ------------------------------------------------------------ the profiler

  // Whatever the threads did: if no request failed, no address came back, all calls have
  // returned and all lines fit, then the file of their records, with the other lines
  // anywhere in between, is one the interpreter can follow, and reading it finds no fault
  // exactly when the calls about each address have no more frames than its entry can
  // hold. Then it reports as leaks exactly the addresses served and not freed, and each
  // entry belongs to an alloc and perhaps a free, whose frames it has in that order.
  lemma ProfilerIsRight(steps: seq<Step>, log: seq<Stamped>, a: Addr)
    requires Behaviour(Start(), steps) && NoFailure(steps) && NoneComesBack(CallsOf(steps))
    requires forall t: Tid :: PhaseOf(After(Start(), steps), t) == Idle
    requires AllLoggable(log) && RecordsWritten(log) == After(Start(), steps).log
    ensures Followable(RecordsRead(Lines(FileText(log))))
    ensures ReadAll(RecordsRead(Lines(FileText(log)))).Ok? <==> FewFramesEach(CallsOf(steps))
    ensures ReadAll(RecordsRead(Lines(FileText(log)))).Ok? ==>
      var summary := ReadAll(RecordsRead(Lines(FileText(log)))).summary;
      && Leaks(summary) == Kept(steps)
      && summary.allocCount == Allocating(CallsOf(steps)) == summary.freeCount + |Kept(steps)|
      && summary.total == BytesServed(CallsOf(steps))
      && EntryTellsCalls(summary, TasksAbout(CallsOf(steps), a), a)
  {
    hide CallsOf, LatestCall, Kept, Behaviour, After, NoReuse, NoneComesBack, FewFramesEach, EntryTellsCalls;
    ReportIsRight(steps, a);
    ConditionsOfCalls(steps);
    FileReadsBack(log);
    LogIsInOrder(steps);
    var written := RecordsWritten(log);
    WrittenAddresses(log);
    PointersAt(written);
    InTurnIsFollowable(written);
    AsReadIsFollowable(written);
  }

  // main on the file of any run: whatever the threads did, if no request failed, all
  // calls have returned and all lines fit, then, provided that lookups find the latest
  // entries, reading finds no fault exactly when no entry gets more frames than it can
  // hold, and the list has exactly the addresses served and not freed, each with the
  // number, the size and the frames of the call that allocated it. Lookups find the
  // latest entries if no address comes back, or if there are fewer than ten allocs.
  method Profile(hash: HashFn, file: string, ghost steps: seq<Step>, ghost log: seq<Stamped>)
    returns (c: Stats, leaks: seq<Line>, fault: Option<Fault>, ghost supply: seq<Element>, ghost read: nat)
    requires Behaviour(Start(), steps) && NoFailure(steps)
    requires forall t: Tid :: PhaseOf(After(Start(), steps), t) == Idle
    requires AllLoggable(log) && RecordsWritten(log) == After(Start(), steps).log && file == FileText(log)
    ensures var end, made := After(Start(), steps), CallsOf(steps);
      && read <= |end.log| && Supplies(end.log[..read], supply)
      && (NoneComesBack(made) || Allocating(made) < BKT_CAPACITY_THRESH ==>
          FindsLatest(hash, end.log[..read], supply))
      && (FindsLatest(hash, end.log[..read], supply) ==>
          && (fault == None <==> FewFramesSince(made))
          && (fault == None ==> ListsOwned(leaks, steps)))
    ensures fault == None ==>
      && c.allocCount == Allocating(CallsOf(steps)) == c.freeCount + |Kept(steps)|
      && c.total == BytesServed(CallsOf(steps))
  {
    hide Behaviour, After, NoFailure, PhaseOf, NoReuse, InOrder, CallsOf, Kept, Allocating, NoneComesBack;
    hide FindsLatest, FewSince, FewFramesSince, Supplies, ListsOwned, ListsExactly;
    ghost var end := After(Start(), steps);
    FileReadsBack(log);
    LogIsInOrder(steps);
    AsReadInOrder(end.log);
    ghost var deleted;
    c, leaks, fault, supply, read, deleted := Interpret(hash, RecordsRead(Lines(file)));
    ghost var records := AllAsRead(end.log);
    assert records[..read] == AllAsRead(end.log[..read]);
    SuppliesAsRead(end.log[..read], supply);
    SuppliesCount(end.log[..read], supply);
    FindsLatestAsRead(hash, end.log[..read], supply);
    FewSinceAsRead(end.log);
    FewSinceOfRun(steps);
    LogTellsCalls(steps, NULL);
    ConditionsOfCalls(steps);
    if NoneComesBack(CallsOf(steps)) || Allocating(CallsOf(steps)) < BKT_CAPACITY_THRESH {
      WrittenAddresses(log);
      PointersAt(end.log);
      LookupsAreRight(hash, end.log, read, supply);
    }
    if fault == None && FindsLatest(hash, end.log[..read], supply) {
      OwnedAreListed(steps, records, leaks);
    }
    AsReadSame(end.log, NULL);
    OwnedCount(steps);
  }

  lemma FewSinceOfRun(steps: seq<Step>)
    requires Behaviour(Start(), steps)
    requires forall t: Tid :: PhaseOf(After(Start(), steps), t) == Idle
    ensures FewSince(After(Start(), steps).log) <==> FewFramesSince(CallsOf(steps))
  {
    QuietLog(steps);
    FewEvents(After(Start(), steps).log);
    FewOfTasks(CallsOf(steps));
  }

  lemma OwnedCount(steps: seq<Step>)
    requires Behaviour(Start(), steps) && NoFailure(steps)
    requires forall t: Tid :: PhaseOf(After(Start(), steps), t) == Idle
    ensures var end := After(Start(), steps); CountAllocs(end.log) == CountFrees(end.log) + |Kept(steps)|
  {
    LogIsInOrder(steps);
    OutstandingCount(After(Start(), steps).log);
    OutstandingIsKept(steps);
  }
}
