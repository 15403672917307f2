// Inputs on which the code is not right: a trace buffer that overflows, a freed address
// that is reported, a line that is cut.
module Counterexamples {
  import opened Handles
  import opened HashState
  import opened Sequences
  import opened Runs
  import opened Duplicates
  import opened AddedTable
  import opened EventLog
  import opened LeakReport
  import opened ReaderState
  import opened Listing
  import opened ProgramCalls
  import opened Tracing
  import opened CallRuns
  import I = IntegerText
  import Text = LogText
  import LogFile

  // ------------------------------------------------------------ frames

  // An address allocated and freed, with the frames of either call
  function TwoCalls(a: Addr, size: nat, taken: seq<Addr>, freed: seq<Addr>): seq<Task>
  {
    [Task(MallocHook, a, size, taken)] + [Task(FreeHook, a, size, freed)]
  }

  lemma TwoMayBeMade(a: Addr, size: nat, taken: seq<Addr>, freed: seq<Addr>)
    requires a != NULL && |taken| < MAX_BACKTRACE_COUNT && |freed| < MAX_BACKTRACE_COUNT
    ensures MayCallAll(TwoCalls(a, size, taken, freed), {})
  {
    var x, y := Task(MallocHook, a, size, taken), Task(FreeHook, a, size, freed);
    var calls := TwoCalls(a, size, taken, freed);
    assert calls[0] == x && calls[1..] == [y] && [y][1..] == [];
    assert MayCallAll([y], {a});
  }

  lemma AboutTwo(a: Addr, size: nat, taken: seq<Addr>, freed: seq<Addr>, b: Addr)
    ensures var calls := TwoCalls(a, size, taken, freed);
      |TasksAbout(calls, b)| <= 2 && FramesAbout(calls, b) == if b == a then taken + freed else []
  {
    var x, y := Task(MallocHook, a, size, taken), Task(FreeHook, a, size, freed);
    var calls := TwoCalls(a, size, taken, freed);
    assert calls[..1] == [x] && [x][..0] == [];
    assert FramesAbout([x], b) == if b == a then taken else [];
    assert |TasksAbout([x], b)| <= 1;
  }

  // A run of one malloc and its free is read without fault exactly when the frames of
  // both together fit one trace buffer; each call alone may have 31.
  lemma TwoCallsOverflow(t: Tid, a: Addr, size: nat, taken: seq<Addr>, freed: seq<Addr>)
    requires a != NULL && |taken| < MAX_BACKTRACE_COUNT && |freed| < MAX_BACKTRACE_COUNT
    ensures var steps := StepsOf(t, [], TwoCalls(a, size, taken, freed));
      && Behaviour(Start(), steps) && NoFailure(steps)
      && (forall u: Tid :: PhaseOf(After(Start(), steps), u) == Idle)
      && var log := After(Start(), steps).log;
      && NoReuse(log)
      && (FewFrames(log) <==> |taken| + |freed| <= 32) && (ReadAll(log).Ok? <==> |taken| + |freed| <= 32)
  {
    hide Behaviour, After, StepsOf, NoFailure, ReadAll, TraceOf, About, PhaseOf, TwoCalls, TasksAbout, FramesAbout;
    var calls := TwoCalls(a, size, taken, freed);
    TwoMayBeMade(a, size, taken, freed);
    CallsCanRun(t, [], calls);
    var steps := StepsOf(t, [], calls);
    var log := After(Start(), steps).log;
    forall b: Addr ensures |About(log, b)| <= 2 && |TraceOf(log, b)| == if b == a then |taken| + |freed| else 0 {
      AboutTwo(a, size, taken, freed, b);
      AboutOfTasks(calls, b);
      TraceOfTasks(calls, b);
    }
    assert FewAbout(log, a) <==> |taken| + |freed| <= MAX_BACKTRACE_COUNT;
    LogIsInOrder(steps);
    ReadDescribes(log);
  }

  // Thirty-one frames each are too many.
  lemma TraceOverflows()
    ensures exists steps ::
      && Behaviour(Start(), steps) && NoFailure(steps) && NoReuse(After(Start(), steps).log)
      && (forall u: Tid :: PhaseOf(After(Start(), steps), u) == Idle)
      && !FewFrames(After(Start(), steps).log) && ReadAll(After(Start(), steps).log).Failed?
  {
    hide Behaviour, After, StepsOf, NoFailure, ReadAll, NoReuse, FewFrames, PhaseOf;
    var frames := seq(31, i => 1);
    TwoCallsOverflow(0, 1, 1, frames, frames);
    assert !FewFrames(After(Start(), StepsOf(0, [], TwoCalls(1, 1, frames, frames))).log);
  }

  // ------------------------------------------------------------ a freed address is listed

  const SIZE: nat := 8

  function Malloc(a: Addr): Task
  {
    Task(MallocHook, a, SIZE, [])
  }

  function Free(a: Addr): Task
  {
    Task(FreeHook, a, SIZE, [])
  }

  // Address 1 is allocated, freed and allocated again; then 2 up to n + 1 are allocated.
  function Calls(n: nat): (r: seq<Task>)
  {
    if n == 0 then [Malloc(1)] + [Free(1)] + [Malloc(1)] else Calls(n - 1) + [Malloc(n + 1)]
  }

  function Log(n: nat): (r: seq<Record>)
  {
    if n == 0 then [AllocEvent(1, SIZE)] + [FreeEvent(1, SIZE)] + [AllocEvent(1, SIZE)]
    else Log(n - 1) + [AllocEvent(n + 1, SIZE)]
  }

  // The run that frees address 1 at last, and its log
  function ReusingCalls(): seq<Task>
  {
    Calls(8) + [Free(1)]
  }

  function ReusingLog(): seq<Record>
  {
    Log(8) + [FreeEvent(1, SIZE)]
  }

  lemma {:induction false} CallsMayBeMade(n: nat)
    ensures MayCallAll(Calls(n), {})
    ensures forall a :: a in OwnedAfterAll(Calls(n), {}) <==> 1 <= a <= n + 1
  {
    if n == 0 {
      MayCallOneMore([], {}, Malloc(1));
      assert [] + [Malloc(1)] == [Malloc(1)];
      MayCallOneMore([Malloc(1)], {}, Free(1));
      MayCallOneMore([Malloc(1)] + [Free(1)], {}, Malloc(1));
    } else {
      CallsMayBeMade(n - 1);
      MayCallOneMore(Calls(n - 1), {}, Malloc(n + 1));
    }
  }

  lemma OneRecord(calls: seq<Task>, a: Addr)
    ensures Flatten(calls + [Malloc(a)]) == Flatten(calls) + [AllocEvent(a, SIZE)]
    ensures Flatten(calls + [Free(a)]) == Flatten(calls) + [FreeEvent(a, SIZE)]
  {
    FlattenSnoc(calls, Malloc(a));
    FlattenSnoc(calls, Free(a));
  }

  lemma {:induction false} LogOfCalls(n: nat)
    ensures Flatten(Calls(n)) == Log(n)
  {
    hide Malloc, Free, Records;
    if n == 0 {
      OneRecord([], 1);
      assert [] + [Malloc(1)] == [Malloc(1)] && Flatten([]) + [AllocEvent(1, SIZE)] == [AllocEvent(1, SIZE)];
      OneRecord([Malloc(1)], 1);
      OneRecord([Malloc(1)] + [Free(1)], 1);
    } else {
      LogOfCalls(n - 1);
      OneRecord(Calls(n - 1), n + 1);
    }
  }

  lemma MayFree(owned: set<Addr>)
    requires 1 in owned
    ensures MayCall(Free(1), owned)
  {
  }

  lemma NothingOutstanding()
    ensures 1 !in Outstanding(ReusingLog())
  {
  }

  // It is the log of a run.
  lemma ReusingLogIsWritten(t: Tid)
    ensures var steps := StepsOf(t, [], ReusingCalls());
      && Behaviour(Start(), steps) && NoFailure(steps)
      && (forall u: Tid :: PhaseOf(After(Start(), steps), u) == Idle)
      && After(Start(), steps).log == ReusingLog() && CallsOf(steps) == ReusingCalls() && 1 !in Kept(steps)
    ensures InOrder(Log(8)) && InOrder(ReusingLog())
  {
    hide Behaviour, After, StepsOf, NoFailure, PhaseOf, MayCallAll, MayCall, OwnedAfterAll;
    hide Flatten, InOrder, Calls, Log;
    CallsMayBeMade(8);
    LogOfCalls(8);
    CallsCanRun(t, [], Calls(8));
    LogIsInOrder(StepsOf(t, [], Calls(8)));
    MayCallOneMore(Calls(8), {}, Free(1));
    assert MayCall(Free(1), OwnedAfterAll(Calls(8), {})) by {
      MayFree(OwnedAfterAll(Calls(8), {}));
    }
    OneRecord(Calls(8), 1);
    CallsCanRun(t, [], ReusingCalls());
    LogIsInOrder(StepsOf(t, [], ReusingCalls()));
    OutstandingIsKept(StepsOf(t, [], ReusingCalls()));
    NothingOutstanding();
  }

  lemma PointersOneMore(front: seq<Record>, r: Record)
    ensures Pointers64(front + [r]) <==>
      Pointers64(front) && (r.AllocEvent? || r.FreeEvent? ==> r.addr < POINTER_LIMIT)
  {
    assert (front + [r])[..|front|] == front;
  }

  lemma LogStarts()
    ensures var log := Log(0);
      && CountAllocs(log) == 2 && LatestIndex(log, 1) == 1 && LatestSize(log, 1) == SIZE && TraceSince(log, 1) == []
      && About(log, 1) == [true, false, true] && Pointers64(log)
      && AllocatedAt(log, 0) == 1 && AllocatedAt(log, 1) == 1
  {
    hide LatestIndex, LatestSize, TraceSince, AllocatedAt;
    var x, y := [AllocEvent(1, SIZE)], [AllocEvent(1, SIZE)] + [FreeEvent(1, SIZE)];
    assert [] + x == x && x[..0] == [] && y[..1] == x && Log(0)[..2] == y;
    AllocatedSoFar([], 1, SIZE, 0);
    assert CountAllocs(x) == 1 && CountAllocs(y) == 1;
    AllocatedBefore(x, FreeEvent(1, SIZE), 0);
    AllocatedSoFar(y, 1, SIZE, 0);
    AllocatedSoFar(y, 1, SIZE, 1);
    AnAlloc(y, 1, SIZE, 1);
    AboutSnoc([], x[0], 1);
    AboutSnoc(x, FreeEvent(1, SIZE), 1);
    PointersOneMore([], x[0]);
    PointersOneMore(x, FreeEvent(1, SIZE));
    PointersOneMore(y, AllocEvent(1, SIZE));
  }

  lemma {:induction false} LogFacts(n: nat)
    ensures CountAllocs(Log(n)) == n + 2 && LatestIndex(Log(n), 1) == 1 && LatestSize(Log(n), 1) == SIZE
    ensures TraceSince(Log(n), 1) == [] && About(Log(n), 1) == [true, false, true]
    ensures n < POINTER_LIMIT - 1 ==> Pointers64(Log(n))
    ensures forall i :: 0 <= i < n + 2 ==> AllocatedAt(Log(n), i) == if i < 2 then 1 else i
  {
    hide LatestIndex, LatestSize, TraceSince, AllocatedAt, About, CountAllocs;
    if n == 0 {
      LogStarts();
    } else {
      LogFacts(n - 1);
      AnAlloc(Log(n - 1), n + 1, SIZE, 1);
      assert Log(n)[..|Log(n)| - 1] == Log(n - 1);
      forall i | 0 <= i < n + 2 ensures AllocatedAt(Log(n), i) == if i < 2 then 1 else i {
        AllocatedSoFar(Log(n - 1), n + 1, SIZE, i);
      }
    }
  }

  lemma SuppliesFront(front: seq<Record>, a: Addr, supply: seq<Element>)
    requires Supplies(front + [AllocEvent(a, SIZE)], supply)
    ensures |supply| == CountAllocs(front) + 1 && Supplies(front, supply[..|supply| - 1])
  {
    assert (front + [AllocEvent(a, SIZE)])[..|front|] == front;
  }

  lemma AllocFindsLatest(hash: HashFn, front: seq<Record>, a: Addr, supply: seq<Element>)
    requires |supply| == CountAllocs(front) + 1 && FindsLatest(hash, front, supply[..|supply| - 1])
    ensures |supply| == CountAllocs(front + [AllocEvent(a, SIZE)])
    ensures FindsLatest(hash, front + [AllocEvent(a, SIZE)], supply)
  {
    assert (front + [AllocEvent(a, SIZE)])[..|front|] == front;
  }

  lemma FewOneMore(front: seq<Record>, r: Record)
    requires FewSince(front) && !r.FrameRecord?
    ensures FewSince(front + [r])
  {
    assert (front + [r])[..|front|] == front;
  }

  lemma {:induction false} FewWithoutFrames(n: nat)
    ensures FewSince(Log(n))
  {
    hide FewSince;
    if n == 0 {
      var x := [AllocEvent(1, SIZE)];
      NoneIsFew();
      assert [] + x == x;
      FewOneMore([], x[0]);
      FewOneMore(x, FreeEvent(1, SIZE));
      FewOneMore(x + [FreeEvent(1, SIZE)], AllocEvent(1, SIZE));
    } else {
      FewWithoutFrames(n - 1);
      FewOneMore(Log(n - 1), AllocEvent(n + 1, SIZE));
    }
  }

  lemma NoneIsFew()
    ensures FewSince([])
  {
  }

  lemma LatestAreFound(hash: HashFn, front: seq<Record>, a: Addr, supply: seq<Element>)
    requires Supplies(front + [AllocEvent(a, SIZE)], supply) && Pointers64(front)
    requires CountAllocs(front) < BKT_CAPACITY_THRESH
    ensures |supply| == CountAllocs(front + [AllocEvent(a, SIZE)])
    ensures FindsLatest(hash, front + [AllocEvent(a, SIZE)], supply)
  {
    hide Supplies, FindsLatest, Tame, Pointers64, CountAllocs;
    SuppliesFront(front, a, supply);
    var rest := supply[..|supply| - 1];
    FewAllocsAreTame(hash, front, rest);
    TameFindsLatest(hash, front, rest);
    AllocFindsLatest(hash, front, a, supply);
  }

  lemma ToldAt(hash: HashFn, log: seq<Record>, supply: seq<Element>, i: nat)
    requires InOrder(log) && Supplies(log, supply) && FewSince(log)
    requires |supply| == CountAllocs(log) && FindsLatest(hash, log, supply) && i < |supply|
    ensures ReadLog(hash, log, supply).Going?
    ensures var view := ReadLog(hash, log, supply).reading.view;
      supply[i] in view && TellsAt(log, i, view[supply[i]])
  {
    hide InOrder, Supplies, FewSince, FindsLatest, ReadLog, TellsAt, CountAllocs;
    ReadTells(hash, log, supply);
  }

  // Before the last free, the second entry of address 1 leaks, as it should.
  lemma SecondLeaks(hash: HashFn, supply: seq<Element>)
    requires Supplies(Log(8), supply)
    ensures |supply| == 10 && ReadLog(hash, Log(8), supply).Going?
    ensures var view := ReadLog(hash, Log(8), supply).reading.view;
      supply[1] in view && view[supply[1]] == Info(SIZE, true, [])
  {
    hide LatestIndex, LatestSize, TraceSince, AllocatedAt, About, CountAllocs, Pointers64;
    hide ReadLog, InOrder, Supplies, FindsLatest, FewSince;
    ReusingLogIsWritten(0);
    LogFacts(7);
    LogFacts(8);
    LatestAreFound(hash, Log(7), 9, supply);
    FewWithoutFrames(8);
    ToldAt(hash, Log(8), supply, 1);
  }

  lemma KeysOfLog(supply: seq<Element>)
    requires Supplies(Log(8), supply) && |supply| == 10
    ensures supply[0].key == supply[1].key == PtrKey(1)
    ensures forall k :: 1 < k < 10 ==> supply[k].key != PtrKey(1)
  {
    hide Supplies, AllocatedAt, CountAllocs, LatestIndex, About, PointerBytes;
    LogFacts(8);
    SuppliesKeys(Log(8), supply, 0);
    SuppliesKeys(Log(8), supply, 1);
    forall k | 1 < k < 10 ensures supply[k].key != PtrKey(1) {
      SuppliesKeys(Log(8), supply, k);
      if supply[k].key == PtrKey(1) {
        PtrKeyInjective(k, 1);
      }
    }
  }

  lemma BothAreEqual(hash: HashFn, st: State, x: Element, y: Element)
    requires Wf(hash, st) && x in st.order && y in st.order && x != y && x.key == y.key
    ensures Equals(hash, st, x.key) != [y]
  {
    var b := Bucket(hash, x.key, |st.chains|);
    assert x in st.chains[b];
    WithKeyHas(st.chains[b], x);
  }

  // Both entries of address 1 are in the table, and it has expanded once since the second
  // was added: lookup does not find the second.
  lemma SecondIsNotFound(hash: HashFn, supply: seq<Element>)
    requires Distinct(supply) && |supply| == 10 && forall key :: hash(key) == 0
    requires supply[0].key == supply[1].key && forall k :: 1 < k < 10 ==> supply[k].key != supply[1].key
    ensures Find(hash, TableOf(hash, supply), supply[1].key) != supply[1]
  {
    hide TableOf, Find, Equals, Wf, LegalRun;
    TableFacts(hash, supply);
    FewNeverExpand(hash, supply[..1]);
    TenthExpands(hash, supply);
    TableFindsLatest(hash, supply, 1);
    BothAreEqual(hash, TableOf(hash, supply), supply[0], supply[1]);
  }

  // The last free finds an entry, but not that one.
  lemma FirstIsFound(hash: HashFn, supply: seq<Element>)
    requires Supplies(Log(8), supply) && forall key :: hash(key) == 0
    ensures |supply| == 10 && ReadLog(hash, Log(8), supply).Going?
    ensures Find(hash, ReadLog(hash, Log(8), supply).reading.st, PtrKey(1)) != supply[1]
    ensures ReadNext(hash, ReadLog(hash, Log(8), supply).reading, FreeEvent(1, SIZE), supply).Going?
  {
    hide TableOf, Find, Equals, EvenlyExpanded, Supplies, ReadLog, ReadNext, Wf, Log, PointerBytes;
    hide AllocatedAt, CountAllocs, LatestIndex, About;
    SecondLeaks(hash, supply);
    KeysOfLog(supply);
    LogFacts(8);
    SuppliesDistinct(Log(8), supply);
    ReadingIsRun(hash, Log(8), supply);
    SecondIsNotFound(hash, supply);
    FreeClearsLatest(hash, Log(8), supply, 1, SIZE, 1);
  }

  lemma FreeSupplies(front: seq<Record>, last: Record, supply: seq<Element>)
    requires last.FreeEvent? && Supplies(front + [last], supply)
    ensures Supplies(front, supply)
  {
    assert (front + [last])[..|front|] == front;
  }

  lemma ReadOneMore(hash: HashFn, front: seq<Record>, last: Record, supply: seq<Element>)
    requires last.FreeEvent? && |supply| == CountAllocs(front) && ReadLog(hash, front, supply).Going?
    ensures |supply| == CountAllocs(front + [last])
    ensures ReadLog(hash, front + [last], supply) == ReadNext(hash, ReadLog(hash, front, supply).reading, last, supply)
  {
    assert (front + [last])[..|front|] == front;
  }

  lemma FreeKeepsOthers(hash: HashFn, r: Reading, supply: seq<Element>, e: Element)
    requires Shape(r.st) && e in r.view && Find(hash, r.st, PtrKey(1)) != e
    requires ReadNext(hash, r, FreeEvent(1, SIZE), supply).Going?
    ensures var view := ReadNext(hash, r, FreeEvent(1, SIZE), supply).reading.view; e in view && view[e] == r.view[e]
  {
  }

  lemma NotListed(list: seq<Line>, x: Line, log: seq<Record>, addrs: set<Addr>)
    requires x in list && 1 <= x.number <= CountAllocs(log) && AllocatedAt(log, x.number - 1) !in addrs
    ensures !ListsExactly(list, log, addrs)
  {
    var i :| 0 <= i < |list| && list[i] == x;
    assert !IsLineOf(list[i], log, addrs);
  }

  // With a hash function that does not spread the keys, reading this log of a run goes
  // well to the end, and the report has a line for address 1, which has been freed.
  lemma FreedIsListed(hash: HashFn, supply: seq<Element>)
    requires Supplies(ReusingLog(), supply) && forall key :: hash(key) == 0
    ensures 1 !in Outstanding(ReusingLog())
    ensures ReadLog(hash, ReusingLog(), supply).Going?
    ensures Line(2, PtrKey(1), SIZE, []) in LeaksIn(supply, ReadLog(hash, ReusingLog(), supply).reading.view, |supply|)
    ensures !ListsExactly(LeaksIn(supply, ReadLog(hash, ReusingLog(), supply).reading.view, |supply|), ReusingLog(),
                          Outstanding(ReusingLog()))
  {
    hide Log, LeaksIn, ListsExactly, Outstanding, AllocatedAt, CountAllocs;
    hide Supplies, ReadNext, ReadLog, Find, PointerBytes;
    var last := FreeEvent(1, SIZE);
    NothingOutstanding();
    LogFacts(8);
    FreeSupplies(Log(8), last, supply);
    SecondLeaks(hash, supply);
    FirstIsFound(hash, supply);
    ReadOneMore(hash, Log(8), last, supply);
    var r := ReadLog(hash, Log(8), supply).reading;
    FreeKeepsOthers(hash, r, supply, supply[1]);
    var view, x := ReadLog(hash, ReusingLog(), supply).reading.view, Line(2, PtrKey(1), SIZE, []);
    SuppliesKeys(Log(8), supply, 1);
    LeaksInHas(supply, view, |supply|, x);
    AllocatedBefore(Log(8), last, 1);
    NotListed(LeaksIn(supply, view, |supply|), x, ReusingLog(), Outstanding(ReusingLog()));
  }

  // ------------------------------------------------------------ a line is cut

  // The longest path that Linux allows
  const PATH_LENGTH: nat := 4095

  // The line of a long path does not fit the tracker's buffer.
  lemma LongPathIsCut(stamp: nat, opcode: char, addr: nat, path: string)
    requires path == I.Repeat('p', PATH_LENGTH) && opcode == 'm' && addr < I.LIMIT_64
    ensures var e := Text.Path(opcode, addr, path);
      && Text.Storable(e) && LogFile.KnownOpcode(e) && '\n' !in path && |Text.LineOf(stamp, e)| > 2046
  {
    var e := Text.Path(opcode, addr, path);
    assert |Text.BodyText(e)| > |path|;
  }
}
