// What main of src/interpret.c prints about leaks, for any log, and when it is right.
module Listing {
  import opened Handles
  import opened HashState
  import opened Sequences
  import opened Runs
  import opened AddedTable
  import opened EventLog
  import opened LeakReport
  import opened ReaderState

  // ------------------------------------------------------------ what is printed

  // One leak: its place in the order of allocation, its address, size and frames
  datatype Line = Line(number: nat, key: Key, size: nat, traces: seq<Addr>)

  // The leaking entries among the first n
  ghost function LeaksIn(s: seq<Element>, view: map<Element, Info>, n: nat): seq<Line>
    requires n <= |s|
  {
    if n == 0 then []
    else
      var e := s[n - 1];
      LeaksIn(s, view, n - 1) +
      if e in view && view[e].leaking then [Line(n, e.key, view[e].size, view[e].traces)] else []
  }

  ghost predicate IsLeak(s: seq<Element>, view: map<Element, Info>, x: Line)
  {
    && 1 <= x.number <= |s|
    && var e := s[x.number - 1];
    && e in view && view[e].leaking && x == Line(x.number, e.key, view[e].size, view[e].traces)
  }

  ghost predicate Increasing(list: seq<Line>)
  {
    forall i, j :: 0 <= i < j < |list| ==> list[i].number < list[j].number
  }

  // An entry is listed exactly when it leaks, under its place in the order of allocation.
  lemma {:induction false} LeaksInHas(s: seq<Element>, view: map<Element, Info>, n: nat, x: Line)
    requires n <= |s|
    ensures x in LeaksIn(s, view, n) <==> IsLeak(s, view, x) && x.number <= n
  {
    if n > 0 {
      LeaksInHas(s, view, n - 1, x);
    }
  }

  lemma {:induction false} LeaksInIncrease(s: seq<Element>, view: map<Element, Info>, n: nat)
    requires n <= |s|
    ensures Increasing(LeaksIn(s, view, n))
    ensures forall i :: 0 <= i < |LeaksIn(s, view, n)| ==> LeaksIn(s, view, n)[i].number <= n
  {
    if n > 0 {
      LeaksInIncrease(s, view, n - 1);
    }
  }

  // ------------------------------------------------------------ lookups that find the latest

  ghost predicate FindsLatestOf(hash: HashFn, log: seq<Record>, supply: seq<Element>, a: Addr)
    requires |supply| == CountAllocs(log)
  {
    var i := LatestIndex(log, a);
    Find(hash, TableOf(hash, supply), PtrKey(a)) == if i < 0 then null else supply[i]
  }

  // Every free and every frame finds the entry of the latest alloc of its address.
  ghost predicate FindsLatest(hash: HashFn, log: seq<Record>, supply: seq<Element>)
    requires |supply| == CountAllocs(log)
    decreases |log|
  {
    log == [] ||
    var front, last := log[..|log| - 1], log[|log| - 1];
    var rest := if last.AllocEvent? then supply[..|supply| - 1] else supply;
    && FindsLatest(hash, front, rest)
    && (last.FreeEvent? ==> FindsLatestOf(hash, front, rest, last.addr))
    && (last.FrameRecord? ==> FindsLatestOf(hash, front, rest, Cursor(front)))
  }

  // The trace buffers suffice.
  ghost predicate FewSince(log: seq<Record>)
    decreases |log|
  {
    log == [] ||
    var front, last := log[..|log| - 1], log[|log| - 1];
    FewSince(front) && (last.FrameRecord? ==> |TraceSince(front, Cursor(front))| < MAX_BACKTRACE_COUNT)
  }

  // ------------------------------------------------------------ then the entries are right

  // What the log says about the ith alloc
  ghost predicate TellsAt(log: seq<Record>, i: nat, info: Info)
    requires i < CountAllocs(log)
  {
    var a := AllocatedAt(log, i);
    if LatestIndex(log, a) == i then
      info == Info(LatestSize(log, a), |About(log, a)| % 2 == 1, TraceSince(log, a))
    else !info.leaking
  }

  ghost predicate Tells(log: seq<Record>, supply: seq<Element>, view: map<Element, Info>)
    requires |supply| == CountAllocs(log)
  {
    forall i :: 0 <= i < |supply| ==> supply[i] in view && TellsAt(log, i, view[supply[i]])
  }

  lemma {:induction false} EventMeansAlloc(log: seq<Record>, a: Addr)
    requires Alternates(About(log, a)) && About(log, a) != []
    ensures LatestIndex(log, a) >= 0
    decreases |log|
  {
    var front, last := log[..|log| - 1], log[|log| - 1];
    LastAlternates(log, a);
    if !(last.AllocEvent? && last.addr == a) {
      EventMeansAlloc(front, a);
    }
  }

  lemma AnAlloc(front: seq<Record>, a: Addr, size: nat, b: Addr)
    ensures var log := front + [AllocEvent(a, size)];
      && CountAllocs(log) == CountAllocs(front) + 1
      && LatestIndex(log, b) == (if a == b then CountAllocs(front) else LatestIndex(front, b))
      && LatestSize(log, b) == (if a == b then size else LatestSize(front, b))
      && TraceSince(log, b) == (if a == b then [] else TraceSince(front, b))
      && About(log, b) == About(front, b) + if a == b then [true] else []
  {
    assert (front + [AllocEvent(a, size)])[..|front|] == front;
  }

  lemma AllocatedSoFar(front: seq<Record>, a: Addr, size: nat, i: nat)
    requires i <= CountAllocs(front)
    ensures CountAllocs(front + [AllocEvent(a, size)]) == CountAllocs(front) + 1
    ensures AllocatedAt(front + [AllocEvent(a, size)], i) ==
      if i == CountAllocs(front) then a else AllocatedAt(front, i)
  {
    assert (front + [AllocEvent(a, size)])[..|front|] == front;
  }

  // An alloc of a adds an entry, and leaves no older entry of a leaking.
  lemma AllocTells(front: seq<Record>, a: Addr, size: nat, supply: seq<Element>, e: Element, view: map<Element, Info>)
    requires |supply| == CountAllocs(front) && e !in supply && Tells(front, supply, view)
    requires |About(front, a)| % 2 == 0
    ensures CountAllocs(front + [AllocEvent(a, size)]) == |supply + [e]|
    ensures Tells(front + [AllocEvent(a, size)], supply + [e], view[e := Info(size, true, [])])
  {
    hide About, TraceSince, LatestIndex, LatestSize, CountAllocs, AllocatedAt;
    var log, grown, view' := front + [AllocEvent(a, size)], supply + [e], view[e := Info(size, true, [])];
    AnAlloc(front, a, size, a);
    forall i | 0 <= i < |grown| ensures grown[i] in view' && TellsAt(log, i, view'[grown[i]]) {
      AllocatedSoFar(front, a, size, i);
      if i < |supply| {
        AnAlloc(front, a, size, AllocatedAt(front, i));
        assert supply[i] in supply && supply[i] in view && TellsAt(front, i, view[supply[i]]);
      }
    }
  }

  // A free or frame about a changes what the log says of a and of nothing else.
  lemma ChangeTells(front: seq<Record>, last: Record, supply: seq<Element>, view: map<Element, Info>, a: Addr, info: Info)
    requires last.FreeEvent? || last.FrameRecord?
    requires |supply| == CountAllocs(front + [last]) == CountAllocs(front) && Distinct(supply)
    requires Tells(front, supply, view) && LatestIndex(front, a) >= 0
    requires a == if last.FreeEvent? then last.addr else Cursor(front)
    requires var log := front + [last];
      info == Info(LatestSize(log, a), |About(log, a)| % 2 == 1, TraceSince(log, a))
    ensures Tells(front + [last], supply, view[supply[LatestIndex(front, a)] := info])
  {
    hide About, TraceSince, LatestIndex, LatestSize, CountAllocs, AllocatedAt;
    var log, j := front + [last], LatestIndex(front, a);
    var view' := view[supply[j] := info];
    NotAnAlloc(front, last, a);
    LatestIsAllocated(front, a);
    forall i | 0 <= i < |supply| ensures supply[i] in view' && TellsAt(log, i, view'[supply[i]]) {
      var b := AllocatedAt(front, i);
      NotAnAlloc(front, last, b);
      AllocatedBefore(front, last, i);
      assert supply[i] in view && TellsAt(front, i, view[supply[i]]);
    }
  }

  lemma AllocatedBefore(front: seq<Record>, last: Record, i: nat)
    requires !last.AllocEvent? && i < CountAllocs(front)
    ensures CountAllocs(front + [last]) == CountAllocs(front)
    ensures AllocatedAt(front + [last], i) == AllocatedAt(front, i)
  {
    assert (front + [last])[..|front|] == front;
  }

  lemma NotAnAlloc(front: seq<Record>, last: Record, b: Addr)
    requires last.FreeEvent? || last.FrameRecord?
    ensures var log := front + [last];
      && LatestIndex(log, b) == LatestIndex(front, b) && LatestSize(log, b) == LatestSize(front, b)
      && (last.FreeEvent? || b != Cursor(front) ==> TraceSince(log, b) == TraceSince(front, b))
      && (last.FrameRecord? || b != last.addr ==> About(log, b) == About(front, b))
  {
    var log := front + [last];
    assert log[..|front|] == front && log[|log| - 1] == last;
    assert TraceSince(front, b) + [] == TraceSince(front, b) && About(front, b) + [] == About(front, b);
  }

  lemma FreeTells(hash: HashFn, r: Reading, front: seq<Record>, a: Addr, size: nat, supply: seq<Element>)
    requires InOrder(front + [FreeEvent(a, size)]) && Distinct(supply) && |supply| == CountAllocs(front)
    requires r.st == TableOf(hash, supply) && FindsLatestOf(hash, front, supply, a) && Tells(front, supply, r.view)
    ensures CountAllocs(front + [FreeEvent(a, size)]) == CountAllocs(front)
    ensures var next := ReadNext(hash, r, FreeEvent(a, size), supply);
      next.Going? && Tells(front + [FreeEvent(a, size)], supply, next.reading.view)
  {
    hide TableOf, Find, ReadLog;
    var last := FreeEvent(a, size);
    var log := front + [last];
    assert log[..|front|] == front && log[|log| - 1] == last;
    assert Alternates(About(log, a));
    LastAlternates(log, a);
    EventMeansAlloc(front, a);
    LatestIsAllocated(front, a);
    var j := LatestIndex(front, a);
    assert supply[j] in r.view && TellsAt(front, j, r.view[supply[j]]);
    NotAnAlloc(front, last, a);
    ChangeTells(front, last, supply, r.view, a, r.view[supply[j]].(leaking := false));
  }

  lemma FrameTells(hash: HashFn, r: Reading, front: seq<Record>, f: Addr, supply: seq<Element>)
    requires InOrder(front + [FrameRecord(f)]) && Distinct(supply) && |supply| == CountAllocs(front)
    requires r.st == TableOf(hash, supply) && r.c.ctx == Cursor(front)
    requires FindsLatestOf(hash, front, supply, Cursor(front)) && Tells(front, supply, r.view)
    ensures CountAllocs(front + [FrameRecord(f)]) == CountAllocs(front)
    ensures var next := ReadNext(hash, r, FrameRecord(f), supply);
      && (next.Going? <==> |TraceSince(front, Cursor(front))| < MAX_BACKTRACE_COUNT)
      && (next.Going? ==> Tells(front + [FrameRecord(f)], supply, next.reading.view))
  {
    hide TableOf, Find, ReadLog;
    var last, a := FrameRecord(f), Cursor(front);
    var log := front + [last];
    assert log[..|front|] == front && log[|log| - 1] == last;
    assert a != NULL by {
      assert log[|front|].FrameRecord?;
    }
    CursorHasEvent(front);
    assert Alternates(About(log, a));
    LastAlternates(log, a);
    EventMeansAlloc(front, a);
    LatestIsAllocated(front, a);
    var j := LatestIndex(front, a);
    assert supply[j] in r.view && TellsAt(front, j, r.view[supply[j]]);
    NotAnAlloc(front, last, a);
    var info := r.view[supply[j]];
    ChangeTells(front, last, supply, r.view, a, info.(traces := info.traces + [f]));
  }

  // If lookups find the latest, any log in order is read without fault exactly when the
  // trace buffers suffice, and then every entry says what the log says of its alloc.
  lemma {:induction false} ReadTells(hash: HashFn, log: seq<Record>, supply: seq<Element>)
    requires InOrder(log) && Supplies(log, supply) && FindsLatest(hash, log, supply)
    ensures ReadLog(hash, log, supply).Going? <==> FewSince(log)
    ensures ReadLog(hash, log, supply).Going? ==> Tells(log, supply, ReadLog(hash, log, supply).reading.view)
    decreases |log|
  {
    hide TableOf, Find, InOrder, Tells, FindsLatestOf, TraceSince;
    if log == [] {
      NothingTold(map[]);
    } else {
      var front, last, n := log[..|log| - 1], log[|log| - 1], |supply| - 1;
      var rest := if last.AllocEvent? then supply[..n] else supply;
      FrontIsInOrder(log);
      ReadTells(hash, front, rest);
      assert front + [last] == log;
      if FewSince(front) {
        var r := ReadLog(hash, front, rest).reading;
        ReadingIsRun(hash, front, rest);
        CountersAreExact(hash, front, rest);
        SuppliesDistinct(log, supply);
        match last
        case AllocEvent(a, size) =>
          AboutAlternates(log, a);
          LastAlternates(log, a);
          AllocTells(front, a, size, rest, supply[n], r.view);
          assert rest + [supply[n]] == supply;
        case FreeEvent(a, size) => FreeTells(hash, r, front, a, size, supply);
        case FrameRecord(f) => FrameTells(hash, r, front, f, supply);
        case ModuleRecord(base) => ModuleTells(front, base, supply, r.view);
      }
    }
  }

  lemma NothingTold(view: map<Element, Info>)
    ensures Tells([], [], view)
  {
  }

  lemma AboutAlternates(log: seq<Record>, a: Addr)
    requires InOrder(log)
    ensures Alternates(About(log, a))
  {
  }

  lemma ModuleTells(front: seq<Record>, base: Addr, supply: seq<Element>, view: map<Element, Info>)
    requires |supply| == CountAllocs(front) && Tells(front, supply, view)
    ensures CountAllocs(front + [ModuleRecord(base)]) == CountAllocs(front)
    ensures Tells(front + [ModuleRecord(base)], supply, view)
  {
    var log := front + [ModuleRecord(base)];
    assert log[..|front|] == front;
    forall i | 0 <= i < |supply| ensures supply[i] in view && TellsAt(log, i, view[supply[i]]) {
      var a := AllocatedAt(front, i);
      AllocatedBefore(front, ModuleRecord(base), i);
      assert TellsAt(front, i, view[supply[i]]);
      assert TraceSince(front, a) + [] == TraceSince(front, a) && About(front, a) + [] == About(front, a);
    }
  }

  // ------------------------------------------------------------ and so is the list

  // The line that belongs to an allocated address
  ghost function LeakLine(log: seq<Record>, a: Addr): Line
    requires LatestIndex(log, a) >= 0
  {
    Line(LatestIndex(log, a) + 1, PtrKey(a), LatestSize(log, a), TraceSince(log, a))
  }

  // The line is that of one of the addresses.
  ghost predicate IsLineOf(x: Line, log: seq<Record>, addrs: set<Addr>)
  {
    && 1 <= x.number <= CountAllocs(log)
    && var a := AllocatedAt(log, x.number - 1);
    && a in addrs && LatestIndex(log, a) >= 0 && x == LeakLine(log, a)
  }

  // One line for each of the addresses, in the order of allocation, and no other
  ghost predicate ListsExactly(list: seq<Line>, log: seq<Record>, addrs: set<Addr>)
  {
    && (forall a :: a in addrs ==> LatestIndex(log, a) >= 0 && LeakLine(log, a) in list)
    && (forall i :: 0 <= i < |list| ==> IsLineOf(list[i], log, addrs))
    && Increasing(list) && |list| == |addrs|
  }

  lemma {:induction false} SuppliesKeys(log: seq<Record>, supply: seq<Element>, i: nat)
    requires Supplies(log, supply) && i < |supply|
    ensures supply[i].key == PtrKey(AllocatedAt(log, i))
    decreases |log|
  {
    var front, last, n := log[..|log| - 1], log[|log| - 1], |supply| - 1;
    if last.AllocEvent? && i < n {
      SuppliesKeys(front, supply[..n], i);
    } else if !last.AllocEvent? {
      SuppliesKeys(front, supply, i);
    }
  }

  lemma LeakingIsOutstanding(log: seq<Record>, supply: seq<Element>, view: map<Element, Info>, i: nat)
    requires Supplies(log, supply) && Tells(log, supply, view) && i < |supply|
    requires Alternates(About(log, AllocatedAt(log, i)))
    ensures supply[i] in view
    ensures var a := AllocatedAt(log, i);
      if a in Outstanding(log) && LatestIndex(log, a) == i then
        view[supply[i]].leaking && Line(i + 1, supply[i].key, view[supply[i]].size, view[supply[i]].traces) == LeakLine(log, a)
      else !view[supply[i]].leaking
  {
    var a := AllocatedAt(log, i);
    SuppliesKeys(log, supply, i);
    OutstandingIsOdd(log, a);
    assert supply[i] in view && TellsAt(log, i, view[supply[i]]);
  }

  lemma OneLineEach(list: seq<Line>, log: seq<Record>, addrs: set<Addr>)
    requires forall a :: a in addrs ==> LatestIndex(log, a) >= 0 && LeakLine(log, a) in list
    requires forall i :: 0 <= i < |list| ==> IsLineOf(list[i], log, addrs)
    requires Increasing(list)
    ensures |list| == |addrs|
  {
    var as_ := seq(|list|, i requires 0 <= i < |list| => AllocatedAt(log, list[i].number - 1));
    forall i, j | 0 <= i < j < |as_| ensures as_[i] != as_[j] {
      assert IsLineOf(list[i], log, addrs) && IsLineOf(list[j], log, addrs);
      assert list[i].number < list[j].number;
    }
    DistinctLength(as_);
    forall a | a in addrs ensures a in as_ {
      var i :| 0 <= i < |list| && list[i] == LeakLine(log, a);
      LatestIsAllocated(log, a);
      assert as_[i] == a;
    }
    forall a | a in as_ ensures a in addrs {
      var i :| 0 <= i < |as_| && as_[i] == a;
      assert IsLineOf(list[i], log, addrs);
    }
    assert (set a | a in as_) == addrs;
  }

  // The list has exactly the addresses that the log leaves allocated.
  lemma ListIsExact(log: seq<Record>, supply: seq<Element>, view: map<Element, Info>)
    requires InOrder(log) && Supplies(log, supply) && Tells(log, supply, view)
    ensures ListsExactly(LeaksIn(supply, view, |supply|), log, Outstanding(log))
  {
    hide About, Tells, InOrder, Supplies, Outstanding, LatestIndex, LatestSize, TraceSince, AllocatedAt;
    var list, addrs := LeaksIn(supply, view, |supply|), Outstanding(log);
    SuppliesCount(log, supply);
    forall a | a in addrs ensures LatestIndex(log, a) >= 0 && LeakLine(log, a) in list {
      LatestIsAllocated(log, a);
      AboutAlternates(log, a);
      LeakingIsOutstanding(log, supply, view, LatestIndex(log, a));
      LeaksInHas(supply, view, |supply|, LeakLine(log, a));
    }
    forall i | 0 <= i < |list| ensures IsLineOf(list[i], log, addrs) {
      LeaksInHas(supply, view, |supply|, list[i]);
      assert IsLeak(supply, view, list[i]);
      AboutAlternates(log, AllocatedAt(log, list[i].number - 1));
      LeakingIsOutstanding(log, supply, view, list[i].number - 1);
    }
    LeaksInIncrease(supply, view, |supply|);
    OneLineEach(list, log, addrs);
  }

  lemma SuppliesCount(log: seq<Record>, supply: seq<Element>)
    requires Supplies(log, supply)
    ensures |supply| == CountAllocs(log)
  {
  }

  // ------------------------------------------------------------ when lookups find the latest

  lemma {:induction false} LaterAlloc(log: seq<Record>, i: nat)
    requires i < CountAllocs(log)
    ensures LatestIndex(log, AllocatedAt(log, i)) >= i
    decreases |log|
  {
    var front, last := log[..|log| - 1], log[|log| - 1];
    if !(last.AllocEvent? && i == CountAllocs(front)) {
      LaterAlloc(front, i);
    }
  }

  lemma {:induction false} AllocatedIsPointer(log: seq<Record>, i: nat)
    requires i < CountAllocs(log) && Pointers64(log)
    ensures AllocatedAt(log, i) < POINTER_LIMIT
    decreases |log|
  {
    var front, last := log[..|log| - 1], log[|log| - 1];
    if !(last.AllocEvent? && i == CountAllocs(front)) {
      AllocatedIsPointer(front, i);
    }
  }

  // An element with the key of a is an entry of a.
  lemma KeyIsAddress(log: seq<Record>, supply: seq<Element>, i: nat, a: Addr)
    requires Supplies(log, supply) && Pointers64(log) && i < |supply| && a < POINTER_LIMIT
    ensures supply[i].key == PtrKey(a) <==> AllocatedAt(log, i) == a
    ensures AllocatedAt(log, i) == a ==> i <= LatestIndex(log, a)
  {
    SuppliesKeys(log, supply, i);
    AllocatedIsPointer(log, i);
    LaterAlloc(log, i);
    if supply[i].key == PtrKey(a) {
      PtrKeyInjective(AllocatedAt(log, i), a);
    }
  }

  // An address that was never allocated is not found; one that was finds some entry of it.
  lemma FoundIsAllocated(hash: HashFn, log: seq<Record>, supply: seq<Element>, a: Addr)
    requires Supplies(log, supply) && Pointers64(log) && a < POINTER_LIMIT
    ensures var e := Find(hash, TableOf(hash, supply), PtrKey(a));
      if LatestIndex(log, a) < 0 then e == null
      else exists i :: 0 <= i < |supply| && e == supply[i] && AllocatedAt(log, i) == a
  {
    hide TableOf, Find, Wf, Supplies, Pointers64;
    SuppliesDistinct(log, supply);
    SuppliesCount(log, supply);
    TableFacts(hash, supply);
    if LatestIndex(log, a) >= 0 {
      var i := LatestIndex(log, a);
      LatestIsAllocated(log, a);
      KeyIsAddress(log, supply, i, a);
      assert supply[i] in TableOf(hash, supply).order;
    }
    FindFinds(hash, TableOf(hash, supply), PtrKey(a));
    var e := Find(hash, TableOf(hash, supply), PtrKey(a));
    if e != null {
      var i :| 0 <= i < |supply| && supply[i] == e;
      KeyIsAddress(log, supply, i, a);
    }
  }

  // While the table has not expanded, the latest entry is found.
  lemma FoundUnlessExpanded(hash: HashFn, log: seq<Record>, supply: seq<Element>, a: Addr)
    requires Supplies(log, supply) && Pointers64(log) && a < POINTER_LIMIT
    requires TableOf(hash, supply).history == []
    ensures |supply| == CountAllocs(log) && FindsLatestOf(hash, log, supply, a)
  {
    hide TableOf, Find, Supplies, Pointers64;
    SuppliesCount(log, supply);
    FoundIsAllocated(hash, log, supply, a);
    var j := LatestIndex(log, a);
    if j >= 0 {
      LatestIsAllocated(log, a);
      KeyIsAddress(log, supply, j, a);
      forall k | j < k < |supply| ensures supply[k].key != supply[j].key {
        KeyIsAddress(log, supply, k, a);
      }
      SuppliesDistinct(log, supply);
      HistoryGrows(hash, supply, j);
      TableFindsLatest(hash, supply, j);
    }
  }

  // Without reuse there is only one entry to find.
  lemma FoundWithoutReuse(hash: HashFn, log: seq<Record>, supply: seq<Element>, a: Addr)
    requires Supplies(log, supply) && Pointers64(log) && Followable(log) && a < POINTER_LIMIT
    ensures |supply| == CountAllocs(log) && FindsLatestOf(hash, log, supply, a)
  {
    hide TableOf, Find, Supplies, Pointers64;
    SuppliesCount(log, supply);
    FoundIsAllocated(hash, log, supply, a);
    if LatestIndex(log, a) >= 0 {
      var i :| 0 <= i < |supply| && Find(hash, TableOf(hash, supply), PtrKey(a)) == supply[i] && AllocatedAt(log, i) == a;
      OnlyAlloc(log, i);
    }
  }

  lemma {:induction false} OnlyAlloc(log: seq<Record>, i: nat)
    requires i < CountAllocs(log) && Followable(log)
    ensures LatestIndex(log, AllocatedAt(log, i)) == i && AllocatedAt(log, i) in AddressesIn(log)
    decreases |log|
  {
    var front, last := log[..|log| - 1], log[|log| - 1];
    if !(last.AllocEvent? && i == CountAllocs(front)) {
      OnlyAlloc(front, i);
    }
  }

  // The table stays as it is, or no address comes back.
  ghost predicate Tame(hash: HashFn, log: seq<Record>, supply: seq<Element>)
  {
    TableOf(hash, supply).history == [] || Followable(log)
  }

  lemma {:induction false} CursorIsPointer(log: seq<Record>)
    requires Pointers64(log)
    ensures Cursor(log) < POINTER_LIMIT
    decreases |log|
  {
    if log != [] {
      CursorIsPointer(log[..|log| - 1]);
    }
  }

  // Then every lookup finds the latest entry.
  lemma {:induction false} TameFindsLatest(hash: HashFn, log: seq<Record>, supply: seq<Element>)
    requires Supplies(log, supply) && Pointers64(log) && Tame(hash, log, supply)
    ensures |supply| == CountAllocs(log) && FindsLatest(hash, log, supply)
    decreases |log|
  {
    hide TableOf, FindsLatestOf;
    if log != [] {
      var front, last, n := log[..|log| - 1], log[|log| - 1], |supply| - 1;
      var rest := if last.AllocEvent? then supply[..n] else supply;
      if last.AllocEvent? {
        HistoryGrows(hash, supply, n);
      }
      TameFindsLatest(hash, front, rest);
      CursorIsPointer(front);
      var a := if last.FreeEvent? then last.addr else Cursor(front);
      if TableOf(hash, rest).history == [] {
        FoundUnlessExpanded(hash, front, rest, a);
      } else {
        FoundWithoutReuse(hash, front, rest, a);
      }
    }
  }

  // Fewer than ten allocs leave the table as it is, whatever the hash function.
  lemma FewAllocsAreTame(hash: HashFn, log: seq<Record>, supply: seq<Element>)
    requires Supplies(log, supply) && CountAllocs(log) < BKT_CAPACITY_THRESH
    ensures Tame(hash, log, supply)
  {
    SuppliesDistinct(log, supply);
    FewNeverExpand(hash, supply);
  }

  // The report on any log in order, reuse included, if lookups find the latest entries
  lemma ReportIsExact(hash: HashFn, log: seq<Record>, supply: seq<Element>)
    requires InOrder(log) && Supplies(log, supply) && FindsLatest(hash, log, supply)
    ensures ReadLog(hash, log, supply).Going? <==> FewSince(log)
    ensures ReadLog(hash, log, supply).Going? ==>
      ListsExactly(LeaksIn(supply, ReadLog(hash, log, supply).reading.view, |supply|), log, Outstanding(log))
  {
    ReadTells(hash, log, supply);
    if ReadLog(hash, log, supply).Going? {
      ListIsExact(log, supply, ReadLog(hash, log, supply).reading.view);
    }
  }

  // ------------------------------------------------------------ logs without reuse, by the fold

  // The line is that of the leak a of the summary.
  ghost predicate IsLeakOf(x: Line, s: Summary, a: Addr)
  {
    && a in s.entries && s.entries[a].leaking
    && x.key == PtrKey(a) && x.size == s.entries[a].size && x.traces == s.entries[a].traces
  }

  ghost predicate HasLine(list: seq<Line>, s: Summary, a: Addr)
  {
    exists i :: 0 <= i < |list| && IsLeakOf(list[i], s, a)
  }

  ghost predicate HasLeak(x: Line, s: Summary)
  {
    exists a :: IsLeakOf(x, s, a)
  }

  ghost predicate DistinctKeys(list: seq<Line>)
  {
    forall i, j :: 0 <= i < j < |list| ==> list[i].key != list[j].key
  }

  // One line for each leak of the summary, and no other
  ghost predicate ListsLeaks(list: seq<Line>, s: Summary)
  {
    && (forall a :: a in s.entries && s.entries[a].leaking ==> HasLine(list, s, a))
    && (forall i :: 0 <= i < |list| ==> HasLeak(list[i], s))
    && DistinctKeys(list)
  }

  lemma {:induction false} FollowableIsPointers64(log: seq<Record>)
    requires Followable(log)
    ensures Pointers64(log)
    decreases |log|
  {
    if log != [] {
      FollowableIsPointers64(log[..|log| - 1]);
    }
  }

  // A leaking entry is that of a leak of the summary.
  lemma LineHasLeak(log: seq<Record>, supply: seq<Element>, r: Reading, s: Summary, x: Line)
    requires Supplies(log, supply) && Followable(log) && r.st.order == supply && Agrees(r, s, KeysOf(supply))
    requires IsLeak(supply, r.view, x)
    ensures IsLeakOf(x, s, AllocatedAt(log, x.number - 1))
  {
    var e, a := supply[x.number - 1], AllocatedAt(log, x.number - 1);
    FollowableIsPointers64(log);
    SuppliesKeys(log, supply, x.number - 1);
    AllocatedIsPointer(log, x.number - 1);
    assert e in r.st.order;
  }

  lemma LeakHasLine(log: seq<Record>, supply: seq<Element>, r: Reading, s: Summary, a: Addr)
    requires r.st.order == supply && Agrees(r, s, KeysOf(supply)) && a in s.entries && s.entries[a].leaking
    ensures HasLine(LeaksIn(supply, r.view, |supply|), s, a)
  {
    var list, e := LeaksIn(supply, r.view, |supply|), KeysOf(supply)[PtrKey(a)];
    var k :| 0 <= k < |supply| && supply[k] == e;
    var x := Line(k + 1, e.key, r.view[e].size, r.view[e].traces);
    LeaksInHas(supply, r.view, |supply|, x);
    var i :| 0 <= i < |list| && list[i] == x;
  }

  // On logs without reuse the list is that of the leaks of the fold.
  lemma ListIsFold(log: seq<Record>, supply: seq<Element>, r: Reading, s: Summary)
    requires Supplies(log, supply) && Followable(log) && r.st.order == supply && Agrees(r, s, KeysOf(supply))
    ensures ListsLeaks(LeaksIn(supply, r.view, |supply|), s)
  {
    hide IsLeakOf, HasLine, Supplies, Followable, Agrees;
    var list := LeaksIn(supply, r.view, |supply|);
    forall a | a in s.entries && s.entries[a].leaking ensures HasLine(list, s, a) {
      LeakHasLine(log, supply, r, s, a);
    }
    forall i | 0 <= i < |list| ensures IsLeak(supply, r.view, list[i]) && HasLeak(list[i], s) {
      LeaksInHas(supply, r.view, |supply|, list[i]);
      SuppliesCount(log, supply);
      LineHasLeak(log, supply, r, s, list[i]);
    }
    LeaksInIncrease(supply, r.view, |supply|);
    SuppliesDistinct(log, supply);
    forall i, j | 0 <= i < j < |list| ensures list[i].key != list[j].key {
      assert IsLeak(supply, r.view, list[i]) && IsLeak(supply, r.view, list[j]);
      assert list[i].number < list[j].number;
      KeyedApart(r, s, KeysOf(supply), list[i].number - 1, list[j].number - 1);
    }
  }

  lemma KeyedApart(r: Reading, s: Summary, keys: KeyMap, i: nat, j: nat)
    requires Agrees(r, s, keys) && i < j < |r.st.order| && Distinct(r.st.order)
    ensures r.st.order[i].key != r.st.order[j].key
  {
    assert r.st.order[i] in r.st.order && r.st.order[j] in r.st.order;
  }

  // ------------------------------------------------------------ reading that stops early

  lemma {:induction false} FewSincePrefix(log: seq<Record>, n: nat)
    requires FewSince(log) && n <= |log|
    ensures FewSince(log[..n])
    decreases |log|
  {
    if n < |log| {
      assert log[..|log| - 1][..n] == log[..n];
      FewSincePrefix(log[..|log| - 1], n);
    } else {
      assert log[..n] == log;
    }
  }

  lemma {:induction false} InOrderPrefix(log: seq<Record>, n: nat)
    requires InOrder(log) && n <= |log|
    ensures InOrder(log[..n])
    decreases |log|
  {
    if n < |log| {
      assert log[..|log| - 1][..n] == log[..n];
      FrontIsInOrder(log);
      InOrderPrefix(log[..|log| - 1], n);
    } else {
      assert log[..n] == log;
    }
  }

  // ------------------------------------------------------------ frames, by the calls

  lemma {:induction false} FewOfGroup(log: seq<Record>, task: Task, k: nat)
    requires 0 < k <= |Records(task)|
    ensures var since := if task.hook != FreeHook then [] else TraceSince(log, task.addr);
      FewSince(log + Records(task)[..k]) <==>
      FewSince(log) && (k > 1 ==> |since| + (k - 1) <= MAX_BACKTRACE_COUNT)
    decreases k
  {
    hide TraceSince;
    var part, front := log + Records(task)[..k], log + Records(task)[..k - 1];
    assert part[..|part| - 1] == front && part[|part| - 1] == Records(task)[k - 1];
    RecordsAreEvents(task, k - 1);
    if k > 1 {
      FewOfGroup(log, task, k - 1);
      CursorOfGroup(log, task, k - 1);
      LatestOfGroup(log, task, k - 1, task.addr);
    } else {
      assert front == log;
    }
  }

  lemma {:induction false} FewForAll(calls: seq<Task>, a: Addr)
    requires FewFramesSince(calls)
    ensures |FramesSince(TasksAbout(calls, a))| <= MAX_BACKTRACE_COUNT
    decreases |calls|
  {
    if calls != [] && calls[|calls| - 1].addr != a {
      FewForAll(calls[..|calls| - 1], a);
      assert TasksAbout(calls, a) == TasksAbout(calls[..|calls| - 1], a);
    }
  }

  // The trace buffers suffice for a log exactly when they do for the calls it tells of.
  lemma {:induction false} FewOfTasks(tasks: seq<Task>)
    ensures FewSince(Flatten(tasks)) <==> FewFramesSince(tasks)
  {
    if tasks != [] {
      var front, last := tasks[..|tasks| - 1], tasks[|tasks| - 1];
      FewOfTasks(front);
      FewOfGroup(Flatten(front), last, |Records(last)|);
      assert Records(last)[..|Records(last)|] == Records(last);
      LatestOfTasks(front, last.addr);
      if FewFramesSince(front) {
        FewForAll(front, last.addr);
      }
      var calls := TasksAbout(front, last.addr);
      assert (calls + [last])[..|calls|] == calls;
    }
  }

  lemma {:induction false} FewEvents(log: seq<Record>)
    ensures FewSince(Events(log)) <==> FewSince(log)
    decreases |log|
  {
    if log != [] {
      var front, last := log[..|log| - 1], log[|log| - 1];
      FewEvents(front);
      EventsSuffice(front, NULL);
      LatestEvents(front, Cursor(front));
      if !last.ModuleRecord? {
        assert (Events(front) + [last])[..|Events(front)|] == Events(front);
      } else {
        assert Events(front) + [] == Events(front);
      }
    }
  }
}
