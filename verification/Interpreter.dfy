// src/interpret.c: the counters, the hash of allocation entries and the cursor that
// jm_symbols_parse_log updates record by record, and the report and teardown of main.
module Interpreter {
  import opened Handles
  import opened HashState
  import opened Buckets
  import opened Runs
  import opened Uthash
  import opened EventLog
  import opened LeakReport
  import opened ReaderState
  import opened Listing

  ghost predicate IsEntry(e: Element, info: Info)
    reads e`isLeaking, e`allocSize, e`traces
  {
    e.isLeaking == info.leaking && e.allocSize == info.size && e.traces == info.traces
  }

  // The view says what the entries say.
  ghost predicate Shows(s: seq<Element>, view: map<Element, Info>)
    reads s`isLeaking, s`allocSize, s`traces
  {
    forall i {:trigger s[i]} :: 0 <= i < |s| ==> s[i] in view && IsEntry(s[i], view[s[i]])
  }

  lemma ShowsSnoc(s: seq<Element>, view: map<Element, Info>, e: Element, info: Info)
    requires Shows(s, view) && e !in s && IsEntry(e, info)
    ensures Shows(s + [e], view[e := info])
  {
  }

  // ------------------------------------------------------------ entries

  // jm_symbols_alloc_add_entry
  method AddEntry(entries: Hash, a: Addr, size: nat, ghost view: map<Element, Info>) returns (entry: Element)
    requires entries.Valid() && Shows(entries.st.order, view)
    modifies entries.Repr(), entries.st.order`next, entries.st.order`prev, entries.st.order`hhNext, entries.st.order`hhPrev
    ensures entries.Valid() && fresh(entry)
    ensures forall o :: o in entries.Repr() ==> o in old(entries.Repr()) || fresh(o)
    ensures entry.key == PtrKey(a) && entries.st == HashState.Add(entries.hash, old(entries.st), entry)
    ensures Shows(entries.st.order, view[entry := Info(size, true, [])])
  {
    ghost var was, repr := entries.st, entries.Repr();
    entry := new Element(PtrKey(a), size);
    assert entries.Repr() == repr && entries.st == was;
    Enter(entries, entry, Info(size, true, []), view);
    ShowsSnoc(was.order, view, entry, Info(size, true, []));
  }

  method Enter(entries: Hash, entry: Element, ghost info: Info, ghost view: map<Element, Info>)
    requires entries.Valid() && entry !in entries.st.order && IsEntry(entry, info) && Shows(entries.st.order, view)
    modifies entries.Repr(), entries.st.order`next, entries.st.order`prev, entries.st.order`hhNext, entries.st.order`hhPrev
    modifies entry`hashv, entry`tbl, entry`next, entry`prev, entry`hhNext, entry`hhPrev
    ensures entries.Valid()
    ensures forall o :: o in entries.Repr() ==> o in old(entries.Repr()) || fresh(o)
    ensures entries.st == HashState.Add(entries.hash, old(entries.st), entry)
    ensures IsEntry(entry, info) && Shows(old(entries.st.order), view)
  {
    hide Matches;
    ghost var order, repr, was := entries.st.order, entries.Repr(), entries.st;
    assert entry as object !in repr;
    assert forall i {:trigger order[i]} :: 0 <= i < |order| ==> order[i] as object !in repr;
    entries.Add(entry);
    assert IsEntry(entry, info) && Shows(order, view);
    assert entries.st == HashState.Add(entries.hash, was, entry);
    assert entries.Valid();
  }

  // jm_symbols_alloc_find_entry
  method FindEntry(entries: Hash, a: Addr) returns (entry: Element?)
    requires entries.Valid()
    ensures entry == if a == NULL then null else HashState.Find(entries.hash, entries.st, PtrKey(a))
    ensures entries.Valid() && (entry != null ==> entry in entries.st.order)
  {
    if a == NULL {
      return null;
    }
    entry := entries.Find(PtrKey(a));
    FindFinds(entries.hash, entries.st, PtrKey(a));
  }

  // The entry that a lookup finds, if any: all that a frame or free changes in the table
  ghost function Found(hash: HashFn, st: State, a: Addr): set<Element>
    requires Shape(st)
  {
    var e := HashState.Find(hash, st, PtrKey(a));
    if a == NULL || e == null then {} else {e}
  }

  lemma FoundIsEntry(entries: Hash, a: Addr)
    requires entries.Valid()
    ensures var order, found := entries.st.order, Found(entries.hash, entries.st, a);
      found == {} || (exists k :: 0 <= k < |order| && found == {order[k]})
  {
    FindFinds(entries.hash, entries.st, PtrKey(a));
  }

  method MarkFreed(entry: Element, ghost entries: Hash, ghost view: map<Element, Info>)
    requires entries.Valid() && Shows(entries.st.order, view) && entry in entries.st.order
    modifies entry`isLeaking
    ensures entries.Valid() && entry in view && Shows(entries.st.order, view[entry := view[entry].(leaking := false)])
  {
    entry.isLeaking := false;
  }

  // jm_symbols_alloc_push_backtrace. The trace buffer holds 32 frames.
  method PushBacktrace(entry: Element, f: Addr, ghost entries: Hash, ghost view: map<Element, Info>)
    requires entries.Valid() && Shows(entries.st.order, view) && entry in entries.st.order
    requires |entry.traces| < MAX_BACKTRACE_COUNT
    modifies entry`traces
    ensures entries.Valid() && entry in view
    ensures Shows(entries.st.order, view[entry := view[entry].(traces := view[entry].traces + [f])])
  {
    assert IsEntry(entry, view[entry]);
    entry.traces := entry.traces + [f];
  }

  // The part of JM_OPCODE_FREE that concerns the entry
  method Release(entries: Hash, a: Addr, ghost view: map<Element, Info>)
    returns (fault: Option<Fault>, ghost view': map<Element, Info>)
    requires entries.Valid() && Shows(entries.st.order, view)
    modifies Found(entries.hash, entries.st, a)`isLeaking
    ensures entries.Valid() && Shows(entries.st.order, view')
    ensures var e := HashState.Find(entries.hash, entries.st, PtrKey(a));
      if a == NULL || e == null then fault == Some(NullEntry)
      else fault == None && e in view && view' == view[e := view[e].(leaking := false)]
  {
    hide Matches;
    var entry := FindEntry(entries, a);
    view', fault := view, Some(NullEntry);
    if entry != null {
      view', fault := view[entry := view[entry].(leaking := false)], None;
      MarkFreed(entry, entries, view);
    }
  }

  // The part of JM_OPCODE_BACKTRACE that concerns the entry
  method Attach(entries: Hash, a: Addr, f: Addr, ghost view: map<Element, Info>)
    returns (fault: Option<Fault>, ghost view': map<Element, Info>)
    requires entries.Valid() && Shows(entries.st.order, view)
    modifies Found(entries.hash, entries.st, a)`traces
    ensures entries.Valid() && Shows(entries.st.order, view')
    ensures var e := HashState.Find(entries.hash, entries.st, PtrKey(a));
      if a == NULL || e == null then fault == Some(NullEntry)
      else if e in view && |view[e].traces| >= MAX_BACKTRACE_COUNT then fault == Some(TraceOverflow)
      else fault == None && e in view && view' == view[e := view[e].(traces := view[e].traces + [f])]
  {
    hide Matches;
    var entry := FindEntry(entries, a);
    view', fault := view, Some(NullEntry);
    if entry != null {
      assert IsEntry(entry, view[entry]);
      if |entry.traces| >= MAX_BACKTRACE_COUNT {
        return Some(TraceOverflow), view;
      }
      view', fault := view[entry := view[entry].(traces := view[entry].traces + [f])], None;
      PushBacktrace(entry, f, entries, view);
    }
  }

  // ------------------------------------------------------------ records

  // JM_OPCODE_ALLOC
  method ParseAlloc(c: Stats, entries: Hash, a: Addr, size: nat, ghost view: map<Element, Info>)
    returns (c': Stats, entry: Element)
    requires entries.Valid() && Shows(entries.st.order, view)
    modifies entries.Repr(), entries.st.order`next, entries.st.order`prev, entries.st.order`hhNext, entries.st.order`hhPrev
    ensures entries.Valid() && fresh(entry)
    ensures forall o :: o in entries.Repr() ==> o in old(entries.Repr()) || fresh(o)
    ensures c' == Stats(c.allocCount + 1, c.freeCount, c.total + size, a)
    ensures entry.key == PtrKey(a) && entries.st == HashState.Add(entries.hash, old(entries.st), entry)
    ensures Shows(entries.st.order, view[entry := Info(size, true, [])])
  {
    hide Matches;
    c' := c.(allocCount := c.allocCount + 1);
    c' := c'.(total := c'.total + size);
    c' := c'.(ctx := a);
    entry := AddEntry(entries, a, size, view);
  }

  lemma AllocIs(hash: HashFn, c: Stats, st: State, view: map<Element, Info>, a: Addr, size: nat, entry: Element,
          supply: seq<Element>)
    requires Shape(st)
    ensures ReadNext(hash, Reading(c, st, view), AllocEvent(a, size), supply + [entry]) ==
      Going(Reading(Stats(c.allocCount + 1, c.freeCount, c.total + size, a),
                    HashState.Add(hash, st, entry), view[entry := Info(size, true, [])]))
  {
  }

  // JM_OPCODE_BACKTRACE
  method ParseFrame(c: Stats, entries: Hash, f: Addr, ghost view: map<Element, Info>)
    returns (fault: Option<Fault>, ghost view': map<Element, Info>)
    requires entries.Valid() && Shows(entries.st.order, view)
    modifies Found(entries.hash, entries.st, c.ctx)`traces
    ensures entries.Valid() && Shows(entries.st.order, view')
    ensures Result(Reading(c, entries.st, view'), fault) ==
      ReadNext(entries.hash, Reading(c, entries.st, view), FrameRecord(f), [])
  {
    hide Matches;
    if c.ctx == NULL {
      return Some(AssertionFailed), view;
    }
    fault, view' := Attach(entries, c.ctx, f, view);
  }

  // JM_OPCODE_FREE. The size of a free is never read from the line: the total stays.
  method ParseFree(c: Stats, entries: Hash, a: Addr, size: nat, ghost view: map<Element, Info>)
    returns (c': Stats, fault: Option<Fault>, ghost view': map<Element, Info>)
    requires entries.Valid() && Shows(entries.st.order, view)
    modifies Found(entries.hash, entries.st, a)`isLeaking
    ensures entries.Valid() && Shows(entries.st.order, view')
    ensures c' == Stats(c.allocCount, c.freeCount + 1, c.total, a)
    ensures Result(Reading(c', entries.st, view'), fault) ==
      ReadNext(entries.hash, Reading(c, entries.st, view), FreeEvent(a, size), [])
  {
    hide Matches;
    c' := c.(freeCount := c.freeCount + 1);
    c' := c'.(ctx := a);
    fault, view' := Release(entries, a, view);
  }

  function Result(r: Reading, fault: Option<Fault>): Progress
  {
    match fault
    case None => Going(r)
    case Some(x) => Stuck(x)
  }

  // An alloc supplies one more element.
  ghost predicate Extends(supply': seq<Element>, supply: seq<Element>, r: Record)
  {
    if r.AllocEvent? then
      && |supply'| == |supply| + 1 && supply'[..|supply|] == supply
      && supply'[|supply|].key == PtrKey(r.addr) && supply'[|supply|] !in supply
    else supply' == supply
  }

  // One round of the loop of jm_symbols_parse_log
  method ParseRecord(c: Stats, entries: Hash, r: Record, ghost view: map<Element, Info>, ghost supply: seq<Element>)
    returns (c': Stats, fault: Option<Fault>, ghost view': map<Element, Info>, ghost supply': seq<Element>)
    requires entries.Valid() && Shows(entries.st.order, view) && entries.st.order == supply
    modifies entries.Repr(), entries.st.order
    ensures entries.Valid() && Shows(entries.st.order, view') && entries.st.order == supply'
    ensures forall o :: o in entries.Repr() ==> o in old(entries.Repr()) || fresh(o)
    ensures Extends(supply', supply, r) && (r.AllocEvent? ==> fresh(supply'[|supply|]))
    ensures Result(Reading(c', entries.st, view'), fault) ==
      ReadNext(entries.hash, Reading(c, old(entries.st), view), r, supply')
  {
    hide Matches;
    c', fault, view', supply' := c, None, view, supply;
    match r
    case AllocEvent(a, size) =>
      ghost var was := entries.st;
      var entry;
      c', entry := ParseAlloc(c, entries, a, size, view);
      AllocIs(entries.hash, c, was, view, a, size, entry, supply);
      view', supply' := view[entry := Info(size, true, [])], supply + [entry];
    case FrameRecord(f) =>
      FoundIsEntry(entries, c.ctx);
      fault, view' := ParseFrame(c, entries, f, view);
    case FreeEvent(a, size) =>
      FoundIsEntry(entries, a);
      c', fault, view' := ParseFree(c, entries, a, size, view);
    case ModuleRecord(_) =>
  }

  // ------------------------------------------------------------ whole logs

  lemma {:induction false} PrefixIsFollowable(log: seq<Record>, n: nat)
    requires Followable(log) && n <= |log|
    ensures Followable(log[..n])
    decreases |log|
  {
    if n < |log| {
      assert log[..|log| - 1][..n] == log[..n];
      PrefixIsFollowable(log[..|log| - 1], n);
    } else {
      assert log[..n] == log;
    }
  }

  lemma {:induction false} FailureStays(log: seq<Record>, n: nat)
    requires n <= |log| && (n == |log| || ReadAll(log[..n]).Failed?)
    ensures ReadAll(log) == ReadAll(log[..n])
    decreases |log|
  {
    if n < |log| {
      assert log[..|log| - 1][..n] == log[..n];
      FailureStays(log[..|log| - 1], n);
    } else {
      assert log[..n] == log;
    }
  }

  // One more record
  lemma ReadMore(hash: HashFn, log: seq<Record>, n: nat, r: Reading, supply: seq<Element>, supply': seq<Element>)
    requires n < |log| && Supplies(log[..n], supply) && Extends(supply', supply, log[n])
    requires ReadLog(hash, log[..n], supply) == Going(r)
    ensures Supplies(log[..n + 1], supply')
    ensures ReadLog(hash, log[..n + 1], supply') == ReadNext(hash, r, log[n], supply')
  {
    assert log[..n + 1][..n] == log[..n];
  }

  // What reading a log without reuse comes to, or where it stops
  lemma ReadsLikeFold(hash: HashFn, log: seq<Record>, n: nat, supply: seq<Element>)
    requires Followable(log) && n <= |log| && Supplies(log[..n], supply)
    requires n == |log| || ReadLog(hash, log[..n], supply).Stuck?
    ensures match ReadAll(log)
      case Failed(x) => ReadLog(hash, log[..n], supply) == Stuck(x)
      case Ok(s) =>
        && ReadLog(hash, log[..n], supply).Going?
        && Agrees(ReadLog(hash, log[..n], supply).reading, s, KeysOf(supply))
  {
    PrefixIsFollowable(log, n);
    ReadsAsFold(hash, log[..n], supply);
    FailureStays(log, n);
  }

  // jm_symbols_parse_log, up to the record that stops it or the end
  method ParseLog(hash: HashFn, log: seq<Record>)
    returns (c: Stats, entries: Hash, fault: Option<Fault>,
             ghost view: map<Element, Info>, ghost supply: seq<Element>, ghost read: nat)
    ensures entries.Valid() && entries.hash == hash && fresh(entries.Repr())
    ensures entries.st.order == supply && Shows(supply, view)
    ensures forall k {:trigger supply[k]} :: 0 <= k < |supply| ==> fresh(supply[k])
    ensures read <= |log| && (fault == None ==> read == |log|) && Supplies(log[..read], supply)
    ensures ReadLog(hash, log[..read], supply) == Result(Reading(c, entries.st, view), fault)
  {
    hide Matches;
    entries := new Hash(hash);
    c, fault, view, supply, read := Stats(0, 0, 0, NULL), None, map[], [], 0;
    var n := 0;
    while n < |log| && fault == None
      invariant n <= |log| && entries.Valid() && entries.hash == hash && fresh(entries.Repr())
      invariant entries.st.order == supply && Shows(supply, view)
      invariant forall k {:trigger supply[k]} :: 0 <= k < |supply| ==> fresh(supply[k])
      invariant Supplies(log[..n], supply)
      invariant ReadLog(hash, log[..n], supply) == Result(Reading(c, entries.st, view), fault)
      decreases |log| - n
    {
      ghost var was, before := Reading(c, entries.st, view), supply;
      c, fault, view, supply := ParseRecord(c, entries, log[n], view, supply);
      ReadMore(hash, log, n, was, before, supply);
      n := n + 1;
    }
    read := n;
  }

  // ------------------------------------------------------------ the report

  // The walk of main over the list
  method WalkLeaks(entries: Hash, ghost view: map<Element, Info>) returns (leaks: seq<Line>)
    requires entries.Valid() && Shows(entries.st.order, view)
    ensures leaks == LeaksIn(entries.st.order, view, |entries.st.order|)
  {
    leaks := [];
    var head, counter := entries.head, 1;
    while head != null
      invariant 1 <= counter <= |entries.st.order| + 1 && head == At(entries.st.order, counter - 1)
      invariant leaks == LeaksIn(entries.st.order, view, counter - 1)
      decreases |entries.st.order| + 1 - counter
    {
      if head.isLeaking {
        leaks := leaks + [Line(counter, head.key, head.allocSize, head.traces)];
      }
      head := head.next;
      counter := counter + 1;
    }
  }

  // main: parse the log, list the leaks, delete every entry. The report is right about
  // any log, also one that uses addresses again: its counters are those of the log, and
  // it lists the entries that the frees before left leaking, in order of allocation.
  method Interpret(hash: HashFn, log: seq<Record>)
    returns (c: Stats, leaks: seq<Line>, fault: Option<Fault>,
             ghost supply: seq<Element>, ghost read: nat, ghost deleted: seq<Element>)
    ensures read <= |log| && Supplies(log[..read], supply)
    ensures match fault
      case Some(x) => ReadLog(hash, log[..read], supply) == Stuck(x)
      case None =>
        && read == |log| && deleted == supply
        && ReadLog(hash, log[..read], supply).Going?
        && var r := ReadLog(hash, log[..read], supply).reading;
        && leaks == LeaksIn(supply, r.view, |supply|)
        && c == r.c
    ensures fault == None ==> c == Stats(CountAllocs(log), CountFrees(log), SumSizes(log), Cursor(log))
    ensures Followable(log) ==>
      match ReadAll(log)
      case Failed(x) => fault == Some(x)
      case Ok(s) => fault == None && c == Stats(s.allocCount, s.freeCount, s.total, s.ctx) && ListsLeaks(leaks, s)
    ensures InOrder(log) && FindsLatest(hash, log[..read], supply) ==>
      && (fault == None <==> FewSince(log))
      && (fault == None ==> ListsExactly(leaks, log, Outstanding(log)))
  {
    hide Matches, ListsLeaks, Agrees, ListsExactly, InOrder, FindsLatest, FewSince;
    var entries;
    ghost var view;
    c, entries, fault, view, supply, read := ParseLog(hash, log);
    Summarised(hash, log, read, Reading(c, entries.st, view), fault, supply);
    leaks, deleted := [], [];
    if fault == None {
      leaks, deleted := Report(entries, view);
    }
  }

  // The rest of main, after the log has been read
  method Report(entries: Hash, ghost view: map<Element, Info>)
    returns (leaks: seq<Line>, ghost deleted: seq<Element>)
    requires entries.Valid() && Shows(entries.st.order, view)
    modifies entries.Repr(), entries.st.order
    ensures deleted == old(entries.st.order) && leaks == LeaksIn(deleted, view, |deleted|)
  {
    leaks := WalkLeaks(entries, view);
    deleted := entries.DeleteAll();
  }

  // What the reader holds at the end
  lemma Summarised(hash: HashFn, log: seq<Record>, read: nat, r: Reading, fault: Option<Fault>, supply: seq<Element>)
    requires read <= |log| && (fault == None ==> read == |log|) && Supplies(log[..read], supply)
    requires ReadLog(hash, log[..read], supply) == Result(r, fault)
    ensures fault == None ==> r.c == Stats(CountAllocs(log), CountFrees(log), SumSizes(log), Cursor(log))
    ensures Followable(log) ==>
      match ReadAll(log)
      case Failed(x) => fault == Some(x)
      case Ok(s) =>
        && fault == None && r.c == Stats(s.allocCount, s.freeCount, s.total, s.ctx)
        && ListsLeaks(LeaksIn(supply, r.view, |supply|), s)
    ensures InOrder(log) && FindsLatest(hash, log[..read], supply) ==>
      && (fault == None <==> FewSince(log))
      && (fault == None ==> ListsExactly(LeaksIn(supply, r.view, |supply|), log, Outstanding(log)))
  {
    hide ListsLeaks, Agrees, ListsExactly, InOrder, FindsLatest, FewSince, Supplies, ReadLog, ReadAll;
    SuppliesCount(log[..read], supply);
    if Followable(log) {
      ReadsLikeFold(hash, log, read, supply);
      if ReadAll(log).Ok? {
        assert log[..read] == log;
        ReadingIsWf(hash, log, supply);
        ListIsFold(log, supply, r, ReadAll(log).summary);
        AgreesCounts(r, ReadAll(log).summary, KeysOf(supply));
      }
    }
    if fault == None {
      assert log[..read] == log;
      CountersAreExact(hash, log, supply);
    }
    if InOrder(log) && FindsLatest(hash, log[..read], supply) {
      InOrderPrefix(log, read);
      ReportIsExact(hash, log[..read], supply);
      if FewSince(log) {
        FewSincePrefix(log, read);
      }
    }
  }

  lemma AgreesCounts(r: Reading, s: Summary, keys: KeyMap)
    requires Agrees(r, s, keys)
    ensures r.c == Stats(s.allocCount, s.freeCount, s.total, s.ctx)
  {
  }
}
