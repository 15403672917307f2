// What src/interpret.c holds while it reads a log, as a value: the counters and cursor,
// the table of entries, and what each entry says. Unlike the fold of LeakReport this
// covers logs that allocate an address again, where several entries share a key.
module ReaderState {
  import opened Bits
  import opened Handles
  import opened HashState
  import opened Sequences
  import opened Runs
  import opened Duplicates
  import opened AddedTable
  import opened EventLog
  import opened LeakReport

  const POINTER_SIZE: nat := 8
  const POINTER_LIMIT: nat := 0x1_0000_0000_0000_0000

  // The bytes of a pointer, least significant first: the key of HASH_ADD_PTR.
  function PointerBytes(a: nat, n: nat): (r: Key)
    ensures |r| == n
  {
    if n == 0 then [] else [a % 256] + PointerBytes(a / 256, n - 1)
  }

  function PtrKey(a: Addr): (r: Key)
  {
    PointerBytes(a, POINTER_SIZE)
  }

  lemma {:induction false} PointerBytesInjective(a: nat, b: nat, n: nat)
    requires a < Pow(256, n) && b < Pow(256, n) && PointerBytes(a, n) == PointerBytes(b, n)
    ensures a == b
  {
    if n > 0 {
      var p, q := PointerBytes(a, n), PointerBytes(b, n);
      assert p[0] == a % 256 && q[0] == b % 256;
      assert p[1..] == PointerBytes(a / 256, n - 1) && q[1..] == PointerBytes(b / 256, n - 1);
      PointerBytesInjective(a / 256, b / 256, n - 1);
    }
  }

  lemma PtrKeyInjective(a: Addr, b: Addr)
    requires a < POINTER_LIMIT && b < POINTER_LIMIT && PtrKey(a) == PtrKey(b)
    ensures a == b
  {
    assert Pow(256, 8) == POINTER_LIMIT;
    PointerBytesInjective(a, b, 8);
  }

  // ------------------------------------------------------------ reading

  // The counters of the summary, and the cursor alloc_ctx.
  datatype Stats = Stats(allocCount: nat, freeCount: nat, total: nat, ctx: Addr)

  datatype Reading = Reading(c: Stats, st: State, view: map<Element, Info>)

  datatype Progress = Going(reading: Reading) | Stuck(fault: Fault)

  // One round of the loop of jm_symbols_parse_log. An alloc enters the last of `added`.
  ghost function ReadNext(hash: HashFn, r: Reading, rec: Record, added: seq<Element>): (p: Progress)
    requires Shape(r.st) && (rec.AllocEvent? ==> added != [])
    ensures p.Going? ==> Shape(p.reading.st)
  {
    match rec
    case AllocEvent(a, size) =>
      var e := added[|added| - 1];
      Going(Reading(Stats(r.c.allocCount + 1, r.c.freeCount, r.c.total + size, a),
                    Add(hash, r.st, e), r.view[e := Info(size, true, [])]))
    case FrameRecord(f) =>
      var e := Find(hash, r.st, PtrKey(r.c.ctx));
      if r.c.ctx == NULL then Stuck(AssertionFailed)
      else if e == null || e !in r.view then Stuck(NullEntry)
      else if |r.view[e].traces| >= MAX_BACKTRACE_COUNT then Stuck(TraceOverflow)
      else Going(r.(view := r.view[e := r.view[e].(traces := r.view[e].traces + [f])]))
    case FreeEvent(a, _) =>
      var e := Find(hash, r.st, PtrKey(a));
      if a == NULL || e == null || e !in r.view then Stuck(NullEntry)
      else Going(Reading(Stats(r.c.allocCount, r.c.freeCount + 1, r.c.total, a), r.st,
                         r.view[e := r.view[e].(leaking := false)]))
    case ModuleRecord(_) => Going(r)
  }

  // A log, with the elements that its allocs enter.
  ghost function ReadLog(hash: HashFn, log: seq<Record>, supply: seq<Element>): (p: Progress)
    requires |supply| == CountAllocs(log)
    ensures p.Going? ==> Shape(p.reading.st)
    decreases |log|
  {
    if log == [] then Going(Reading(Stats(0, 0, 0, NULL), Initial(), map[]))
    else
      var front, last := log[..|log| - 1], log[|log| - 1];
      match ReadLog(hash, front, if last.AllocEvent? then supply[..|supply| - 1] else supply)
      case Stuck(x) => Stuck(x)
      case Going(r) => ReadNext(hash, r, last, supply)
  }

  // The elements carry the addresses of the allocs, in order, and are all different.
  ghost predicate Supplies(log: seq<Record>, supply: seq<Element>)
    decreases |log|
  {
    && |supply| == CountAllocs(log)
    && (log == [] ||
        var front, last, n := log[..|log| - 1], log[|log| - 1], |supply| - 1;
        if last.AllocEvent? then
          supply[n].key == PtrKey(last.addr) && supply[n] !in supply[..n] && Supplies(front, supply[..n])
        else Supplies(front, supply))
  }

  // ------------------------------------------------------------ the table is a run of adds

  ghost predicate IsRunOf(hash: HashFn, r: Reading, supply: seq<Element>)
  {
    && r.st == TableOf(hash, supply) && Distinct(supply)
    && (forall i :: 0 <= i < |supply| ==> supply[i] in r.view)
  }

  lemma {:induction false} SuppliesDistinct(log: seq<Record>, supply: seq<Element>)
    requires Supplies(log, supply)
    ensures Distinct(supply)
    decreases |log|
  {
    if log != [] {
      var front, last, n := log[..|log| - 1], log[|log| - 1], |supply| - 1;
      SuppliesDistinct(front, if last.AllocEvent? then supply[..n] else supply);
    }
  }

  lemma StepKeepsRun(hash: HashFn, r: Reading, rec: Record, supply: seq<Element>)
    requires IsRunOf(hash, r, supply) && Shape(r.st) && !rec.AllocEvent? && ReadNext(hash, r, rec, supply).Going?
    ensures IsRunOf(hash, ReadNext(hash, r, rec, supply).reading, supply)
  {
    hide TableOf, Find, PointerBytes;
  }

  lemma AllocKeepsRun(hash: HashFn, r: Reading, rec: Record, supply: seq<Element>)
    requires supply != [] && Distinct(supply) && Shape(r.st) && rec.AllocEvent?
    requires IsRunOf(hash, r, supply[..|supply| - 1])
    ensures IsRunOf(hash, ReadNext(hash, r, rec, supply).reading, supply)
  {
    hide TableOf, Add, PointerBytes;
    var n := |supply| - 1;
    TableOfOneMore(hash, supply);
    assert forall i :: 0 <= i < n ==> supply[i] == supply[..n][i];
  }

  // The table holds the elements of the allocs so far, added one by one.
  lemma {:induction false} ReadingIsRun(hash: HashFn, log: seq<Record>, supply: seq<Element>)
    requires Supplies(log, supply) && ReadLog(hash, log, supply).Going?
    ensures IsRunOf(hash, ReadLog(hash, log, supply).reading, supply)
    decreases |log|
  {
    hide TableOf, IsRunOf, ReadNext, PointerBytes;
    SuppliesDistinct(log, supply);
    if log == [] {
      NothingIsRun(hash);
    } else {
      var front, last, n := log[..|log| - 1], log[|log| - 1], |supply| - 1;
      if last.AllocEvent? {
        ReadingIsRun(hash, front, supply[..n]);
        AllocKeepsRun(hash, ReadLog(hash, front, supply[..n]).reading, last, supply);
      } else {
        ReadingIsRun(hash, front, supply);
        StepKeepsRun(hash, ReadLog(hash, front, supply).reading, last, supply);
      }
    }
  }

  lemma NothingIsRun(hash: HashFn)
    ensures IsRunOf(hash, Reading(Stats(0, 0, 0, NULL), Initial(), map[]), [])
  {
    TableOfNone(hash);
  }

  lemma ReadingIsWf(hash: HashFn, log: seq<Record>, supply: seq<Element>)
    requires Supplies(log, supply) && ReadLog(hash, log, supply).Going?
    ensures Wf(hash, ReadLog(hash, log, supply).reading.st) && ReadLog(hash, log, supply).reading.st.order == supply
  {
    ReadingIsRun(hash, log, supply);
    TableFacts(hash, supply);
  }

  // ------------------------------------------------------------ any log: the counters

  // Whatever addresses are used again, the counters, the total and the cursor are exact.
  lemma {:induction false} CountersAreExact(hash: HashFn, log: seq<Record>, supply: seq<Element>)
    requires |supply| == CountAllocs(log) && ReadLog(hash, log, supply).Going?
    ensures ReadLog(hash, log, supply).reading.c == Stats(CountAllocs(log), CountFrees(log), SumSizes(log), Cursor(log))
    decreases |log|
  {
    if log != [] {
      var front, last := log[..|log| - 1], log[|log| - 1];
      CountersAreExact(hash, front, if last.AllocEvent? then supply[..|supply| - 1] else supply);
    }
  }

  // ------------------------------------------------------------ any log: which entry is found

  // Of the entries with one address, lookup finds the one of the latest alloc exactly
  // when the number of expansions since that alloc is even, or it is the only one.
  lemma LatestFound(hash: HashFn, log: seq<Record>, supply: seq<Element>, j: nat)
    requires Supplies(log, supply) && ReadLog(hash, log, supply).Going? && j < |supply|
    requires forall k :: j < k < |supply| ==> supply[k].key != supply[j].key
    ensures var before, st := TableOf(hash, supply[..j]), ReadLog(hash, log, supply).reading.st;
      Find(hash, st, supply[j].key) == supply[j]
      <==> EvenlyExpanded(before, st) || Equals(hash, st, supply[j].key) == [supply[j]]
  {
    hide ReadLog, Supplies, TableOf, Find;
    ReadingIsRun(hash, log, supply);
    TableFindsLatest(hash, supply, j);
  }

  // A free clears one entry of its address and changes nothing else in the table; it is
  // the entry of the latest alloc, the jth of all, exactly under the condition above.
  lemma FreeClearsLatest(hash: HashFn, log: seq<Record>, supply: seq<Element>, a: Addr, size: nat, j: nat)
    requires Supplies(log, supply) && ReadLog(hash, log, supply).Going? && j < |supply|
    requires a != NULL && supply[j].key == PtrKey(a) && forall k :: j < k < |supply| ==> supply[k].key != PtrKey(a)
    ensures var r := ReadLog(hash, log, supply).reading; var e := Find(hash, r.st, PtrKey(a));
      && e != null && e in r.view && e.key == PtrKey(a)
      && ReadNext(hash, r, FreeEvent(a, size), supply) ==
         Going(Reading(r.c.(freeCount := r.c.freeCount + 1, ctx := a), r.st,
                       r.view[e := r.view[e].(leaking := false)]))
      && (e == supply[j] <==>
          || EvenlyExpanded(TableOf(hash, supply[..j]), r.st)
          || Equals(hash, r.st, PtrKey(a)) == [supply[j]])
  {
    LatestFound(hash, log, supply, j);
    ReadingIsRun(hash, log, supply);
    ReadingIsWf(hash, log, supply);
    var r := ReadLog(hash, log, supply).reading;
    FindFinds(hash, r.st, PtrKey(a));
    assert supply[j] in r.st.order;
  }

  // ------------------------------------------------------------ logs without reuse

  function AddressesIn(log: seq<Record>): set<Addr>
  {
    if log == [] then {}
    else AddressesIn(log[..|log| - 1]) + if log[|log| - 1].AllocEvent? then {log[|log| - 1].addr} else {}
  }

  ghost predicate Pointers64(log: seq<Record>)
  {
    log == [] ||
    var front, r := log[..|log| - 1], log[|log| - 1];
    Pointers64(front) && (r.AllocEvent? || r.FreeEvent? ==> r.addr < POINTER_LIMIT)
  }

  // 64-bit addresses, and none allocated twice
  ghost predicate Followable(log: seq<Record>)
  {
    log == [] ||
    var front, r := log[..|log| - 1], log[|log| - 1];
    && Followable(front)
    && (r.AllocEvent? || r.FreeEvent? ==> r.addr < POINTER_LIMIT)
    && (r.AllocEvent? ==> r.addr !in AddressesIn(front))
  }

  lemma {:induction false} EntriesAreAllocated(log: seq<Record>)
    requires ReadAll(log).Ok?
    ensures ReadAll(log).summary.entries.Keys == AddressesIn(log)
  {
    if log != [] {
      EntriesAreAllocated(log[..|log| - 1]);
    }
  }

  function KeysOf(supply: seq<Element>): KeyMap
  {
    if supply == [] then map[]
    else KeysOf(supply[..|supply| - 1])[supply[|supply| - 1].key := supply[|supply| - 1]]
  }

  // Entries of the fold and entries of the table are the same, address by address.
  ghost predicate Agrees(r: Reading, s: Summary, keys: KeyMap)
  {
    && r.c == Stats(s.allocCount, s.freeCount, s.total, s.ctx) && s.ctx < POINTER_LIMIT
    && Holds(r.st, keys)
    && (forall a :: a in s.entries ==> a < POINTER_LIMIT)
    && (forall a: Addr :: a < POINTER_LIMIT ==> (a in s.entries <==> PtrKey(a) in keys))
    && (forall a :: a in s.entries && PtrKey(a) in keys ==>
        keys[PtrKey(a)] in r.view && r.view[keys[PtrKey(a)]] == s.entries[a])
  }

  lemma AgreesFinds(hash: HashFn, r: Reading, s: Summary, keys: KeyMap, a: Addr)
    requires Wf(hash, r.st) && Agrees(r, s, keys) && a < POINTER_LIMIT
    ensures Find(hash, r.st, PtrKey(a)) == if a in s.entries then keys[PtrKey(a)] else null
  {
    HoldsFinds(hash, r.st, keys, PtrKey(a));
  }

  lemma OthersApart(keys: KeyMap, st: State, a: Addr, b: Addr)
    requires Holds(st, keys) && a < POINTER_LIMIT && b < POINTER_LIMIT && a != b
    requires PtrKey(a) in keys && PtrKey(b) in keys
    ensures keys[PtrKey(a)] != keys[PtrKey(b)]
  {
    if keys[PtrKey(a)] == keys[PtrKey(b)] {
      PtrKeyInjective(a, b);
    }
  }

  lemma AllocAgrees(hash: HashFn, r: Reading, s: Summary, keys: KeyMap, a: Addr, size: nat, added: seq<Element>)
    requires Shape(r.st) && Agrees(r, s, keys) && a < POINTER_LIMIT && a !in s.entries && added != []
    requires var e := added[|added| - 1]; e.key == PtrKey(a) && e !in r.st.order
    ensures var e := added[|added| - 1];
      Agrees(ReadNext(hash, r, AllocEvent(a, size), added).reading,
             ReadOne(s, AllocEvent(a, size)).summary, keys[PtrKey(a) := e])
  {
    var e := added[|added| - 1];
    AddMembers(hash, r.st, e);
    HoldsAfterAdd(r.st, keys, e, Add(hash, r.st, e));
    forall b: Addr | b < POINTER_LIMIT && PtrKey(b) == PtrKey(a) ensures b == a {
      PtrKeyInjective(a, b);
    }
  }

  // Changing the entry of a in both
  lemma ChangeAgrees(r: Reading, s: Summary, keys: KeyMap, a: Addr, info: Info, c: Stats)
    requires Agrees(r, s, keys) && a in s.entries && c.ctx < POINTER_LIMIT
    ensures PtrKey(a) in keys
    ensures Agrees(Reading(c, r.st, r.view[keys[PtrKey(a)] := info]),
                   Summary(c.allocCount, c.freeCount, c.total, c.ctx, s.entries[a := info]), keys)
  {
    forall b | b in s.entries && b != a ensures keys[PtrKey(b)] != keys[PtrKey(a)] {
      OthersApart(keys, r.st, a, b);
    }
  }

  lemma FrameAgrees(hash: HashFn, r: Reading, s: Summary, keys: KeyMap, f: Addr, added: seq<Element>)
    requires Wf(hash, r.st) && Agrees(r, s, keys)
    ensures match ReadOne(s, FrameRecord(f))
      case Failed(x) => ReadNext(hash, r, FrameRecord(f), added) == Stuck(x)
      case Ok(s') =>
        && ReadNext(hash, r, FrameRecord(f), added).Going?
        && Agrees(ReadNext(hash, r, FrameRecord(f), added).reading, s', keys)
  {
    AgreesFinds(hash, r, s, keys, s.ctx);
    if ReadOne(s, FrameRecord(f)).Ok? {
      var info := s.entries[s.ctx];
      ChangeAgrees(r, s, keys, s.ctx, info.(traces := info.traces + [f]), r.c);
    }
  }

  lemma FreeAgrees(hash: HashFn, r: Reading, s: Summary, keys: KeyMap, a: Addr, size: nat, added: seq<Element>)
    requires Wf(hash, r.st) && Agrees(r, s, keys) && a < POINTER_LIMIT
    ensures match ReadOne(s, FreeEvent(a, size))
      case Failed(x) => ReadNext(hash, r, FreeEvent(a, size), added) == Stuck(x)
      case Ok(s') =>
        && ReadNext(hash, r, FreeEvent(a, size), added).Going?
        && Agrees(ReadNext(hash, r, FreeEvent(a, size), added).reading, s', keys)
  {
    AgreesFinds(hash, r, s, keys, a);
    if ReadOne(s, FreeEvent(a, size)).Ok? {
      ChangeAgrees(r, s, keys, a, s.entries[a].(leaking := false), Stats(s.allocCount, s.freeCount + 1, s.total, a));
    }
  }

  // On logs without reuse the table is the fold of LeakReport, fault for fault.
  lemma {:induction false} ReadsAsFold(hash: HashFn, log: seq<Record>, supply: seq<Element>)
    requires Followable(log) && Supplies(log, supply)
    ensures match ReadAll(log)
      case Failed(x) => ReadLog(hash, log, supply) == Stuck(x)
      case Ok(s) => ReadLog(hash, log, supply).Going? && Agrees(ReadLog(hash, log, supply).reading, s, KeysOf(supply))
    decreases |log|
  {
    if log != [] {
      var front, last, n := log[..|log| - 1], log[|log| - 1], |supply| - 1;
      var rest := if last.AllocEvent? then supply[..n] else supply;
      ReadsAsFold(hash, front, rest);
      if ReadAll(front).Ok? {
        var r, s := ReadLog(hash, front, rest).reading, ReadAll(front).summary;
        ReadingIsRun(hash, front, rest);
        ReadingIsWf(hash, front, rest);
        match last
        case AllocEvent(a, size) =>
          EntriesAreAllocated(front);
          AllocAgrees(hash, r, s, KeysOf(rest), a, size, supply);
        case FrameRecord(f) => FrameAgrees(hash, r, s, KeysOf(rest), f, supply);
        case FreeEvent(a, size) => FreeAgrees(hash, r, s, KeysOf(rest), a, size, supply);
        case ModuleRecord(_) =>
      }
    }
  }

  lemma {:induction false} AllocatedHasEvents(log: seq<Record>, a: Addr)
    requires a in AddressesIn(log)
    ensures About(log, a) != []
    decreases |log|
  {
    if !(log[|log| - 1].AllocEvent? && log[|log| - 1].addr == a) {
      AllocatedHasEvents(log[..|log| - 1], a);
    }
  }

  // Logs that the tracker writes can be followed.
  lemma {:induction false} InTurnIsFollowable(log: seq<Record>)
    requires InTurn(log) && Pointers64(log)
    ensures Followable(log)
    decreases |log|
  {
    if log != [] {
      var front, r := log[..|log| - 1], log[|log| - 1];
      FrontIsInTurn(log);
      InTurnIsFollowable(front);
      if r.AllocEvent? {
        assert |About(log, r.addr)| <= 2;
        LastAlternates(log, r.addr);
        if r.addr in AddressesIn(front) {
          AllocatedHasEvents(front, r.addr);
        }
      }
    }
  }
}
