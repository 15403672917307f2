// The hooks of src/preload.c running on any number of threads: the allocator, the
// guard keys, the two mutexes, and the log they write.
module EventLog {

  type Tid = nat
  type Addr = nat

  const NULL: Addr := 0

  // Frames of one call, the frame of jm_backtrace_unwind itself included.
  const MAX_BACKTRACE_COUNT: nat := 32

  datatype Option<T> = None | Some(value: T)

  datatype Record =
    | AllocEvent(addr: Addr, size: nat)
    | FreeEvent(addr: Addr, size: nat)
    | FrameRecord(addr: Addr)
    | ModuleRecord(addr: Addr)

  // Each hook has its own guard key.
  datatype Hook = MallocHook | CallocHook | FreeHook

  // A call of jm_backtrace_unwind: its event, and the frames it will find. The size is
  // what malloc_usable_size says of the block, whatever was asked for.
  datatype Task = Task(hook: Hook, addr: Addr, size: nat, frames: seq<Addr>)

  // Where a thread stands.
  datatype Phase =
    | Idle                            // in the program
    | Allocated(hook: Hook, addr: Addr)  // the libc call has returned, nothing tracked yet
    | Entered(task: Task)             // guard set, unwind_mutex not taken
    | MapWriting(task: Task)          // writing a module record, tracker_fd_mutex taken
    | Locked(task: Task, k: nat)      // unwind_mutex taken, k records of the task written
    | Writing(task: Task, k: nat)     // writing record k, both mutexes taken
    | Tracked(task: Task)             // unwind_mutex released, guard still set
    | Releasing(addr: Addr)           // guard cleared, about to call the libc free

  // The part of the program or of a thread that holds an address.
  datatype Holder = Program | Thread(t: Tid)

  // `done` and `holder` record history: the finished tasks in order, and who holds
  // each live address.
  datatype Sys = Sys(
    phase: map<Tid, Phase>,
    live: set<Addr>,
    owned: set<Addr>,
    guards: set<(Tid, Hook)>,
    unwind: Option<Tid>,
    fd: Option<Tid>,
    log: seq<Record>,
    done: seq<Task>,
    holder: map<Addr, Holder>)

  function Start(): Sys
  {
    Sys(map[], {}, {}, {}, None, None, [], [], map[])
  }

  function PhaseOf(s: Sys, t: Tid): Phase
  {
    if t in s.phase then s.phase[t] else Idle
  }

  // The records of one call of jm_backtrace_unwind.
  function Event(task: Task): Record
  {
    if task.hook == FreeHook then FreeEvent(task.addr, task.size) else AllocEvent(task.addr, task.size)
  }

  function FrameRecords(frames: seq<Addr>): (r: seq<Record>)
    ensures |r| == |frames|
  {
    if frames == [] then [] else FrameRecords(frames[..|frames| - 1]) + [FrameRecord(frames[|frames| - 1])]
  }

  function Records(task: Task): (r: seq<Record>)
    ensures |r| == 1 + |task.frames|
  {
    [Event(task)] + FrameRecords(task.frames)
  }

  datatype Step =
    | LibcAlloc(t: Tid, hook: Hook, addr: Addr)                  // the allocator serves a request
    | EnterAlloc(t: Tid, size: nat, frames: seq<Addr>)           // guard test after the libc call
    | BeginModule(t: Tid)
    | EndModule(t: Tid, base: Addr)
    | LockUnwind(t: Tid)
    | BeginWrite(t: Tid)
    | EndWrite(t: Tid)
    | UnlockUnwind(t: Tid)
    | Leave(t: Tid)                                              // guard cleared
    | CallFree(t: Tid, addr: Addr, size: nat, frames: seq<Addr>) // the program frees what it owns
    | LibcFree(t: Tid)

  ghost predicate Enabled(s: Sys, step: Step)
  {
    match step
    case LibcAlloc(t, hook, a) => PhaseOf(s, t) == Idle && hook != FreeHook && (a == NULL || a !in s.live)
    case EnterAlloc(t, _, frames) => PhaseOf(s, t).Allocated? && |frames| < MAX_BACKTRACE_COUNT
    case BeginModule(t) => PhaseOf(s, t).Entered? && PhaseOf(s, t).task.hook != FreeHook && s.fd == None
    case EndModule(t, _) => PhaseOf(s, t).MapWriting?
    case LockUnwind(t) => PhaseOf(s, t).Entered? && s.unwind == None
    case BeginWrite(t) => PhaseOf(s, t).Locked? && PhaseOf(s, t).k < |Records(PhaseOf(s, t).task)| && s.fd == None
    case EndWrite(t) => PhaseOf(s, t).Writing? && PhaseOf(s, t).k < |Records(PhaseOf(s, t).task)|
    case UnlockUnwind(t) => PhaseOf(s, t).Locked? && PhaseOf(s, t).k == |Records(PhaseOf(s, t).task)|
    case Leave(t) => PhaseOf(s, t).Tracked?
    case CallFree(t, a, _, frames) => PhaseOf(s, t) == Idle && a != NULL && a in s.owned && |frames| < MAX_BACKTRACE_COUNT
    case LibcFree(t) => PhaseOf(s, t).Releasing?
  }

  function SetPhase(s: Sys, t: Tid, p: Phase): Sys
  {
    s.(phase := s.phase[t := p])
  }

  // The address goes to the program; a null result is nobody's.
  function GiveToProgram(s: Sys, a: Addr): Sys
  {
    if a == NULL then s else s.(owned := s.owned + {a}, holder := s.holder[a := Program])
  }

  ghost function Do(s: Sys, step: Step): Sys
    requires Enabled(s, step)
  {
    match step
    case LibcAlloc(t, hook, a) =>
      var s1 := SetPhase(s, t, Allocated(hook, a));
      if a == NULL then s1 else s1.(live := s.live + {a}, holder := s.holder[a := Thread(t)])
    case EnterAlloc(t, size, frames) =>
      var Allocated(hook, a) := PhaseOf(s, t);
      if (t, hook) in s.guards then GiveToProgram(SetPhase(s, t, Idle), a)
      else SetPhase(s, t, Entered(Task(hook, a, size, frames))).(guards := s.guards + {(t, hook)})
    case BeginModule(t) =>
      SetPhase(s, t, MapWriting(PhaseOf(s, t).task)).(fd := Some(t))
    case EndModule(t, base) =>
      SetPhase(s, t, Entered(PhaseOf(s, t).task)).(fd := None, log := s.log + [ModuleRecord(base)])
    case LockUnwind(t) =>
      SetPhase(s, t, Locked(PhaseOf(s, t).task, 0)).(unwind := Some(t))
    case BeginWrite(t) =>
      SetPhase(s, t, Writing(PhaseOf(s, t).task, PhaseOf(s, t).k)).(fd := Some(t))
    case EndWrite(t) =>
      var Writing(task, k) := PhaseOf(s, t);
      SetPhase(s, t, Locked(task, k + 1)).(fd := None, log := s.log + [Records(task)[k]])
    case UnlockUnwind(t) =>
      var task := PhaseOf(s, t).task;
      SetPhase(s, t, Tracked(task)).(unwind := None, done := s.done + [task])
    case Leave(t) =>
      var task := PhaseOf(s, t).task;
      var s1 := s.(guards := s.guards - {(t, task.hook)});
      if task.hook == FreeHook then SetPhase(s1, t, Releasing(task.addr))
      else GiveToProgram(SetPhase(s1, t, Idle), task.addr)
    case CallFree(t, a, size, frames) =>
      var s1 := s.(owned := s.owned - {a}, holder := s.holder[a := Thread(t)]);
      if (t, FreeHook) in s.guards then SetPhase(s1, t, Releasing(a))
      else SetPhase(s1, t, Entered(Task(FreeHook, a, size, frames))).(guards := s.guards + {(t, FreeHook)})
    case LibcFree(t) =>
      var a := PhaseOf(s, t).addr;
      SetPhase(s, t, Idle).(live := s.live - {a}, holder := s.holder - {a})
  }

  ghost predicate Behaviour(s: Sys, steps: seq<Step>)
    decreases |steps|
  {
    steps == [] || (Enabled(s, steps[0]) && Behaviour(Do(s, steps[0]), steps[1..]))
  }

  ghost function After(s: Sys, steps: seq<Step>): Sys
    requires Behaviour(s, steps)
    decreases |steps|
  {
    if steps == [] then s else After(Do(s, steps[0]), steps[1..])
  }

  // ------------------------------------------------------------ mutexes and guards

  ghost predicate InUnwind(p: Phase)
  {
    p.Locked? || p.Writing?
  }

  ghost predicate InWrite(p: Phase)
  {
    p.Writing? || p.MapWriting?
  }

  ghost predicate InHook(p: Phase)
  {
    p.Entered? || p.MapWriting? || p.Locked? || p.Writing? || p.Tracked?
  }

  // One thread at a time is inside jm_backtrace_unwind, one at a time writes.
  ghost predicate MutexesHeld(s: Sys)
  {
    && (forall t: Tid :: s.unwind == Some(t) <==> InUnwind(PhaseOf(s, t)))
    && (forall t: Tid :: s.fd == Some(t) <==> InWrite(PhaseOf(s, t)))
  }

  // A guard key is set exactly while its hook tracks.
  ghost predicate GuardsSet(s: Sys)
  {
    forall t: Tid, h :: (t, h) in s.guards <==> InHook(PhaseOf(s, t)) && PhaseOf(s, t).task.hook == h
  }

  ghost predicate InRange(p: Phase)
  {
    && (p.Locked? ==> p.k <= |Records(p.task)|)
    && (p.Writing? ==> p.k < |Records(p.task)|)
    && (p.MapWriting? ==> p.task.hook != FreeHook)
    && (p.Allocated? ==> p.hook != FreeHook)
  }

  ghost predicate Exclusive(s: Sys)
  {
    MutexesHeld(s) && GuardsSet(s) && forall t: Tid :: InRange(PhaseOf(s, t))
  }

  lemma OthersStay(s: Sys, step: Step)
    requires Enabled(s, step)
    ensures forall t: Tid :: t != step.t ==> PhaseOf(Do(s, step), t) == PhaseOf(s, t)
  {
  }

  lemma StepKeepsMutexes(s: Sys, step: Step)
    requires Exclusive(s) && Enabled(s, step)
    ensures MutexesHeld(Do(s, step))
  {
    OthersStay(s, step);
    assert InRange(PhaseOf(s, step.t));
    assert s.unwind == Some(step.t) <==> InUnwind(PhaseOf(s, step.t));
    assert s.fd == Some(step.t) <==> InWrite(PhaseOf(s, step.t));
  }

  lemma StepKeepsGuards(s: Sys, step: Step)
    requires Exclusive(s) && Enabled(s, step)
    ensures GuardsSet(Do(s, step))
  {
    OthersStay(s, step);
    var s' := Do(s, step);
    forall t: Tid, h ensures (t, h) in s'.guards <==> InHook(PhaseOf(s', t)) && PhaseOf(s', t).task.hook == h {
      assert (t, h) in s.guards <==> InHook(PhaseOf(s, t)) && PhaseOf(s, t).task.hook == h;
    }
  }

  lemma StepKeepsExclusive(s: Sys, step: Step)
    requires Exclusive(s) && Enabled(s, step)
    ensures Exclusive(Do(s, step))
  {
    StepKeepsMutexes(s, step);
    StepKeepsGuards(s, step);
    OthersStay(s, step);
    assert InRange(PhaseOf(s, step.t));
  }

  // A program-level call always finds its guard clear, so every call is tracked.
  lemma CallsAreTracked(s: Sys, t: Tid)
    requires Exclusive(s)
    ensures PhaseOf(s, t) == Idle || PhaseOf(s, t).Allocated? ==> forall h :: (t, h) !in s.guards
  {
  }

  // Whatever the others wait for, some thread inside a hook can go on.
  lemma NeverStuck(s: Sys, t: Tid)
    requires Exclusive(s) && PhaseOf(s, t) != Idle
    ensures exists step :: Enabled(s, step) && PhaseOf(s, step.t) != Idle
  {
    var p := PhaseOf(s, t);
    assert InRange(p);
    if p.Entered? && s.unwind.Some? {
      InsideGoesOn(s, s.unwind.value);
    } else if p.Locked? {
      InsideGoesOn(s, t);
    } else {
      var step := match p
        case Allocated(_, _) => EnterAlloc(t, 0, [])
        case Entered(_) => LockUnwind(t)
        case MapWriting(_) => EndModule(t, 0)
        case Writing(_, _) => EndWrite(t)
        case Tracked(_) => Leave(t)
        case _ => LibcFree(t);
      assert Enabled(s, step);
    }
  }

  lemma InsideGoesOn(s: Sys, t: Tid)
    requires Exclusive(s) && InUnwind(PhaseOf(s, t))
    ensures exists step :: Enabled(s, step) && PhaseOf(s, step.t) != Idle
  {
    var p := PhaseOf(s, t);
    assert InRange(p);
    if p.Locked? && p.k < |Records(p.task)| && s.fd.Some? {
      var u := s.fd.value;
      assert InWrite(PhaseOf(s, u)) && InRange(PhaseOf(s, u));
      assert Enabled(s, if PhaseOf(s, u).Writing? then EndWrite(u) else EndModule(u, 0));
    } else {
      var n := |Records(p.task)|;
      assert Enabled(s, if p.Writing? then EndWrite(t) else if p.k == n then UnlockUnwind(t) else BeginWrite(t));
    }
  }

  // ------------------------------------------------------------ whole groups

  // The log without module records.
  function Events(log: seq<Record>): (r: seq<Record>)
  {
    if log == [] then []
    else
      var last := log[|log| - 1];
      Events(log[..|log| - 1]) + if last.ModuleRecord? then [] else [last]
  }

  function Flatten(tasks: seq<Task>): seq<Record>
  {
    if tasks == [] then [] else Flatten(tasks[..|tasks| - 1]) + Records(tasks[|tasks| - 1])
  }

  // What the holder of unwind_mutex has written of its task.
  ghost function Underway(s: Sys): seq<Record>
    requires Exclusive(s)
  {
    if s.unwind.None? then []
    else
      var p := PhaseOf(s, s.unwind.value);
      Records(p.task)[..p.k]
  }

  ghost predicate WholeGroups(s: Sys)
  {
    Exclusive(s) && Events(s.log) == Flatten(s.done) + Underway(s)
  }

  lemma {:induction false} EventsSnoc(log: seq<Record>, r: Record)
    ensures Events(log + [r]) == Events(log) + if r.ModuleRecord? then [] else [r]
  {
    assert (log + [r])[..|log|] == log;
  }

  lemma FlattenSnoc(tasks: seq<Task>, task: Task)
    ensures Flatten(tasks + [task]) == Flatten(tasks) + Records(task)
  {
    assert (tasks + [task])[..|tasks|] == tasks;
  }

  // A step of a thread that neither holds nor takes nor drops unwind_mutex.
  lemma UnderwayStays(s: Sys, step: Step)
    requires Exclusive(s) && Enabled(s, step) && Exclusive(Do(s, step))
    requires !step.LockUnwind? && !step.EndWrite? && !step.UnlockUnwind?
    ensures Underway(Do(s, step)) == Underway(s)
  {
    OthersStay(s, step);
    assert s.unwind == Some(step.t) <==> InUnwind(PhaseOf(s, step.t));
  }

  lemma WriterHolds(s: Sys, t: Tid)
    requires Exclusive(s) && InUnwind(PhaseOf(s, t))
    ensures s.unwind == Some(t)
  {
  }

  lemma WriteKeepsGroups(s: Sys, step: Step)
    requires WholeGroups(s) && Enabled(s, step) && step.EndWrite? && Exclusive(Do(s, step))
    ensures WholeGroups(Do(s, step))
  {
    hide Exclusive, Events, Flatten, Records;
    assert s.unwind == Some(step.t) && Underway(s) == Records(PhaseOf(s, step.t).task)[..PhaseOf(s, step.t).k] by {
      WriterHolds(s, step.t);
    }
    var Writing(task, k) := PhaseOf(s, step.t);
    EventsSnoc(s.log, Records(task)[k]);
    RecordsAreEvents(task, k);
    assert Records(task)[..k + 1] == Records(task)[..k] + [Records(task)[k]];
  }

  lemma UnlockKeepsGroups(s: Sys, step: Step)
    requires WholeGroups(s) && Enabled(s, step) && step.UnlockUnwind? && Exclusive(Do(s, step))
    ensures WholeGroups(Do(s, step))
  {
    assert s.unwind == Some(step.t) <==> InUnwind(PhaseOf(s, step.t));
    var p := PhaseOf(s, step.t);
    FlattenSnoc(s.done, p.task);
    assert Records(p.task)[..p.k] == Records(p.task);
  }

  lemma LockKeepsGroups(s: Sys, step: Step)
    requires WholeGroups(s) && Enabled(s, step) && step.LockUnwind? && Exclusive(Do(s, step))
    ensures WholeGroups(Do(s, step))
  {
    assert Underway(s) == [] && Underway(Do(s, step)) == [];
  }

  lemma StepKeepsGroups(s: Sys, step: Step)
    requires WholeGroups(s) && Enabled(s, step)
    ensures WholeGroups(Do(s, step))
  {
    StepKeepsExclusive(s, step);
    if step.EndWrite? {
      WriteKeepsGroups(s, step);
    } else if step.UnlockUnwind? {
      UnlockKeepsGroups(s, step);
    } else if step.LockUnwind? {
      LockKeepsGroups(s, step);
    } else {
      UnderwayStays(s, step);
      if step.EndModule? {
        EventsSnoc(s.log, ModuleRecord(step.base));
      }
    }
  }

  lemma {:induction false} RecordsAreEvents(task: Task, k: nat)
    requires k < |Records(task)|
    ensures !Records(task)[k].ModuleRecord?
    ensures k > 0 ==> Records(task)[k] == FrameRecord(task.frames[k - 1])
  {
    if k > 0 {
      FrameRecordAt(task.frames, k - 1);
    }
  }

  lemma {:induction false} FrameRecordAt(frames: seq<Addr>, k: nat)
    requires k < |frames|
    ensures FrameRecords(frames)[k] == FrameRecord(frames[k])
  {
    if k < |frames| - 1 {
      FrameRecordAt(frames[..|frames| - 1], k);
    }
  }

  // ------------------------------------------------------------ alternation

  function AddrOf(p: Phase): Addr
  {
    match p
    case Idle => NULL
    case Allocated(_, a) => a
    case Releasing(a) => a
    case _ => p.task.addr
  }

  // The alloc (true) and free (false) events of one address.
  function About(log: seq<Record>, a: Addr): (r: seq<bool>)
  {
    if log == [] then []
    else
      var last := log[|log| - 1];
      About(log[..|log| - 1], a) +
      if last.AllocEvent? && last.addr == a then [true]
      else if last.FreeEvent? && last.addr == a then [false]
      else []
  }

  // Alloc and free in turn, alloc first.
  ghost predicate Alternates(events: seq<bool>)
  {
    forall i :: 0 <= i < |events| ==> (events[i] <==> i % 2 == 0)
  }

  // The log should say that a is allocated.
  ghost predicate LoggedLive(s: Sys, a: Addr)
  {
    a in s.holder &&
    match s.holder[a]
    case Program => true
    case Thread(t) =>
      match PhaseOf(s, t)
      case Entered(task) => task.hook == FreeHook
      case MapWriting(task) => false
      case Locked(task, k) => (task.hook == FreeHook <==> k == 0)
      case Writing(task, k) => (task.hook == FreeHook <==> k == 0)
      case Tracked(task) => task.hook != FreeHook
      case _ => false
  }

  // Every live address has one holder.
  ghost predicate Held(s: Sys)
  {
    && s.live == s.holder.Keys && NULL !in s.live
    && (forall a :: a in s.holder && s.holder[a].Program? ==> a in s.owned)
    && (forall a :: a in s.holder && s.holder[a].Thread? ==> AddrOf(PhaseOf(s, s.holder[a].t)) == a)
    && (forall a :: a in s.owned ==> a in s.holder && s.holder[a] == Program)
    && (forall t: Tid :: AddrOf(PhaseOf(s, t)) != NULL ==>
        AddrOf(PhaseOf(s, t)) in s.holder && s.holder[AddrOf(PhaseOf(s, t))] == Thread(t))
  }

  ghost predicate AccountOf(s: Sys, a: Addr)
  {
    Alternates(About(s.log, a)) && (|About(s.log, a)| % 2 == 1 <==> LoggedLive(s, a))
  }

  ghost predicate Accounted(s: Sys)
  {
    forall a: Addr :: a != NULL ==> AccountOf(s, a)
  }

  // What a step does to the addresses.
  lemma AddressesMove(s: Sys, step: Step)
    requires Exclusive(s) && Held(s) && Enabled(s, step)
    ensures var s' := Do(s, step); var a := AddrOf(PhaseOf(s, step.t)); var a' := AddrOf(PhaseOf(s', step.t));
      && (a' == a ==> s'.holder == s.holder && s'.owned == s.owned && s'.live == s.live)
      && (a' != a && a' == NULL && !step.LibcFree? ==>
          (s'.holder == s.holder[a := Program] && s'.owned == s.owned + {a} && s'.live == s.live))
      && (step.LibcFree? ==> s'.holder == s.holder - {a} && s'.owned == s.owned && s'.live == s.live - {a} && a' == NULL)
      && (a' != a && a' != NULL ==>
          (a == NULL && s'.holder == s.holder[a' := Thread(step.t)] && s'.owned == s.owned - {a'}
           && s'.live == s.live + {a'} && (a' in s.owned || a' !in s.live)))
  {
    CallsAreTracked(s, step.t);
  }

  lemma StepKeepsHeld(s: Sys, step: Step)
    requires Exclusive(s) && Held(s) && Enabled(s, step)
    ensures Held(Do(s, step))
  {
    hide Exclusive, PhaseOf, Do;
    OthersStay(s, step);
    AddressesMove(s, step);
  }

  lemma AboutSnoc(log: seq<Record>, r: Record, a: Addr)
    ensures About(log + [r], a) == About(log, a) +
      if r.AllocEvent? && r.addr == a then [true] else if r.FreeEvent? && r.addr == a then [false] else []
  {
    assert (log + [r])[..|log|] == log;
  }

  lemma StandsInRange(s: Sys, t: Tid)
    requires Exclusive(s)
    ensures InRange(PhaseOf(s, t))
  {
  }

  // Only writing an event changes what the log should say.
  lemma LoggedLiveStays(s: Sys, step: Step, a: Addr)
    requires Exclusive(s) && Held(s) && Enabled(s, step) && a != NULL && !step.EndWrite?
    ensures LoggedLive(Do(s, step), a) <==> LoggedLive(s, a)
  {
    hide Exclusive, Records, MutexesHeld;
    OthersStay(s, step);
    CallsAreTracked(s, step.t);
    StandsInRange(s, step.t);
  }

  lemma WriteKeepsAccount(s: Sys, step: Step, a: Addr)
    requires Exclusive(s) && Held(s) && Enabled(s, step) && a != NULL && step.EndWrite? && AccountOf(s, a)
    ensures AccountOf(Do(s, step), a)
  {
    OthersStay(s, step);
    var Writing(task, k) := PhaseOf(s, step.t);
    AboutSnoc(s.log, Records(task)[k], a);
    RecordsAreEvents(task, k);
  }

  lemma StepKeepsAccount(s: Sys, step: Step, a: Addr)
    requires Exclusive(s) && Held(s) && Enabled(s, step) && a != NULL && AccountOf(s, a)
    ensures AccountOf(Do(s, step), a)
  {
    if step.EndWrite? {
      WriteKeepsAccount(s, step, a);
    } else {
      LoggedLiveStays(s, step, a);
      if step.EndModule? {
        AboutSnoc(s.log, ModuleRecord(step.base), a);
      }
    }
  }

  ghost predicate Inv(s: Sys)
  {
    WholeGroups(s) && Held(s) && Accounted(s)
  }

  lemma StartInv()
    ensures Inv(Start())
  {
  }

  lemma StepKeepsInv(s: Sys, step: Step)
    requires Inv(s) && Enabled(s, step)
    ensures Inv(Do(s, step))
  {
    StepKeepsGroups(s, step);
    StepKeepsHeld(s, step);
    forall a: Addr | a != NULL ensures AccountOf(Do(s, step), a) {
      StepKeepsAccount(s, step, a);
    }
  }

  lemma {:induction false} BehaviourKeepsInv(s: Sys, steps: seq<Step>)
    requires Inv(s) && Behaviour(s, steps)
    ensures Inv(After(s, steps))
    decreases |steps|
  {
    if steps != [] {
      StepKeepsInv(s, steps[0]);
      BehaviourKeepsInv(Do(s, steps[0]), steps[1..]);
    }
  }

  // In every interleaving the log is made of whole groups, save the one being written.
  lemma LogIsGrouped(steps: seq<Step>)
    requires Behaviour(Start(), steps)
    ensures var s := After(Start(), steps);
      && Exclusive(s)
      && Events(s.log) == Flatten(s.done) + Underway(s)
      && (s.unwind.None? ==> Events(s.log) == Flatten(s.done))
  {
    StartInv();
    BehaviourKeepsInv(Start(), steps);
    var s := After(Start(), steps);
    assert Flatten(s.done) + [] == Flatten(s.done);
  }

  // In every interleaving the events of an address alternate, even if the allocator
  // hands it out again and again.
  lemma EventsAlternate(steps: seq<Step>, a: Addr)
    requires Behaviour(Start(), steps) && a != NULL
    ensures var s := After(Start(), steps); Alternates(About(s.log, a))
  {
    StartInv();
    BehaviourKeepsInv(Start(), steps);
    assert AccountOf(After(Start(), steps), a);
  }

  // When no thread is inside a hook, the addresses that the log leaves allocated are
  // exactly those the program still owns.
  lemma OutstandingIsOwned(steps: seq<Step>, a: Addr)
    requires Behaviour(Start(), steps) && a != NULL
    requires forall t: Tid :: PhaseOf(After(Start(), steps), t) == Idle
    ensures var s := After(Start(), steps);
      (|About(s.log, a)| % 2 == 1 <==> a in s.owned) && (a in s.owned <==> a in s.live)
  {
    StartInv();
    BehaviourKeepsInv(Start(), steps);
    assert AccountOf(After(Start(), steps), a);
  }

  // In every reachable state of a run: no deadlock on the two mutexes.
  lemma RunIsNeverStuck(steps: seq<Step>, t: Tid)
    requires Behaviour(Start(), steps) && PhaseOf(After(Start(), steps), t) != Idle
    ensures var s := After(Start(), steps); exists step :: Enabled(s, step) && PhaseOf(s, step.t) != Idle
  {
    StartInv();
    BehaviourKeepsInv(Start(), steps);
    NeverStuck(After(Start(), steps), t);
  }
}
