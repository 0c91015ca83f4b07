/**
  The frontend's half of a backend reload: connection handlers forward packets under a mutex and a
  busy count, a shutdown keeps the mutex until the next backend is connected, and the next backend
  asks whether its saved state still fits the open connections.
 */
module Reload {
  datatype Call = New | Packet | Close

  /** Where a connection handler is; the three `Want` states and `Starting` need the mutex next. */
  datatype Pc = Starting | Reading | WantPacket | WantClose | WantDrop | Calling(call: Call) | Done

  datatype Mutex = Free | ByHandler(h: nat) | ByBackend | ByFrontend

  /** `Boot` and `Window` wait for a backend; `Draining` waits for the busy count. */
  datatype Phase = Boot | Active | Draining | Window

  /**
    `table` holds the open connections, and `asking` the identifiers of backends that found the
    mutex held and whose state is still to be compared. Each backend with other state starts a sweep
    that closes the connections one by one; `sweeps` lists what each of them has still to close.
    `snapshot` is the table at the last shutdown.
   */
  datatype World = World(
    integrated: bool, handlers: map<nat, Pc>, table: set<nat>, mutex: Mutex, busy: int,
    uuid: string, phase: Phase, asking: multiset<string>, sweeps: seq<set<nat>>, snapshot: set<nat>)

  datatype Event =
    | Accept(h: nat)
    | Acquire(h: nat)
    | Release(h: nat)
    | Return(h: nat, ok: bool)
    | Read(h: nat, more: bool)
    | Borrow
    | GiveBack
    | BeginShutdown
    | EndShutdown(newId: string)
    | BeginVerify(asked: string)
    | EndVerify(asked: string)
    | Sweep(k: nat, h: nat)
    | Unlock

  function Start(integrated: bool): World {
    World(integrated, map[], {}, ByFrontend, 0, "", Boot, multiset{}, [], {})
  }

  predicate NeedsMutex(pc: Pc) {
    pc == Starting || pc == WantPacket || pc == WantClose || pc == WantDrop
  }

  predicate Enabled(w: World, e: Event) {
    match e
    case Accept(h) => h !in w.handlers
    case Acquire(h) => h in w.handlers && NeedsMutex(w.handlers[h]) && w.mutex == Free
    case Release(h) => w.mutex == ByHandler(h) && h in w.handlers && NeedsMutex(w.handlers[h])
    case Return(h, _) => h in w.handlers && w.handlers[h].Calling?
    case Read(h, _) => h in w.handlers && w.handlers[h] == Reading
    case Borrow => w.mutex == Free
    case GiveBack => w.mutex == ByBackend
    case BeginShutdown => w.mutex == Free
    case EndShutdown(newId) => w.phase == Draining && w.busy == 0 && newId != ""
    case BeginVerify(_) => true
    case EndVerify(asked) => asked in w.asking
    case Sweep(k, h) => k < |w.sweeps| && h in w.sweeps[k]
    case Unlock => w.phase == Boot || w.phase == Window
  }

  function At(w: World, h: nat, pc: Pc): World {
    w.(handlers := w.handlers[h := pc])
  }

  /** What a handler does while it holds the mutex. */
  function Released(w: World, h: nat): World
    requires Enabled(w, Release(h))
  {
    var f := w.(mutex := Free);
    match w.handlers[h]
    case Starting => At(f.(busy := f.busy + 1, table := f.table + {h}), h, Calling(New))
    case WantPacket => At(f.(busy := f.busy + 1), h, Calling(Packet))
    case WantClose =>
      if h !in f.table then At(f, h, Done)
      else At(f.(busy := f.busy + 1, table := f.table - {h}), h, Calling(Close))
    case _ => At(f.(table := f.table - {h}), h, Done)
  }

  function AfterCall(call: Call, ok: bool): Pc {
    match call
    case New => if ok then Reading else WantDrop
    case Packet => if ok then Reading else WantClose
    case Close => Done
  }

  datatype Reply = Busy | KeepNothing | ReloadState

  /** The answer once the mutex was found held; it need not be held any more. */
  function Answer(w: World, asked: string): Reply {
    if asked != w.uuid || asked == "" then KeepNothing else ReloadState
  }

  function Step(w: World, e: Event): World
    requires Enabled(w, e)
  {
    match e
    case Accept(h) => At(w, h, Starting)
    case Acquire(h) => w.(mutex := ByHandler(h))
    case Release(h) => Released(w, h)
    case Return(h, ok) => At(w.(busy := w.busy - 1), h, AfterCall(w.handlers[h].call, ok))
    case Read(h, more) => At(w, h, if more then WantPacket else WantClose)
    case Borrow => w.(mutex := ByBackend)
    case GiveBack => w.(mutex := Free)
    case BeginShutdown => w.(mutex := ByFrontend, phase := Draining)
    case EndShutdown(newId) =>
      w.(uuid := if w.integrated then w.uuid else newId, phase := Window, snapshot := w.table)
    case BeginVerify(asked) => if w.mutex == Free then w else w.(asking := w.asking + multiset{asked})
    case EndVerify(asked) =>
      var v := w.(asking := w.asking - multiset{asked});
      if asked != w.uuid then v.(sweeps := w.sweeps + [w.table]) else v
    case Sweep(k, h) => w.(table := w.table - {h}, sweeps := w.sweeps[k := w.sweeps[k] - {h}])
    case Unlock => w.(mutex := Free, phase := Active)
  }

  predicate Possible(w: World, es: seq<Event>)
    decreases |es|
  {
    es == [] || (Enabled(w, es[0]) && Possible(Step(w, es[0]), es[1..]))
  }

  function After(w: World, es: seq<Event>): World
    requires Possible(w, es)
    decreases |es|
  {
    if es == [] then w else After(Step(w, es[0]), es[1..])
  }

  // ----- Invariant -----

  function Callers(handlers: map<nat, Pc>): set<nat> {
    set h | h in handlers && handlers[h].Calling?
  }

  ghost predicate Inv(w: World) {
    && (w.mutex == ByFrontend <==> w.phase != Active)
    && (w.mutex.ByHandler? ==> w.mutex.h in w.handlers && NeedsMutex(w.handlers[w.mutex.h]))
    && w.busy == |Callers(w.handlers)|
    && (w.phase == Boot || w.phase == Window ==> w.busy == 0)
    && (w.phase == Boot ==> w.table == {})
    && (w.phase == Window ==> w.table <= w.snapshot)
    && (w.integrated ==> w.uuid == "")
  }

  lemma {:induction false} CallersMore(handlers: map<nat, Pc>, h: nat, pc: Pc)
    requires h in handlers && !handlers[h].Calling? && pc.Calling?
    ensures |Callers(handlers[h := pc])| == |Callers(handlers)| + 1
  {
    assert Callers(handlers[h := pc]) == Callers(handlers) + {h};
  }

  lemma {:induction false} CallersFewer(handlers: map<nat, Pc>, h: nat, pc: Pc)
    requires h in handlers && handlers[h].Calling? && !pc.Calling?
    ensures |Callers(handlers[h := pc])| == |Callers(handlers)| - 1
  {
    assert Callers(handlers[h := pc]) == Callers(handlers) - {h};
    assert h in Callers(handlers);
  }

  lemma {:induction false} CallersSame(handlers: map<nat, Pc>, h: nat, pc: Pc)
    requires if h in handlers then handlers[h].Calling? == pc.Calling? else !pc.Calling?
    ensures Callers(handlers[h := pc]) == Callers(handlers)
  {
  }

  lemma {:induction false} StepCounts(w: World, e: Event)
    requires Inv(w) && Enabled(w, e)
    ensures Step(w, e).busy == |Callers(Step(w, e).handlers)|
    ensures e.Return? ==> w.busy > 0
  {
    if e.Return? {
      CallersFewer(w.handlers, e.h, AfterCall(w.handlers[e.h].call, e.ok));
      assert e.h in Callers(w.handlers);
    } else if e.Release? {
      var pc := Released(w, e.h).handlers[e.h];
      assert Released(w, e.h).handlers == w.handlers[e.h := pc];
      if pc.Calling? {
        CallersMore(w.handlers, e.h, pc);
      } else {
        CallersSame(w.handlers, e.h, pc);
      }
    } else if e.Accept? || e.Read? {
      CallersSame(w.handlers, e.h, Step(w, e).handlers[e.h]);
    }
  }

  lemma {:induction false} StepKeeps(w: World, e: Event)
    requires Inv(w) && Enabled(w, e)
    ensures Inv(Step(w, e))
  {
    StepCounts(w, e);
  }

  lemma {:induction false} RunKeeps(w: World, es: seq<Event>)
    requires Inv(w) && Possible(w, es)
    ensures Inv(After(w, es))
    decreases |es|
  {
    if es != [] {
      StepKeeps(w, es[0]);
      RunKeeps(Step(w, es[0]), es[1..]);
    }
  }

  lemma {:induction false} StartKeeps(integrated: bool)
    ensures Inv(Start(integrated))
  {
    assert Callers(Start(integrated).handlers) == {};
  }

  // ----- The window -----

  ghost predicate NoCalls(w: World) {
    forall h {:trigger w.handlers[h]} :: h in w.handlers ==> !w.handlers[h].Calling?
  }

  lemma {:induction false} WindowQuiet(w: World)
    requires Inv(w) && w.phase == Window
    ensures NoCalls(w)
  {
    forall h | h in w.handlers
      ensures !w.handlers[h].Calling?
    {
      assert h !in Callers(w.handlers);
    }
  }

  /** In every run, no handler has a call outstanding between the end of a shutdown and the unlock. */
  lemma {:induction false} RunSafety(integrated: bool, es: seq<Event>)
    requires Possible(Start(integrated), es) && After(Start(integrated), es).phase == Window
    ensures var w := After(Start(integrated), es);
            NoCalls(w) && w.mutex == ByFrontend && w.table <= w.snapshot
  {
    StartKeeps(integrated);
    RunKeeps(Start(integrated), es);
    WindowQuiet(After(Start(integrated), es));
  }

  lemma {:induction false} WindowStep(w: World, e: Event)
    requires Inv(w) && w.phase == Window && Enabled(w, e) && e != Unlock
    ensures var v := Step(w, e);
            && v.phase == Window && v.snapshot == w.snapshot && v.uuid == w.uuid
            && (e.Sweep? || v.table == w.table)
            && (e.Sweep? || v.sweeps == if e.EndVerify? && e.asked != w.uuid then w.sweeps + [w.table] else w.sweeps)
  {
    WindowQuiet(w);
  }

  /** Only backends with this identifier have their state compared. */
  predicate AsksOnly(es: seq<Event>, uuid: string) {
    forall k :: 0 <= k < |es| && es[k].EndVerify? ==> es[k].asked == uuid
  }

  lemma {:induction false} AsksFirst(es: seq<Event>, uuid: string)
    requires es != []
    ensures AsksOnly(es, uuid) <==> (es[0].EndVerify? ==> es[0].asked == uuid) && AsksOnly(es[1..], uuid)
  {
    if AsksOnly(es[1..], uuid) {
      assert forall k :: 1 <= k < |es| ==> es[k] == es[1..][k - 1];
    }
  }

  /** What a sweep has still to close are at least those of `todo` that are still in the table. */
  predicate StillToClose(w: World, k: nat, todo: set<nat>)
    requires k < |w.sweeps|
  {
    todo * w.table <= w.sweeps[k] <= todo
  }

  /** How the sweeps of `v` go on those of `w`: new ones were started on some table in between. */
  ghost predicate SweepsGoOn(w: World, v: World) {
    && v.table <= w.table && |w.sweeps| <= |v.sweeps|
    && (forall k :: 0 <= k < |w.sweeps| ==> StillToClose(v, k, w.sweeps[k]))
    && (forall k :: |w.sweeps| <= k < |v.sweeps| ==> v.table <= v.sweeps[k])
  }

  lemma {:induction false} SweepsStep(w: World, e: Event)
    requires Inv(w) && w.phase == Window && Enabled(w, e) && e != Unlock
    ensures SweepsGoOn(w, Step(w, e))
    ensures |Step(w, e).sweeps| == |w.sweeps| <==> !(e.EndVerify? && e.asked != w.uuid)
  {
    WindowStep(w, e);
    var v := Step(w, e);
    if e.Sweep? {
      forall k | 0 <= k < |w.sweeps|
        ensures StillToClose(v, k, w.sweeps[k])
      {
        assert k == e.k || v.sweeps[k] == w.sweeps[k];
      }
    }
  }

  lemma {:induction false} SweepsOnward(w: World, mid: World, v: World)
    requires SweepsGoOn(w, mid) && SweepsGoOn(mid, v)
    ensures SweepsGoOn(w, v)
  {
    forall k | 0 <= k < |w.sweeps|
      ensures StillToClose(v, k, w.sweeps[k])
    {
      assert StillToClose(mid, k, w.sweeps[k]) && StillToClose(v, k, mid.sweeps[k]);
    }
    forall k | |w.sweeps| <= k < |v.sweeps|
      ensures v.table <= v.sweeps[k]
    {
      assert k < |mid.sweeps| ==> StillToClose(v, k, mid.sweeps[k]);
    }
  }

  /**
    Until the unlock no call starts either, no connection is entered, and a sweep starts exactly when
    a backend with another identifier is compared.
   */
  lemma {:induction false} WindowHolds(w: World, es: seq<Event>)
    requires Inv(w) && w.phase == Window && Possible(w, es) && Unlock !in es
    ensures var v := After(w, es);
            && Inv(v) && v.phase == Window && NoCalls(v) && v.snapshot == w.snapshot && v.uuid == w.uuid
            && SweepsGoOn(w, v) && (|v.sweeps| == |w.sweeps| <==> AsksOnly(es, w.uuid))
    decreases |es|
  {
    if es == [] {
      WindowQuiet(w);
    } else {
      var mid := Step(w, es[0]);
      StepKeeps(w, es[0]);
      WindowStep(w, es[0]);
      SweepsStep(w, es[0]);
      AsksFirst(es, w.uuid);
      WindowHolds(mid, es[1..]);
      SweepsOnward(w, mid, After(w, es));
    }
  }

  /** No sweep under way is still to close a connection of the table. */
  ghost predicate Spared(w: World) {
    forall k :: 0 <= k < |w.sweeps| ==> w.sweeps[k] !! w.table
  }

  ghost predicate SweepsDone(w: World) {
    forall k :: 0 <= k < |w.sweeps| ==> w.sweeps[k] == {}
  }

  lemma {:induction false} SparedStays(w: World, es: seq<Event>)
    requires Inv(w) && w.phase == Window && Possible(w, es) && Unlock !in es && AsksOnly(es, w.uuid) && Spared(w)
    ensures After(w, es).table == w.table
    decreases |es|
  {
    if es != [] {
      var mid := Step(w, es[0]);
      StepKeeps(w, es[0]);
      WindowStep(w, es[0]);
      AsksFirst(es, w.uuid);
      assert mid.table == w.table;
      SparedStays(mid, es[1..]);
    }
  }

  /** Once every sweep is done, the table is unchanged exactly when none had anything to close in it. */
  lemma {:induction false} SweptIff(w: World, es: seq<Event>)
    requires Inv(w) && w.phase == Window && Possible(w, es) && Unlock !in es && SweepsDone(After(w, es))
    ensures After(w, es).table == w.table <==> (AsksOnly(es, w.uuid) && Spared(w)) || w.table == {}
  {
    var v := After(w, es);
    WindowHolds(w, es);
    if AsksOnly(es, w.uuid) && Spared(w) {
      SparedStays(w, es);
    } else if AsksOnly(es, w.uuid) {
      var k :| 0 <= k < |w.sweeps| && !(w.sweeps[k] !! w.table);
      var h :| h in w.sweeps[k] && h in w.table;
      assert StillToClose(v, k, w.sweeps[k]) && v.sweeps[k] == {};
      assert h !in w.sweeps[k] * v.table;
    } else {
      assert v.table <= v.sweeps[|w.sweeps|] == {};
    }
  }

  /**
    From a shutdown on, for as long as the window lasts, the table is the one of the shutdown if only
    backends with its identifier were compared and no older sweep was still to close any of it. Once
    every sweep is done it is so exactly then, or when there was nothing to close.
   */
  lemma {:induction false} UnchangedIff(integrated: bool, before: seq<Event>, newId: string, es: seq<Event>)
    requires Possible(Start(integrated), before) && Enabled(After(Start(integrated), before), EndShutdown(newId))
    requires Possible(Step(After(Start(integrated), before), EndShutdown(newId)), es) && Unlock !in es
    ensures var w := Step(After(Start(integrated), before), EndShutdown(newId));
            && w.snapshot == w.table == After(Start(integrated), before).table
            && (AsksOnly(es, w.uuid) && Spared(w) ==> After(w, es).table == w.table)
            && (SweepsDone(After(w, es)) ==> (After(w, es).table == w.table <==> (AsksOnly(es, w.uuid) && Spared(w)) || w.table == {}))
  {
    StartKeeps(integrated);
    RunKeeps(Start(integrated), before);
    var w := Step(After(Start(integrated), before), EndShutdown(newId));
    StepKeeps(After(Start(integrated), before), EndShutdown(newId));
    if AsksOnly(es, w.uuid) && Spared(w) {
      SparedStays(w, es);
    }
    if SweepsDone(After(w, es)) {
      SweptIff(w, es);
    }
  }

  /** A frontend that runs its own backend never lets it reload. */
  lemma {:induction false} IntegratedNeverReloads(es: seq<Event>, asked: string)
    requires Possible(Start(true), es)
    ensures Answer(After(Start(true), es), asked) != ReloadState
  {
    StartKeeps(true);
    RunKeeps(Start(true), es);
    KeepsMode(Start(true), es);
  }

  lemma {:induction false} KeepsMode(w: World, es: seq<Event>)
    requires Possible(w, es)
    ensures After(w, es).integrated == w.integrated
    decreases |es|
  {
    if es != [] { KeepsMode(Step(w, es[0]), es[1..]); }
  }

  // ----- Where an answer to reload means nothing -----

  ghost predicate Reachable(w: World) {
    exists es :: Possible(Start(w.integrated), es) && After(Start(w.integrated), es) == w
  }

  lemma {:induction false} AfterAppend(w: World, es: seq<Event>, e: Event)
    requires Possible(w, es) && Enabled(After(w, es), e)
    ensures Possible(w, es + [e]) && After(w, es + [e]) == Step(After(w, es), e)
    decreases |es|
  {
    if es == [] {
      assert (es + [e])[1..] == [];
    } else {
      AfterAppend(Step(w, es[0]), es[1..], e);
      assert (es + [e])[1..] == es[1..] + [e];
    }
  }

  lemma {:induction false} Next(w: World, e: Event) returns (w': World)
    requires Reachable(w) && Enabled(w, e)
    ensures w' == Step(w, e) && Reachable(w')
  {
    w' := Step(w, e);
    var es :| Possible(Start(w.integrated), es) && After(Start(w.integrated), es) == w;
    AfterAppend(Start(w.integrated), es, e);
  }

  /** One connection is open and idle. */
  lemma {:induction false} OpenConnection(h: nat) returns (w: World)
    ensures Reachable(w) && !w.integrated && w.phase == Active && w.mutex == Free && w.busy == 0
    ensures w.table == {h} && w.snapshot == {} && w.uuid == "" && w.handlers == map[h := Reading] && w.sweeps == []
  {
    w := Start(false);
    assert Possible(w, []);
    w := Next(w, Unlock);
    w := Next(w, Accept(h));
    w := Next(w, Acquire(h));
    w := Next(w, Release(h));
    w := Next(w, Return(h, true));
  }

  /** A shutdown with one connection open. */
  lemma {:induction false} OpenWindow(id: string) returns (w: World)
    requires id != ""
    ensures Reachable(w) && !w.integrated && w.phase == Window && w.mutex == ByFrontend && w.uuid == id && w.sweeps == []
    ensures w.table == w.snapshot == {0} && w.busy == 0 && w.handlers == map[0 := Reading]
  {
    w := OpenConnection(0);
    w := Next(w, BeginShutdown);
    w := Next(w, EndShutdown(id));
  }

  /** After one backend with other state, the right one is told to reload although the table is gone. */
  lemma {:induction false} ReloadAfterReset(asked: string, other: string) returns (w: World)
    requires asked != "" && asked != other
    ensures Reachable(w) && w.phase == Window && Enabled(w, EndVerify(asked)) && Answer(w, asked) == ReloadState
    ensures w.table == {} && w.snapshot == {0}
  {
    w := OpenWindow(asked);
    w := Next(w, BeginVerify(other));
    w := Next(w, EndVerify(other));
    w := Next(w, Sweep(0, 0));
    w := Next(w, BeginVerify(asked));
  }

  /** The connection closes after the unlock. */
  lemma {:induction false} ClosedSince(asked: string) returns (w: World)
    requires asked != ""
    ensures Reachable(w) && w.phase == Active && w.mutex == Free && w.uuid == asked && w.table == {} && w.snapshot == {0}
  {
    w := OpenWindow(asked);
    w := Next(w, Unlock);
    w := Next(w, Read(0, false));
    w := Next(w, Acquire(0));
    w := Next(w, Release(0));
  }

  /** Outside the window the old identifier still matches while anyone else holds the mutex. */
  lemma {:induction false} ReloadOutsideWindow(asked: string) returns (w: World)
    requires asked != ""
    ensures Reachable(w) && w.phase == Active && Enabled(w, EndVerify(asked)) && Answer(w, asked) == ReloadState
    ensures w.table == {} && w.snapshot == {0}
  {
    w := ClosedSince(asked);
    w := Next(w, Borrow);
    w := Next(w, BeginVerify(asked));
  }

  // ----- The implementation -----

  class Frontend {
    const integrated: bool
    var handlers: map<nat, Pc>
    var connections: set<nat>
    var rpcMutex: Mutex
    var rpcBusyCount: int
    var frontendUuid: string
    var phase: Phase
    ghost var asking: multiset<string>
    ghost var sweeps: seq<set<nat>>
    ghost var snapshot: set<nat>

    ghost function State(): World
      reads this
    {
      World(integrated, handlers, connections, rpcMutex, rpcBusyCount, frontendUuid, phase, asking, sweeps, snapshot)
    }

    ghost predicate Valid()
      reads this
    {
      Inv(State())
    }

    constructor (integrated: bool)
      ensures Valid() && State() == Start(integrated)
    {
      this.integrated, handlers, connections, rpcMutex := integrated, map[], {}, ByFrontend;
      rpcBusyCount, frontendUuid, phase, asking, sweeps, snapshot := 0, "", Boot, multiset{}, [], {};
      new;
      StartKeeps(integrated);
    }

    /** The stretch between lock and unlock that precedes a call, or drops a connection. */
    method Release(h: nat)
      requires Valid() && Enabled(State(), Event.Release(h))
      modifies this
      ensures Valid() && State() == Step(old(State()), Event.Release(h))
    {
      StepKeeps(State(), Event.Release(h));
      if handlers[h] == Starting {
        rpcBusyCount := rpcBusyCount + 1;
        connections := connections + {h};
        handlers := handlers[h := Calling(New)];
      } else if handlers[h] == WantPacket {
        rpcBusyCount := rpcBusyCount + 1;
        handlers := handlers[h := Calling(Packet)];
      } else if handlers[h] == WantClose && h in connections {
        rpcBusyCount := rpcBusyCount + 1;
        connections := connections - {h};
        handlers := handlers[h := Calling(Close)];
      } else {
        if handlers[h] == WantDrop {
          connections := connections - {h};
        }
        handlers := handlers[h := Done];
      }
      rpcMutex := Free;
    }

    /** The backend answers a call. */
    method Returned(h: nat, ok: bool)
      requires Valid() && Enabled(State(), Return(h, ok))
      modifies this
      ensures Valid() && State() == Step(old(State()), Return(h, ok))
    {
      StepKeeps(State(), Return(h, ok));
      rpcBusyCount := rpcBusyCount - 1;
      handlers := handlers[h := AfterCall(handlers[h].call, ok)];
    }

    /** The end of `ShutdownBackend`, once the busy count has come down. */
    method ShutdownBackend(newId: string) returns (uuid: string)
      requires Valid() && Enabled(State(), EndShutdown(newId))
      modifies this
      ensures Valid() && State() == Step(old(State()), EndShutdown(newId))
      ensures uuid == if integrated then "" else newId
    {
      StepKeeps(State(), EndShutdown(newId));
      if !integrated {
        frontendUuid := newId;
        uuid := frontendUuid;
      } else {
        uuid := "";
      }
      phase, snapshot := Window, connections;
    }

    /** The test with which a backend's question starts: with the mutex free it is answered at once. */
    method FindsBusy(uuid: string) returns (free: bool)
      requires Valid()
      modifies this
      ensures Valid() && State() == Step(old(State()), BeginVerify(uuid)) && free == (old(rpcMutex) == Free)
    {
      StepKeeps(State(), BeginVerify(uuid));
      free := rpcMutex == Free;
      if !free {
        asking := asking + multiset{uuid};
      }
    }

    /**
      The comparison that follows, with nothing held, whatever happened in between. For other state it
      starts sweep `k` over the connections of that moment.
     */
    method VerifyState(uuid: string) returns (r: Reply, ghost k: nat)
      requires Valid() && Enabled(State(), EndVerify(uuid))
      modifies this
      ensures Valid() && State() == Step(old(State()), EndVerify(uuid)) && r == Answer(old(State()), uuid)
      ensures uuid != frontendUuid ==> k < |sweeps| && sweeps[k] == connections
    {
      StepKeeps(State(), EndVerify(uuid));
      asking := asking - multiset{uuid};
      k := |sweeps|;
      if uuid != frontendUuid {
        sweeps := sweeps + [connections];
        return KeepNothing, k;
      }
      r := if uuid != "" then ReloadState else KeepNothing;
    }

    /** One turn of a sweep; other steps may come between two turns. */
    method CloseNext(index: nat, ghost k: nat)
      requires Valid() && Enabled(State(), Sweep(k, index))
      modifies `connections, `sweeps
      ensures Valid() && State() == Step(old(State()), Sweep(k, index))
    {
      StepKeeps(State(), Sweep(k, index));
      connections := connections - {index};
      sweeps := sweeps[k := sweeps[k] - {index}];
    }

    /** A whole sweep with no other step in between. */
    method CloseAll(ghost k: nat)
      requires Valid() && k < |sweeps| && connections <= sweeps[k]
      modifies `connections, `sweeps
      ensures Valid() && connections == {}
    {
      while connections != {}
        invariant Valid() && k < |sweeps| && connections <= sweeps[k]
        decreases |connections|
      {
        var index :| index in connections;
        CloseNext(index, k);
      }
    }

    /** The last step of `waitForBackend`. */
    method Connected()
      requires Valid() && Enabled(State(), Unlock)
      modifies this
      ensures Valid() && State() == Step(old(State()), Unlock)
    {
      StepKeeps(State(), Unlock);
      rpcMutex, phase := Free, Active;
    }
  }
}
