/**
  Logins to the connection manager as steps between two holds of the shared mutex. Steps of
  different connections interleave freely; each connection takes its own in order.
 */
module GpcmLogin {
  import opened Bytes

  const MAX_POLLS: nat := 20

  /** Where a connection is between steps; `Polling` sleeps with the mutex released. */
  datatype Pc = Idle | Fetched | Polling(i: nat) | Registered | Closing

  datatype Conn = Conn(pc: Pc, loggedIn: bool, profile: uint32)

  /** `table` is the shared map from profile to the session logged in to it. */
  datatype World = World(conns: map<nat, Conn>, table: map<uint32, nat>)

  datatype Event =
    | Connect(c: nat)
    | Fetch(c: nat, p: uint32, found: bool)
    | Lookup(c: nat)
    | Poll(c: nat)
    | Finish(c: nat)
    | Logout(c: nat)
    | CloseStart(c: nat)
    | CloseFinish(c: nat)

  const START := World(map[], map[])

  predicate Enabled(w: World, e: Event) {
    if e.Connect? then e.c !in w.conns
    else e.c in w.conns && EnabledFor(w.conns[e.c], e)
  }

  predicate EnabledFor(k: Conn, e: Event)
    requires !e.Connect?
  {
    match e
    case Fetch(_, _, _) => k.pc == Idle && !k.loggedIn
    case Lookup(_) => k.pc == Fetched
    case Poll(_) => k.pc.Polling?
    case Finish(_) => k.pc == Registered
    case Logout(_) => k.pc == Idle
    case CloseStart(_) => k.pc == Idle
    case CloseFinish(_) => k.pc == Closing
  }

  function Put(w: World, c: nat, k: Conn): World {
    w.(conns := w.conns[c := k])
  }

  /** With the mutex held and no entry for the profile, the session becomes the entry. */
  function Register(w: World, c: nat): World
    requires c in w.conns
  {
    var k := w.conns[c];
    World(w.conns[c := k.(pc := Registered)], w.table[k.profile := c])
  }

  function Step(w: World, e: Event): World
    requires Enabled(w, e)
  {
    match e
    case Connect(c) => Put(w, c, Conn(Idle, false, 0))
    case Fetch(c, p, found) => Put(w, c, w.conns[c].(profile := p, pc := if found then Fetched else Idle))
    case Lookup(c) =>
      if w.conns[c].profile in w.table then Put(w, c, w.conns[c].(pc := Polling(0))) else Register(w, c)
    case Poll(c) =>
      var k := w.conns[c];
      if k.profile !in w.table then Register(w, c)
      else Put(w, c, k.(pc := if k.pc.i >= MAX_POLLS then Idle else Polling(k.pc.i + 1)))
    case Finish(c) => Put(w, c, w.conns[c].(pc := Idle, loggedIn := true))
    case Logout(c) => Put(w, c, w.conns[c].(loggedIn := false))
    case CloseStart(c) => Put(w, c, w.conns[c].(pc := Closing))
    case CloseFinish(c) =>
      var k := w.conns[c];
      var w' := Put(w, c, k.(pc := Idle, loggedIn := false));
      if k.loggedIn then w'.(table := w.table - {k.profile}) else w'
  }

  predicate Possible(w: World, es: seq<Event>)
    decreases |es|
  {
    es == [] || (Enabled(w, es[0]) && Possible(Step(w, es[0]), es[1..]))
  }

  function After(w: World, es: seq<Event>): World
    requires Possible(w, es)
    decreases |es|
  {
    if es == [] then w else After(Step(w, es[0]), es[1..])
  }

  lemma {:induction false} AfterAppend(w: World, es: seq<Event>, more: seq<Event>)
    requires Possible(w, es) && Possible(After(w, es), more)
    ensures Possible(w, es + more) && After(w, es + more) == After(After(w, es), more)
    decreases |es|
  {
    if es == [] {
      assert es + more == more;
    } else {
      AfterAppend(Step(w, es[0]), es[1..], more);
      assert (es + more)[0] == es[0] && (es + more)[1..] == es[1..] + more;
    }
  }

  // ----- Safety of every run -----

  /** `c` is logged in to `p`, or has just registered for it. */
  predicate Active(w: World, c: nat, p: uint32) {
    c in w.conns && w.conns[c].profile == p && (w.conns[c].loggedIn || w.conns[c].pc == Registered)
  }

  predicate Entry(w: World, c: nat, p: uint32) {
    p in w.table && w.table[p] == c
  }

  predicate ConnOk(k: Conn) {
    && (k.loggedIn ==> k.pc == Idle || k.pc == Closing)
    && (k.pc.Polling? ==> k.pc.i <= MAX_POLLS)
  }

  ghost predicate Inv(w: World) {
    && (forall c, p {:trigger Active(w, c, p)} :: Active(w, c, p) ==> Entry(w, c, p))
    && (forall c {:trigger w.conns[c]} :: c in w.conns ==> ConnOk(w.conns[c]))
  }

  lemma {:induction false} StepKeepsEntry(w: World, e: Event, c: nat, p: uint32)
    requires Inv(w) && Enabled(w, e) && Active(Step(w, e), c, p)
    ensures Entry(Step(w, e), c, p)
  {
    if c != e.c || !(e.Lookup? || e.Poll?) {
      assert Active(w, c, p);
      if e.CloseFinish? && c != e.c && w.conns[e.c].loggedIn {
        assert Active(w, e.c, w.conns[e.c].profile);
      }
    }
  }

  lemma {:induction false} StepKeeps(w: World, e: Event)
    requires Inv(w) && Enabled(w, e)
    ensures Inv(Step(w, e))
  {
    forall c, p {:trigger Active(Step(w, e), c, p)} | Active(Step(w, e), c, p)
      ensures Entry(Step(w, e), c, p)
    {
      StepKeepsEntry(w, e, c, p);
    }
  }

  lemma {:induction false} RunKeeps(w: World, es: seq<Event>)
    requires Inv(w) && Possible(w, es)
    ensures Inv(After(w, es))
    decreases |es|
  {
    if es != [] {
      StepKeeps(w, es[0]);
      RunKeeps(Step(w, es[0]), es[1..]);
    }
  }

  /**
    However logins, logouts and closes interleave, a logged-in session is the table entry of its
    own profile, and no two logged-in sessions share one.
   */
  lemma {:induction false} RunSafety(es: seq<Event>)
    requires Possible(START, es)
    ensures var w := After(START, es);
            && (forall c {:trigger w.conns[c]} :: c in w.conns && w.conns[c].loggedIn ==> Entry(w, c, w.conns[c].profile))
            && (forall c, d {:trigger w.conns[c], w.conns[d]} | c in w.conns && d in w.conns ::
                  w.conns[c].loggedIn && w.conns[d].loggedIn && w.conns[c].profile == w.conns[d].profile ==> c == d)
  {
    RunKeeps(START, es);
    var w := After(START, es);
    forall c | c in w.conns && w.conns[c].loggedIn
      ensures Entry(w, c, w.conns[c].profile)
    {
      assert Active(w, c, w.conns[c].profile);
    }
  }

  // ----- Who holds an entry -----

  /** A registration never overwrites: an entry goes away only when its own session closes. */
  lemma {:induction false} StepKeepsHolder(w: World, e: Event, c: nat, p: uint32)
    requires Inv(w) && Enabled(w, e) && Entry(w, c, p)
    ensures Entry(Step(w, e), c, p) || (e == CloseFinish(c) && Active(w, c, p) && p !in Step(w, e).table)
  {
    if e.CloseFinish? && w.conns[e.c].loggedIn {
      assert Active(w, e.c, w.conns[e.c].profile);
    }
  }

  /** An entry that passes to another session does so after its first session closed. */
  lemma {:induction false} HandoverNeedsClose(w: World, es: seq<Event>, c: nat, p: uint32)
    requires Inv(w) && Possible(w, es) && Entry(w, c, p) && !Entry(After(w, es), c, p)
    ensures CloseFinish(c) in es
    decreases |es|
  {
    if es == [] {
      assert false;
    } else {
      var w' := Step(w, es[0]);
      StepKeepsHolder(w, es[0], c, p);
      if Entry(w', c, p) {
        StepKeeps(w, es[0]);
        HandoverNeedsClose(w', es[1..], c, p);
      }
    }
  }

  // ----- Entries that outlive their login -----

  predicate Stale(w: World, c: nat, p: uint32) {
    Entry(w, c, p) && !Active(w, c, p)
  }

  lemma {:induction false} StepKeepsStale(w: World, e: Event, c: nat, p: uint32)
    requires Inv(w) && Enabled(w, e) && Stale(w, c, p)
    ensures Stale(Step(w, e), c, p)
  {
    StepKeepsHolder(w, e, c, p);
  }

  /** Once stale, an entry is there for good, and nobody can log in to its profile. */
  lemma {:induction false} StaleForever(w: World, es: seq<Event>, c: nat, p: uint32)
    requires Inv(w) && Possible(w, es) && Stale(w, c, p)
    ensures Stale(After(w, es), c, p)
    ensures forall d {:trigger Active(After(w, es), d, p)} :: !Active(After(w, es), d, p)
    decreases |es|
  {
    if es != [] {
      StepKeeps(w, es[0]);
      StepKeepsStale(w, es[0], c, p);
      StaleForever(Step(w, es[0]), es[1..], c, p);
    }
  }

  /** A logout of a logged-in session leaves its entry stale. */
  lemma {:induction false} LogoutLeavesStale(w: World, c: nat)
    requires Inv(w) && Enabled(w, Logout(c)) && w.conns[c].loggedIn
    ensures Stale(Step(w, Logout(c)), c, w.conns[c].profile)
  {
    assert Active(w, c, w.conns[c].profile);
  }

  ghost predicate AllLive(w: World) {
    forall p {:trigger p in w.table} :: p in w.table ==> Active(w, w.table[p], p)
  }

  lemma {:induction false} StepKeepsLive(w: World, e: Event)
    requires Inv(w) && AllLive(w) && Enabled(w, e)
    requires !(e.Logout? && w.conns[e.c].loggedIn)
    ensures AllLive(Step(w, e))
  {
    var w' := Step(w, e);
    forall p {:trigger p in w'.table} | p in w'.table
      ensures Active(w', w'.table[p], p)
    {
      if p in w.table {
        StepKeepsHolder(w, e, w.table[p], p);
        assert Active(w, w.table[p], p);
      }
    }
  }

  /** Some step of the run logs out a session that is logged in. */
  predicate LogsOut(w: World, es: seq<Event>)
    requires Possible(w, es)
    decreases |es|
  {
    es != [] && ((es[0].Logout? && w.conns[es[0].c].loggedIn) || LogsOut(Step(w, es[0]), es[1..]))
  }

  lemma {:induction false} LiveFrom(w: World, es: seq<Event>)
    requires Inv(w) && AllLive(w) && Possible(w, es)
    ensures AllLive(After(w, es)) <==> !LogsOut(w, es)
    decreases |es|
  {
    if es != [] {
      var e, w' := es[0], Step(w, es[0]);
      StepKeeps(w, e);
      if e.Logout? && w.conns[e.c].loggedIn {
        var p := w.conns[e.c].profile;
        LogoutLeavesStale(w, e.c);
        StaleForever(w', es[1..], e.c, p);
        assert p in After(w', es[1..]).table;
      } else {
        StepKeepsLive(w, e);
        LiveFrom(w', es[1..]);
      }
    }
  }

  /** The table holds only logged-in sessions exactly when no logged-in session ever logged out. */
  lemma {:induction false} TableLiveIff(es: seq<Event>)
    requires Possible(START, es)
    ensures AllLive(After(START, es)) <==> !LogsOut(START, es)
  {
    LiveFrom(START, es);
  }

  // ----- The implementation -----

  /** The events of `es` that can happen, in turn, and are not steps of `c`. */
  function Interference(w: World, es: seq<Event>, c: nat): (r: seq<Event>)
    ensures Possible(w, r)
    decreases |es|
  {
    if es == [] then []
    else if es[0].c != c && Enabled(w, es[0]) then [es[0]] + Interference(Step(w, es[0]), es[1..], c)
    else Interference(w, es[1..], c)
  }

  lemma {:induction false} InterferenceSpares(w: World, es: seq<Event>, c: nat)
    requires c in w.conns
    ensures var w' := After(w, Interference(w, es, c)); c in w'.conns && w'.conns[c] == w.conns[c]
    decreases |es|
  {
    if es != [] {
      if es[0].c != c && Enabled(w, es[0]) {
        var w', rest := Step(w, es[0]), Interference(Step(w, es[0]), es[1..], c);
        InterferenceSpares(w', es[1..], c);
        assert ([es[0]] + rest)[1..] == rest;
      } else {
        InterferenceSpares(w, es[1..], c);
      }
    }
  }

  /** The steps of a run that are `c`'s own. */
  function Own(es: seq<Event>, c: nat): seq<Event> {
    if es == [] then []
    else if es[0].c == c then [es[0]] + Own(es[1..], c)
    else Own(es[1..], c)
  }

  lemma {:induction false} OwnAppend(a: seq<Event>, b: seq<Event>, c: nat)
    ensures Own(a + b, c) == Own(a, c) + Own(b, c)
    decreases |a|
  {
    if a == [] {
      assert a + b == b;
    } else {
      OwnAppend(a[1..], b, c);
      assert (a + b)[0] == a[0] && (a + b)[1..] == a[1..] + b;
      var rest, more := Own(a[1..], c), Own(b, c);
      assert [a[0]] + (rest + more) == ([a[0]] + rest) + more;
    }
  }

  lemma {:induction false} InterferenceIsOthers(w: World, es: seq<Event>, c: nat)
    ensures Own(Interference(w, es, c), c) == []
    decreases |es|
  {
    if es != [] {
      if es[0].c != c && Enabled(w, es[0]) {
        InterferenceIsOthers(Step(w, es[0]), es[1..], c);
        var rest := Interference(Step(w, es[0]), es[1..], c);
        assert ([es[0]] + rest)[1..] == rest;
      } else {
        InterferenceIsOthers(w, es[1..], c);
      }
    }
  }

  function Polls(c: nat, n: nat): seq<Event> {
    seq(n, _ => Poll(c))
  }

  /** The same in the order in which they are taken. */
  lemma {:induction false} OwnStepsBuilt(c: nat, p: uint32, polls: nat)
    ensures [] + [Fetch(c, p, true)] + [Lookup(c)] + Polls(c, polls) == OwnSteps(c, p, true, false, polls, false)
    ensures OwnSteps(c, p, true, false, polls, false) + [Finish(c)] == OwnSteps(c, p, true, false, polls, true)
  {
  }

  /** The steps a login takes itself, in order. */
  function OwnSteps(c: nat, p: uint32, found: bool, loggedIn: bool, polls: nat, ok: bool): seq<Event> {
    if loggedIn then []
    else if !found then [Fetch(c, p, false)]
    else [Fetch(c, p, true), Lookup(c)] + Polls(c, polls) + if ok then [Finish(c)] else []
  }

  lemma {:induction false} OneMorePoll(before: seq<Event>, c: nat, n: nat)
    ensures before + Polls(c, n) + [Poll(c)] == before + Polls(c, n + 1)
  {
    assert Polls(c, n) + [Poll(c)] == Polls(c, n + 1);
  }

  class Sessions {
    var conns: map<nat, Conn>
    var table: map<uint32, nat>

    function State(): World
      reads this
    {
      World(conns, table)
    }

    constructor ()
      ensures State() == START && Inv(State())
    {
      conns, table := map[], map[];
    }

    method NewConnection(index: nat)
      requires Enabled(State(), Connect(index)) && Inv(State())
      modifies this
      ensures State() == Step(old(State()), Connect(index)) && Inv(State())
    {
      StepKeeps(State(), Connect(index));
      conns := conns[index := Conn(Idle, false, 0)];
    }

    method LogOut(c: nat)
      requires Enabled(State(), Logout(c)) && Inv(State())
      modifies this
      ensures State() == Step(old(State()), Logout(c)) && Inv(State())
    {
      StepKeeps(State(), Logout(c));
      conns := conns[c := conns[c].(loggedIn := false)];
    }

    /** The second hold of the mutex when a connection closes. */
    method CloseConnection(c: nat)
      requires Enabled(State(), CloseFinish(c)) && Inv(State())
      modifies this
      ensures State() == Step(old(State()), CloseFinish(c)) && Inv(State())
    {
      StepKeeps(State(), CloseFinish(c));
      var session := conns[c];
      conns := conns[c := session.(pc := Idle, loggedIn := false)];
      if session.loggedIn {
        table := table - {session.profile};
      }
    }

    /** Another connection's step, taken while the mutex is free. */
    method Other(e: Event)
      requires Enabled(State(), e) && Inv(State())
      modifies this
      ensures State() == Step(old(State()), e) && Inv(State())
    {
      StepKeeps(State(), e);
      var w := Step(State(), e);
      conns, table := w.conns, w.table;
    }

    method Sleep(others: seq<Event>, c: nat)
      requires c in conns && Inv(State())
      modifies this
      ensures State() == After(old(State()), Interference(old(State()), others, c)) && Inv(State())
      ensures c in conns && conns[c] == old(conns[c])
      decreases |others|
    {
      InterferenceSpares(State(), others, c);
      if others != [] {
        if others[0].c != c && Enabled(State(), others[0]) {
          ghost var rest := Interference(Step(State(), others[0]), others[1..], c);
          assert ([others[0]] + rest)[1..] == rest;
          Other(others[0]);
        }
        Sleep(others[1..], c);
      }
    }

    /** One sleep and the look at the table that follows it, up to the step of the poll itself. */
    method SleepOnce(c: nat, p: uint32, i: nat, others: seq<Event>, ghost start: World, ghost before: seq<Event>)
      returns (ghost trace: seq<Event>)
      requires c in conns && conns[c] == Conn(Polling(i), false, p) && Inv(State())
      requires Possible(start, before) && State() == After(start, before)
      modifies this
      ensures c in conns && conns[c] == Conn(Polling(i), false, p) && Inv(State())
      ensures Possible(start, trace) && After(start, trace) == Step(State(), Poll(c)) && Inv(Step(State(), Poll(c)))
      ensures Own(trace, c) == Own(before, c) + [Poll(c)]
    {
      trace := Waited(start, before, State(), others, c);
      Sleep(others, c);
      trace := Taken(start, trace, State(), Poll(c));
    }

    /** Polls until the entry is gone, with the mutex held again, or gives up. */
    method AwaitEntry(c: nat, p: uint32, others: seq<seq<Event>>, ghost start: World, ghost before: seq<Event>)
      returns (gone: bool, ghost trace: seq<Event>, ghost polls: nat)
      requires c in conns && conns[c] == Conn(Polling(0), false, p) && Inv(State()) && |others| == MAX_POLLS + 1
      requires Possible(start, before) && State() == After(start, before)
      modifies this
      ensures Possible(start, trace) && c in conns
      ensures if gone
              then p !in table && conns[c].profile == p && !conns[c].loggedIn && Inv(Register(State(), c)) && After(start, trace) == Register(State(), c)
              else p in table && conns[c] == Conn(Idle, false, p) && Inv(State()) && State() == After(start, trace)
      ensures Own(trace, c) == Own(before, c) + Polls(c, polls) && (if gone then 1 <= polls <= 21 else polls == 21)
    {
      trace, polls := before, 0;
      var i := 0;
      while true
        invariant 0 <= i <= MAX_POLLS
        invariant c in conns && conns[c] == Conn(Polling(i), false, p) && Inv(State())
        invariant Possible(start, trace) && State() == After(start, trace)
        invariant polls == i && Own(trace, c) == Own(before, c) + Polls(c, polls)
        decreases MAX_POLLS - i
      {
        trace := SleepOnce(c, p, i, others[i], start, trace);
        OneMorePoll(Own(before, c), c, polls);
        polls := polls + 1;
        if p !in table {
          return true, trace, polls;
        }
        if i >= MAX_POLLS {
          conns := conns[c := conns[c].(pc := Idle)];
          return false, trace, polls;
        }
        i := i + 1;
        conns := conns[c := conns[c].(pc := Polling(i))];
      }
    }

    /** The mutex is held from the lookup on, and again when no entry is left. */
    method ClaimEntry(c: nat, p: uint32, others: seq<seq<Event>>, ghost start: World, ghost before: seq<Event>)
      returns (gone: bool, ghost trace: seq<Event>, ghost polls: nat)
      requires c in conns && conns[c] == Conn(Fetched, false, p) && Inv(State()) && |others| == MAX_POLLS + 1
      requires Possible(start, before) && State() == After(start, before)
      modifies this
      ensures Possible(start, trace) && c in conns
      ensures if gone
              then p !in table && conns[c].profile == p && !conns[c].loggedIn && Inv(Register(State(), c)) && After(start, trace) == Register(State(), c)
              else p in table && conns[c] == Conn(Idle, false, p) && Inv(State()) && State() == After(start, trace)
      ensures Own(trace, c) == Own(before, c) + [Lookup(c)] + Polls(c, polls) && (if gone then polls <= 21 else polls == 21)
    {
      polls := 0;
      trace := Taken(start, before, State(), Lookup(c));
      if p in table {
        conns := conns[c := conns[c].(pc := Polling(0))];
        gone, trace, polls := AwaitEntry(c, p, others, start, trace);
      } else {
        gone := true;
      }
    }

    /** The session becomes the entry, the mutex is released, and the login is completed. */
    method Enter(c: nat, p: uint32, others: seq<Event>, ghost start: World, ghost before: seq<Event>) returns (ghost trace: seq<Event>)
      requires c in conns && conns[c].profile == p && !conns[c].loggedIn && Inv(Register(State(), c))
      requires Possible(start, before) && After(start, before) == Register(State(), c)
      modifies this
      ensures Possible(start, trace) && State() == After(start, trace) && Inv(State())
      ensures c in conns && conns[c] == Conn(Idle, true, p) && Entry(State(), c, p)
      ensures Own(trace, c) == Own(before, c) + [Finish(c)]
    {
      conns := conns[c := conns[c].(pc := Registered)];
      table := table[p := c];
      trace := Waited(start, before, State(), others, c);
      Sleep(others, c);
      trace := Taken(start, trace, State(), Finish(c));
      conns := conns[c := conns[c].(pc := Idle, loggedIn := true)];
      assert Active(State(), c, p);
    }

    /**
      `others` is what other connections do while the mutex is free: before the lookup, after the
      registration, and during each sleep. `found` says whether the database knows the profile.
     */
    method Login(c: nat, p: uint32, found: bool, others: seq<seq<Event>>)
      returns (ok: bool, ghost trace: seq<Event>, ghost polls: nat)
      requires c in conns && conns[c].pc == Idle && Inv(State()) && |others| == MAX_POLLS + 3
      modifies this
      ensures Inv(State()) && Possible(old(State()), trace) && State() == After(old(State()), trace)
      ensures c in conns && conns[c].pc == Idle
      ensures ok ==> conns[c].loggedIn && conns[c].profile == p && Entry(State(), c, p)
      ensures !ok ==> conns[c].loggedIn == old(conns[c].loggedIn)
      ensures !ok && found && !old(conns[c].loggedIn) ==> p in table
      ensures Own(trace, c) == OwnSteps(c, p, found, old(conns[c].loggedIn), polls, ok)
      ensures if ok then polls <= 21 else found && !old(conns[c].loggedIn) ==> polls == 21
    {
      ghost var start := State();
      trace, polls := [], 0;
      if conns[c].loggedIn {
        return false, trace, polls;
      }
      trace := Taken(start, trace, State(), Fetch(c, p, found));
      conns := conns[c := conns[c].(profile := p, pc := if found then Fetched else Idle)];
      if !found {
        return false, trace, polls;
      }
      trace := Waited(start, trace, State(), others[0], c);
      Sleep(others[0], c);
      ok, trace, polls := ClaimEntry(c, p, others[2..], start, trace);
      OwnStepsBuilt(c, p, polls);
      if ok {
        trace := Enter(c, p, others[1], start, trace);
      }
    }
  }

  /** Extends the history of a run by one step. */
  lemma {:induction false} Taken(start: World, trace: seq<Event>, w: World, e: Event) returns (longer: seq<Event>)
    requires Possible(start, trace) && w == After(start, trace) && Enabled(w, e) && Inv(w)
    ensures Possible(start, longer) && After(start, longer) == Step(w, e) && Inv(Step(w, e))
    ensures Own(longer, e.c) == Own(trace, e.c) + [e]
  {
    longer := trace + [e];
    OwnAppend(trace, [e], e.c);
    assert [e][1..] == [] && Own([e], e.c) == [e];
    AfterAppend(start, trace, [e]);
    StepKeeps(w, e);
  }

  lemma {:induction false} Waited(start: World, trace: seq<Event>, w: World, others: seq<Event>, c: nat) returns (longer: seq<Event>)
    requires Possible(start, trace) && w == After(start, trace)
    ensures Possible(start, longer) && After(start, longer) == After(w, Interference(w, others, c))
    ensures Own(longer, c) == Own(trace, c)
  {
    longer := trace + Interference(w, others, c);
    OwnAppend(trace, Interference(w, others, c), c);
    InterferenceIsOthers(w, others, c);
    AfterAppend(start, trace, Interference(w, others, c));
  }
}
