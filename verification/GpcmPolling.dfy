/** How a login ends, by what it saw each time it looked at the session table, and its steps one by one. */
module GpcmPolling {
  import opened Bytes
  import opened GpcmLogin

  predicate Looks(e: Event, c: nat) {
    e == Lookup(c) || e == Poll(c)
  }

  /** What `c` sees at its looks: whether the table has an entry for `p`. */
  function Seen(w: World, es: seq<Event>, c: nat, p: uint32, before: seq<bool>): seq<bool>
    requires Possible(w, es)
    decreases |es|
  {
    if es == [] then before
    else Seen(Step(w, es[0]), es[1..], c, p, if Looks(es[0], c) then before + [p in w.table] else before)
  }

  /** The first look is the one with the mutex held; twenty-one more may follow, one after each sleep. */
  function PlaceAfter(seen: seq<bool>): Pc
    requires |seen| <= 22
  {
    if seen == [] then Fetched
    else if !seen[|seen| - 1] then Registered
    else if |seen| == 22 then Idle
    else Polling(|seen| - 1)
  }

  ghost predicate Agrees(w: World, c: nat, p: uint32, seen: seq<bool>) {
    && |seen| <= 22 && (forall i :: 0 <= i < |seen| - 1 ==> seen[i])
    && c in w.conns && w.conns[c] == Conn(PlaceAfter(seen), false, p)
  }

  lemma {:induction false} StepAgrees(w: World, e: Event, c: nat, p: uint32, seen: seq<bool>)
    requires Agrees(w, c, p, seen) && Enabled(w, e) && (e.c == c ==> Looks(e, c))
    ensures Agrees(Step(w, e), c, p, if Looks(e, c) then seen + [p in w.table] else seen)
  {
  }

  lemma {:induction false} RunAgrees(w: World, es: seq<Event>, c: nat, p: uint32, before: seq<bool>)
    requires Agrees(w, c, p, before) && Possible(w, es) && forall e :: e in es && e.c == c ==> Looks(e, c)
    ensures Agrees(After(w, es), c, p, Seen(w, es, c, p, before))
    decreases |es|
  {
    if es != [] {
      StepAgrees(w, es[0], c, p, before);
      RunAgrees(Step(w, es[0]), es[1..], c, p, if Looks(es[0], c) then before + [p in w.table] else before);
    }
  }

  /**
    Whatever other connections do in between, a login registers at the first look that finds no entry,
    and gives up exactly when it found one at the first look and after each of twenty-one sleeps.
   */
  lemma {:induction false} LooksDecide(w: World, es: seq<Event>, c: nat, p: uint32)
    requires Inv(w) && c in w.conns && w.conns[c] == Conn(Fetched, false, p)
    requires Possible(w, es) && forall e :: e in es && e.c == c ==> Looks(e, c)
    ensures var v, seen := After(w, es), Seen(w, es, c, p, []);
            && |seen| <= 22 && (forall i :: 0 <= i < |seen| - 1 ==> seen[i])
            && c in v.conns && v.conns[c].profile == p && !v.conns[c].loggedIn
            && (v.conns[c].pc == Idle <==> |seen| == 22 && seen[21])
            && (v.conns[c].pc == Registered <==> seen != [] && !seen[|seen| - 1])
            && (v.conns[c].pc == Registered ==> Entry(v, c, p))
  {
    RunAgrees(w, es, c, p, []);
    RunKeeps(w, es);
    var v := After(w, es);
    if v.conns[c].pc == Registered {
      assert Active(v, c, p);
    }
  }

  // ----- Whole logins and closes with nothing in between -----

  lemma {:induction false} TwoSteps(w: World, e: Event, f: Event)
    requires Enabled(w, e) && Enabled(Step(w, e), f)
    ensures Possible(w, [e, f]) && After(w, [e, f]) == Step(Step(w, e), f)
  {
    var v, last := Step(w, e), [f];
    assert [e, f][1..] == last && last[1..] == [];
    assert After(v, last) == After(Step(v, f), last[1..]);
  }

  lemma {:induction false} ThreeSteps(w: World, e: Event, f: Event, g: Event)
    requires Enabled(w, e) && Enabled(Step(w, e), f) && Enabled(Step(Step(w, e), f), g)
    ensures Possible(w, [e, f, g]) && After(w, [e, f, g]) == Step(Step(Step(w, e), f), g)
  {
    assert [e, f, g][1..] == [f, g];
    TwoSteps(Step(w, e), f, g);
  }

  /** With no entry in the way a login is done at once; an unknown profile only changes the session's own. */
  lemma {:induction false} LogsInAtOnce(w: World, c: nat, p: uint32)
    requires c in w.conns && w.conns[c].pc == Idle && !w.conns[c].loggedIn && p !in w.table
    ensures Possible(w, [Fetch(c, p, true), Lookup(c), Finish(c)])
    ensures After(w, [Fetch(c, p, true), Lookup(c), Finish(c)]) == World(w.conns[c := Conn(Idle, true, p)], w.table[p := c])
    ensures Enabled(w, Fetch(c, p, false)) && Step(w, Fetch(c, p, false)) == World(w.conns[c := Conn(Idle, false, p)], w.table)
  {
    ThreeSteps(w, Fetch(c, p, true), Lookup(c), Finish(c));
    var v := After(w, [Fetch(c, p, true), Lookup(c), Finish(c)]);
    assert v.conns == w.conns[c := Conn(Idle, true, p)];
  }

  /** Closing a logged-in session takes its entry away and nothing else; any other leaves the table alone. */
  lemma {:induction false} ClosesWhole(w: World, c: nat)
    requires c in w.conns && w.conns[c].pc == Idle
    ensures Possible(w, [CloseStart(c), CloseFinish(c)])
    ensures var k := w.conns[c];
            After(w, [CloseStart(c), CloseFinish(c)]) ==
              World(w.conns[c := Conn(Idle, false, k.profile)], if k.loggedIn then w.table - {k.profile} else w.table)
  {
    TwoSteps(w, CloseStart(c), CloseFinish(c));
    var v := After(w, [CloseStart(c), CloseFinish(c)]);
    assert v.conns == w.conns[c := Conn(Idle, false, w.conns[c].profile)];
  }

  /** A new connection and a logout, each alone. */
  lemma {:induction false} SmallSteps(w: World, c: nat)
    ensures c !in w.conns ==>
              Enabled(w, Connect(c)) && Step(w, Connect(c)) == World(w.conns[c := Conn(Idle, false, 0)], w.table)
    ensures c in w.conns && w.conns[c].pc == Idle ==>
              Enabled(w, Logout(c)) && Step(w, Logout(c)) == World(w.conns[c := Conn(Idle, false, w.conns[c].profile)], w.table)
  {
  }
}
