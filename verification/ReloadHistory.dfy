/**
  What one connection handler of the frontend does over a whole run, read off the calls it makes and
  the replies it gets.
 */
module ReloadHistory {
  import opened Reload

  /** The calls made, the replies to them, the packets read, and whether a sweep closed the connection. */
  datatype History = History(calls: seq<Call>, replies: seq<bool>, packets: nat, swept: bool)

  const NOTHING := History([], [], 0, false)

  function Noted(w: World, e: Event, h: nat, past: History): History
    requires Enabled(w, e)
  {
    match e
    case Release(x) =>
      var pc := Step(w, e).handlers[x];
      if x == h && pc.Calling? then past.(calls := past.calls + [pc.call]) else past
    case Return(x, ok) => if x == h then past.(replies := past.replies + [ok]) else past
    case Read(x, more) => if x == h && more then past.(packets := past.packets + 1) else past
    case Sweep(_, x) => if x == h then past.(swept := true) else past
    case _ => past
  }

  function Recorded(w: World, es: seq<Event>, h: nat, past: History): History
    requires Possible(w, es)
    decreases |es|
  {
    if es == [] then past else Recorded(Step(w, es[0]), es[1..], h, Noted(w, es[0], h, past))
  }

  function PacketCalls(calls: seq<Call>): nat {
    if calls == [] then 0
    else PacketCalls(calls[..|calls| - 1]) + if calls[|calls| - 1] == Packet then 1 else 0
  }

  function Last(calls: seq<Call>): Call
    requires calls != []
  {
    calls[|calls| - 1]
  }

  /** First the connection is announced, then packets go out, and at most one close ends it all. */
  predicate InProtocol(calls: seq<Call>, replies: seq<bool>) {
    && |replies| <= |calls| <= |replies| + 1
    && (calls != [] ==> calls[0] == New)
    && (forall i :: 0 < i < |calls| ==> calls[i] != New)
    && (forall i :: 0 <= i < |calls| - 1 ==> calls[i] != Close)
    && (forall i :: 0 <= i < |calls| - 1 && !replies[i] ==> calls[i] == Packet && calls[i + 1] == Close)
  }

  /** How a handler's place follows from its calls and replies. */
  predicate Fits(pc: Pc, past: History) {
    var calls, replies := past.calls, past.replies;
    match pc
    case Starting => calls == [] && replies == []
    case Calling(call) => calls != [] && |replies| == |calls| - 1 && Last(calls) == call
    case Reading => calls != [] && |replies| == |calls| && replies[|replies| - 1] && Last(calls) != Close
    case WantPacket => calls != [] && |replies| == |calls| && replies[|replies| - 1] && Last(calls) != Close
    case WantClose =>
      calls != [] && |replies| == |calls| && Last(calls) != Close && (replies[|replies| - 1] || Last(calls) == Packet)
    case WantDrop => calls == [New] && replies == [false]
    case Done =>
      && calls != [] && |replies| == |calls|
      && (Last(calls) == Close || past.swept || (calls == [New] && replies == [false]))
  }

  /** Entered with the first call, and gone with the last, with a failed one, or with a sweep. */
  predicate InTable(w: World, h: nat, past: History) {
    h in w.handlers && past.calls != [] && Last(past.calls) != Close && w.handlers[h] != Done && !past.swept
  }

  ghost predicate Agrees(w: World, h: nat, past: History) {
    && InProtocol(past.calls, past.replies)
    && (if h in w.handlers then Fits(w.handlers[h], past) else past == NOTHING)
    && (h in w.table <==> InTable(w, h, past))
    && (past.calls == [] ==> !past.swept && forall k :: 0 <= k < |w.sweeps| ==> h !in w.sweeps[k])
    && past.packets == PacketCalls(past.calls) + if h in w.handlers && w.handlers[h] == WantPacket then 1 else 0
  }

  lemma {:induction false} OneMoreCall(calls: seq<Call>, call: Call)
    ensures PacketCalls(calls + [call]) == PacketCalls(calls) + if call == Packet then 1 else 0
    ensures Last(calls + [call]) == call
  {
    assert (calls + [call])[..|calls|] == calls;
  }

  /** A call that may come next. */
  predicate MayFollow(calls: seq<Call>, replies: seq<bool>, call: Call)
    requires |replies| == |calls|
  {
    if calls == [] then call == New
    else call != New && Last(calls) != Close && (!replies[|replies| - 1] ==> Last(calls) == Packet && call == Close)
  }

  lemma {:induction false} Extends(calls: seq<Call>, replies: seq<bool>, call: Call)
    requires InProtocol(calls, replies) && |replies| == |calls| && MayFollow(calls, replies, call)
    ensures InProtocol(calls + [call], replies)
  {
  }

  lemma {:induction false} Answered(calls: seq<Call>, replies: seq<bool>, ok: bool)
    requires InProtocol(calls, replies) && |replies| == |calls| - 1
    ensures InProtocol(calls, replies + [ok])
  {
  }

  /** A handler at rest may make the call its place leads to. */
  lemma {:induction false} CallFollows(w: World, h: nat, past: History, call: Call)
    requires Agrees(w, h, past) && Enabled(w, Release(h)) && Released(w, h).handlers[h] == Calling(call)
    ensures |past.replies| == |past.calls| && MayFollow(past.calls, past.replies, call)
    ensures call == Packet <==> w.handlers[h] == WantPacket
    ensures h in Released(w, h).table <==> call == New || (call == Packet && h in w.table)
  {
  }

  lemma {:induction false} CallStarts(w: World, v: World, h: nat, past: History, call: Call)
    requires Agrees(w, h, past) && |past.replies| == |past.calls| && MayFollow(past.calls, past.replies, call)
    requires h in w.handlers && w.handlers[h] != Done && (call == Packet <==> w.handlers[h] == WantPacket)
    requires h in v.handlers && v.handlers[h] == Calling(call) && v.sweeps == w.sweeps
    requires h in v.table <==> call == New || (call == Packet && h in w.table)
    ensures Agrees(v, h, past.(calls := past.calls + [call]))
  {
    Extends(past.calls, past.replies, call);
    OneMoreCall(past.calls, call);
  }

  lemma {:induction false} CallAgrees(w: World, h: nat, past: History)
    requires Agrees(w, h, past) && Enabled(w, Release(h)) && Released(w, h).handlers[h].Calling?
    ensures Agrees(Step(w, Release(h)), h, Noted(w, Release(h), h, past))
  {
    var call := Released(w, h).handlers[h].call;
    CallFollows(w, h, past, call);
    CallStarts(w, Released(w, h), h, past, call);
  }

  lemma {:induction false} EndAgrees(w: World, h: nat, past: History)
    requires Agrees(w, h, past) && Enabled(w, Release(h)) && !Released(w, h).handlers[h].Calling?
    ensures Agrees(Step(w, Release(h)), h, Noted(w, Release(h), h, past))
  {
  }

  lemma {:induction false} ReplyAgrees(w: World, h: nat, ok: bool, past: History)
    requires Agrees(w, h, past) && Enabled(w, Return(h, ok))
    ensures Agrees(Step(w, Return(h, ok)), h, Noted(w, Return(h, ok), h, past))
  {
    Answered(past.calls, past.replies, ok);
  }

  /** Steps of others leave the handler, its place in the table and its history alone. */
  lemma {:induction false} Frame(w: World, v: World, h: nat, past: History)
    requires Agrees(w, h, past) && (h in w.table <==> h in v.table)
    requires if h in w.handlers then h in v.handlers && v.handlers[h] == w.handlers[h] else h !in v.handlers
    requires past.calls == [] ==> forall k :: 0 <= k < |v.sweeps| ==> h !in v.sweeps[k]
    ensures Agrees(v, h, past)
  {
  }

  predicate Concerns(e: Event, h: nat) {
    (e.Accept? || e.Acquire? || e.Release? || e.Return? || e.Read? || e.Sweep?) && e.h == h
  }

  lemma {:induction false} OthersSpare(w: World, e: Event, h: nat)
    requires Enabled(w, e) && !Concerns(e, h)
    ensures var v := Step(w, e);
            && (h in w.table <==> h in v.table)
            && (if h in w.handlers then h in v.handlers && v.handlers[h] == w.handlers[h] else h !in v.handlers)
  {
  }

  lemma {:induction false} OthersSweep(w: World, e: Event, h: nat)
    requires Enabled(w, e) && h !in w.table && forall k :: 0 <= k < |w.sweeps| ==> h !in w.sweeps[k]
    ensures forall k :: 0 <= k < |Step(w, e).sweeps| ==> h !in Step(w, e).sweeps[k]
  {
  }

  lemma {:induction false} OthersAgree(w: World, e: Event, h: nat, past: History)
    requires Agrees(w, h, past) && Enabled(w, e) && !Concerns(e, h)
    ensures Agrees(Step(w, e), h, Noted(w, e, h, past))
  {
    OthersSpare(w, e, h);
    if past.calls == [] { OthersSweep(w, e, h); }
    Frame(w, Step(w, e), h, past);
  }

  lemma {:induction false} SweepAgrees(w: World, k: nat, h: nat, past: History)
    requires Agrees(w, h, past) && Enabled(w, Sweep(k, h))
    ensures Agrees(Step(w, Sweep(k, h)), h, Noted(w, Sweep(k, h), h, past))
  {
    assert past.calls != [];
  }

  lemma {:induction false} OwnAgrees(w: World, e: Event, h: nat, past: History)
    requires Agrees(w, h, past) && Enabled(w, e) && (e.Accept? || e.Acquire? || e.Read?) && e.h == h
    ensures Agrees(Step(w, e), h, Noted(w, e, h, past))
  {
  }

  lemma {:induction false} StepAgrees(w: World, e: Event, h: nat, past: History)
    requires Agrees(w, h, past) && Enabled(w, e)
    ensures Agrees(Step(w, e), h, Noted(w, e, h, past))
  {
    if !Concerns(e, h) {
      OthersAgree(w, e, h, past);
    } else if e.Release? {
      if Released(w, h).handlers[h].Calling? { CallAgrees(w, h, past); } else { EndAgrees(w, h, past); }
    } else if e.Return? {
      ReplyAgrees(w, h, e.ok, past);
    } else if e.Sweep? {
      SweepAgrees(w, e.k, h, past);
    } else {
      OwnAgrees(w, e, h, past);
    }
  }

  lemma {:induction false} RunAgrees(w: World, es: seq<Event>, h: nat, past: History)
    requires Agrees(w, h, past) && Possible(w, es)
    ensures Agrees(After(w, es), h, Recorded(w, es, h, past))
    decreases |es|
  {
    if es != [] {
      StepAgrees(w, es[0], h, past);
      RunAgrees(Step(w, es[0]), es[1..], h, Noted(w, es[0], h, past));
    }
  }

  /**
    In every run a connection is announced first, each packet read is forwarded once, a failed packet
    is followed by nothing but the close and a failed announcement by nothing at all, and a connection
    is in the table from its announcement to its close, unless a sweep closed it. A handler ends only
    after the close, after a sweep, or when its announcement failed.
   */
  lemma {:induction false} RunProtocol(integrated: bool, es: seq<Event>, h: nat)
    requires Possible(Start(integrated), es)
    ensures var w, past := After(Start(integrated), es), Recorded(Start(integrated), es, h, NOTHING);
            && InProtocol(past.calls, past.replies)
            && (h in w.handlers ==> Fits(w.handlers[h], past))
            && (h in w.table <==> InTable(w, h, past))
            && past.packets == PacketCalls(past.calls) + if h in w.handlers && w.handlers[h] == WantPacket then 1 else 0
  {
    RunAgrees(Start(integrated), es, h, NOTHING);
  }

  /** The mutex passes from one holder to the next only through being free. */
  lemma {:induction false} HandsOver(w: World, e: Event)
    requires Inv(w) && Enabled(w, e)
    ensures w.mutex == Free || Step(w, e).mutex == Free || Step(w, e).mutex == w.mutex
  {
  }

  /** A backend's question leads to a comparison exactly when it found the mutex held. */
  lemma {:induction false} ComparedIff(w: World, asked: string)
    requires asked !in w.asking
    ensures Enabled(Step(w, BeginVerify(asked)), EndVerify(asked)) <==> w.mutex != Free
  {
  }
}
