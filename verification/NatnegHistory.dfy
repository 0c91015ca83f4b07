/**
  What a NATNEG session holds after any run, told by the bytes of the messages alone: which address,
  name and result of a client comes from which message, and whom it is connected to.
 */
module NatnegHistory {
  import opened Bytes
  import opened NatnegPairing

  // ----- Initialisation messages by their bytes -----

  /** The name stands from byte 9 up to the zero byte at `end`. */
  predicate NameEnds(buffer: seq<byte>, end: nat) {
    9 <= end < |buffer| && buffer[end] == 0 && forall k :: 9 <= k < end ==> buffer[k] != 0
  }

  /** A known port type, a flag, a terminated name, and not the game port with its use disabled. */
  ghost predicate Proper(buffer: seq<byte>) {
    && (exists end: nat :: NameEnds(buffer, end))
    && buffer[0] <= 3 && buffer[2] <= 1 && !(buffer[0] == 0 && buffer[2] == 0)
  }

  ghost function NameOf(buffer: seq<byte>): (name: seq<byte>)
    requires Proper(buffer)
    ensures forall end: nat :: NameEnds(buffer, end) ==> name == buffer[9..end]
  {
    var end: nat :| NameEnds(buffer, end);
    assert forall e: nat :: NameEnds(buffer, e) ==> e == end;
    buffer[9..end]
  }

  lemma {:induction false} CStringEnds(buffer: seq<byte>, from: nat)
    requires from <= |buffer|
    ensures match CString(buffer[from..])
            case None => forall k :: from <= k < |buffer| ==> buffer[k] != 0
            case Some(name) => var end := from + |name|;
              end < |buffer| && buffer[end] == 0 && name == buffer[from..end] && forall k :: from <= k < end ==> buffer[k] != 0
    decreases |buffer| - from
  {
    if from < |buffer| && buffer[from] != 0 {
      CStringEnds(buffer, from + 1);
      assert buffer[from..][1..] == buffer[from + 1..];
    }
  }

  /** The parser takes exactly the proper messages, and these fields. */
  lemma {:induction false} ParsesProper(buffer: seq<byte>)
    ensures ParseInit(buffer).Some? <==> Proper(buffer)
    ensures Proper(buffer) ==>
              ParseInit(buffer) == Some(InitRequest(buffer[0], buffer[1], buffer[2],
                                                    if buffer[7] == 0 && buffer[8] == 0 then [] else buffer[3..9], NameOf(buffer)))
  {
    if |buffer| >= 9 {
      CStringEnds(buffer, 9);
      match CString(buffer[9..])
      case None =>
      case Some(name) => assert NameEnds(buffer, 9 + |name|);
    }
  }

  // ----- Which messages take effect -----

  datatype Announcement = Announcement(buffer: seq<byte>, addr: Address)

  ghost function Sample(): (a: Announcement)
    ensures Proper(a.buffer)
  {
    var buffer: seq<byte> := [1, 0, 0, 0, 0, 0, 0, 0, 0, 0];
    assert NameEnds(buffer, 9);
    Announcement(buffer, "?")
  }

  type Announced = a: Announcement | Proper(a.buffer) ghost witness Sample()

  predicate ForGame(a: Announced) {
    true
  }

  /** A port type other than the game port announces the negotiation address. */
  predicate ForNegotiation(a: Announced) {
    a.buffer[0] != 0
  }

  /** The game port announces the server address, and so does every port when its use is disabled. */
  predicate ForServer(a: Announced) {
    a.buffer[2] == 0 || a.buffer[0] == 0
  }

  /** A nonzero local port announces the local address. */
  predicate ForLocal(a: Announced) {
    a.buffer[7] != 0 || a.buffer[8] != 0
  }

  /** The last announcement of client `id` that is of some kind. */
  ghost function LastOf(h: seq<Announced>, id: byte, kind: Announced -> bool): (r: Option<Announced>)
    ensures r.Some? ==> r.value in h && r.value.buffer[1] == id && kind(r.value)
    ensures r.None? <==> forall a :: a in h && a.buffer[1] == id ==> !kind(a)
  {
    if h == [] then None
    else
      var last, before := h[|h| - 1], h[..|h| - 1];
      assert forall a :: a in h <==> a in before || a == last;
      if last.buffer[1] == id && kind(last) then Some(last) else LastOf(before, id, kind)
  }

  ghost predicate Known(h: seq<Announced>, id: byte) {
    exists a :: a in h && a.buffer[1] == id
  }

  ghost function Last(h: seq<Announced>, id: byte): Option<Announced> {
    LastOf(h, id, ForGame)
  }

  /** A new client must name the game that every client named last. */
  ghost predicate Welcome(h: seq<Announced>, buffer: seq<byte>)
    requires Proper(buffer)
  {
    Known(h, buffer[1]) || forall id {:trigger Last(h, id)} :: Last(h, id).Some? ==> NameOf(Last(h, id).value.buffer) == NameOf(buffer)
  }

  /** A proper INIT that could be acknowledged. */
  ghost predicate Heard(h: seq<Announced>, m: Message) {
    m.Init? && m.written && Proper(m.buffer) && Welcome(h, m.buffer)
  }

  ghost function Extended(h: seq<Announced>, m: Message): seq<Announced> {
    if Heard(h, m) then h + [Announcement(m.buffer, m.addr)] else h
  }

  /** The announcements that took effect, oldest first. */
  ghost function Effective(ms: seq<Message>): seq<Announced> {
    if ms == [] then [] else Extended(Effective(ms[..|ms| - 1]), ms[|ms| - 1])
  }

  ghost function AddressOf(a: Option<Announced>): string {
    if a.Some? then a.value.addr else ""
  }

  // ----- What a client holds -----

  ghost predicate TellsOf(h: seq<Announced>, id: byte, p: Peer) {
    && Last(h, id).Some? && p.gameName == NameOf(Last(h, id).value.buffer)
    && p.negotiateIp == AddressOf(LastOf(h, id, ForNegotiation))
    && p.serverIp == AddressOf(LastOf(h, id, ForServer))
    && (var local := LastOf(h, id, ForLocal);
        p.localIp == if local.Some? then local.value.buffer[3..9] else [])
  }

  ghost predicate Tells(h: seq<Announced>, s: Session) {
    && (forall id {:trigger Known(h, id)} :: id in s.peers <==> Known(h, id))
    && (forall id {:trigger s.peers[id]} :: id in s.peers ==> TellsOf(h, id, s.peers[id]))
  }

  /** Nothing but the connection and the results of clients differs. */
  predicate SameAnnounced(s: Session, t: Session) {
    && s.peers.Keys == t.peers.Keys
    && (forall id {:trigger t.peers[id]} :: id in s.peers ==>
          && t.peers[id].gameName == s.peers[id].gameName && t.peers[id].negotiateIp == s.peers[id].negotiateIp
          && t.peers[id].serverIp == s.peers[id].serverIp && t.peers[id].localIp == s.peers[id].localIp)
  }

  lemma {:induction false} InnerWalkSame(s: Session, a: byte, order: seq<byte>)
    requires a in s.peers
    ensures SameAnnounced(s, VisitDestinations(s, a, order))
  {
    if order != [] { InnerWalkSame(s, a, order[..|order| - 1]); }
  }

  lemma {:induction false} WalkSame(s: Session, senders: seq<byte>, orders: seq<seq<byte>>)
    requires |senders| == |orders|
    ensures SameAnnounced(s, VisitSenders(s, senders, orders))
  {
    if senders != [] {
      var n := |senders| - 1;
      WalkSame(s, senders[..n], orders[..n]);
      var u := VisitSenders(s, senders[..n], orders[..n]);
      if u.Available(senders[n]) { InnerWalkSame(u, senders[n], orders[n]); }
    }
  }

  lemma {:induction false} WalkedSame(s: Session, t: Session)
    requires Walked(s, t)
    ensures SameAnnounced(s, t)
  {
    var senders, orders :| WalkOrder(s, senders, orders) && t == VisitSenders(s, senders, orders);
    WalkSame(s, senders, orders);
  }

  lemma {:induction false} TellsSame(h: seq<Announced>, s: Session, t: Session)
    requires Tells(h, s) && SameAnnounced(s, t)
    ensures Tells(h, t)
  {
    forall id {:trigger t.peers[id]} | id in t.peers
      ensures TellsOf(h, id, t.peers[id])
    {
      assert TellsOf(h, id, s.peers[id]);
    }
  }

  lemma {:induction false} LastOfMore(h: seq<Announced>, a: Announced, id: byte, kind: Announced -> bool)
    ensures LastOf(h + [a], id, kind) == if a.buffer[1] == id && kind(a) then Some(a) else LastOf(h, id, kind)
  {
    assert (h + [a])[..|h|] == h;
  }

  lemma {:induction false} KnownMore(h: seq<Announced>, a: Announced, id: byte)
    ensures Known(h + [a], id) <==> Known(h, id) || a.buffer[1] == id
  {
    assert forall b :: b in h + [a] <==> b in h || b == a;
  }

  lemma {:induction false} OthersTold(h: seq<Announced>, a: Announced, id: byte, p: Peer)
    requires TellsOf(h, id, p) && a.buffer[1] != id
    ensures TellsOf(h + [a], id, p)
  {
    LastOfMore(h, a, id, ForGame);
    LastOfMore(h, a, id, ForNegotiation);
    LastOfMore(h, a, id, ForServer);
    LastOfMore(h, a, id, ForLocal);
  }

  lemma {:induction false} NobodyTold(h: seq<Announced>, id: byte, kind: Announced -> bool)
    requires !Known(h, id)
    ensures LastOf(h, id, kind).None?
  {
  }

  lemma {:induction false} SpeakerTold(h: seq<Announced>, a: Announced, s: Session)
    requires Tells(h, s) && ParseInit(a.buffer).Some?
    ensures var id, r := a.buffer[1], ParseInit(a.buffer).value;
            r.index == id && TellsOf(h + [a], id, Register(s, r, a.addr).peers[id])
  {
    var id := a.buffer[1];
    ParsesProper(a.buffer);
    LastOfMore(h, a, id, ForGame);
    LastOfMore(h, a, id, ForNegotiation);
    LastOfMore(h, a, id, ForServer);
    LastOfMore(h, a, id, ForLocal);
    if id in s.peers {
      assert TellsOf(h, id, s.peers[id]);
    } else {
      assert !Known(h, id);
    }
  }

  lemma {:induction false} RegisterTold(h: seq<Announced>, a: Announced, s: Session)
    requires Tells(h, s) && ParseInit(a.buffer).Some?
    ensures Tells(h + [a], Register(s, ParseInit(a.buffer).value, a.addr))
  {
    var t := Register(s, ParseInit(a.buffer).value, a.addr);
    SpeakerTold(h, a, s);
    forall id {:trigger Known(h + [a], id)}
      ensures id in t.peers <==> Known(h + [a], id)
    {
      KnownMore(h, a, id);
      assert id in s.peers <==> Known(h, id);
    }
    forall id {:trigger t.peers[id]} | id in t.peers && id != a.buffer[1]
      ensures TellsOf(h + [a], id, t.peers[id])
    {
      assert TellsOf(h, id, s.peers[id]);
      OthersTold(h, a, id, s.peers[id]);
    }
  }

  /** Admission looks at the clients, `Welcome` at the announcements. */
  lemma {:induction false} WelcomeIsAdmitted(h: seq<Announced>, s: Session, buffer: seq<byte>)
    requires Tells(h, s) && Proper(buffer)
    ensures Welcome(h, buffer) <==> ParseInit(buffer).Some? && Admitted(s, ParseInit(buffer).value)
  {
    ParsesProper(buffer);
    assert buffer[1] in s.peers <==> Known(h, buffer[1]);
    forall id {:trigger Last(h, id)}
      ensures Last(h, id).Some? <==> id in s.peers
      ensures id in s.peers ==> s.peers[id].gameName == NameOf(Last(h, id).value.buffer)
    {
      assert id in s.peers <==> Known(h, id);
      if id in s.peers { assert TellsOf(h, id, s.peers[id]); }
    }
    if Admitted(s, ParseInit(buffer).value) && !Known(h, buffer[1]) {
      assert forall id {:trigger Last(h, id)} :: Last(h, id).Some? ==> NameOf(Last(h, id).value.buffer) == NameOf(buffer);
    }
    if Welcome(h, buffer) && !Known(h, buffer[1]) {
      forall id | id in s.peers
        ensures s.peers[id].gameName == ParseInit(buffer).value.gameName
      {
        assert Last(h, id).Some?;
      }
    }
  }

  lemma {:induction false} WalkTold(h: seq<Announced>, u: Session, t: Session)
    requires Tells(h, u) && (t == u || Walked(u, t))
    ensures Tells(h, t)
  {
    if t != u {
      WalkedSame(u, t);
      TellsSame(h, u, t);
    }
  }

  lemma {:induction false} Unheard(h: seq<Announced>, s: Session, m: Message, t: Session)
    requires Tells(h, s) && Step(s, m, t) && m.Init? && !Heard(h, m)
    ensures t == s
  {
    ParsesProper(m.buffer);
    if Proper(m.buffer) { WelcomeIsAdmitted(h, s, m.buffer); }
  }

  lemma {:induction false} HeardRegisters(h: seq<Announced>, s: Session, m: Message, t: Session)
    requires Tells(h, s) && Step(s, m, t) && Heard(h, m)
    ensures ParseInit(m.buffer).Some?
    ensures var u := Register(s, ParseInit(m.buffer).value, m.addr); t == u || Walked(u, t)
  {
    WelcomeIsAdmitted(h, s, m.buffer);
  }

  lemma {:induction false} InitTold(h: seq<Announced>, s: Session, m: Message, t: Session)
    requires Tells(h, s) && Step(s, m, t) && m.Init?
    ensures Tells(Extended(h, m), t)
  {
    if Heard(h, m) {
      var a := Announcement(m.buffer, m.addr);
      HeardRegisters(h, s, m, t);
      RegisterTold(h, a, s);
      WalkTold(h + [a], Register(s, ParseInit(m.buffer).value, m.addr), t);
    } else {
      Unheard(h, s, m, t);
    }
  }

  lemma {:induction false} ReportSame(s: Session, m: Message, t: Session)
    requires Step(s, m, t) && !m.Init?
    ensures SameAnnounced(s, t)
  {
    if m.Report? && |m.buffer| >= 3 {
      WalkedSame(Record(s, m.buffer[1], m.buffer[2]), t);
    }
  }

  lemma {:induction false} StepTold(h: seq<Announced>, s: Session, m: Message, t: Session)
    requires Tells(h, s) && Step(s, m, t)
    ensures Tells(Extended(h, m), t)
  {
    if m.Init? {
      InitTold(h, s, m, t);
    } else {
      ReportSame(s, m, t);
      TellsSame(h, s, t);
    }
  }

  /**
    After every run each client holds the game, the addresses and the local address of its last
    message of each kind that took effect.
   */
  lemma {:induction false} RunTold(states: seq<Session>, messages: seq<Message>, k: nat)
    requires IsRun(states, messages) && k < |states|
    ensures Tells(Effective(messages[..k]), states[k])
  {
    if k > 0 {
      RunTold(states, messages, k - 1);
      assert messages[..k][..k - 1] == messages[..k - 1] && messages[..k][k - 1] == messages[k - 1];
      StepTold(Effective(messages[..k - 1]), states[k - 1], messages[k - 1], states[k]);
    }
  }

  /** A client is mapped exactly when it announced both kinds of address. */
  lemma {:induction false} MappedIff(states: seq<Session>, messages: seq<Message>, k: nat, id: byte)
    requires IsRun(states, messages) && k < |states| && id in states[k].peers
    ensures var h := Effective(messages[..k]);
            states[k].peers[id].Mapped() <==>
            && (exists a :: a in h && a.buffer[1] == id && a.buffer[0] != 0)
            && (exists a :: a in h && a.buffer[1] == id && (a.buffer[2] == 0 || a.buffer[0] == 0))
  {
    RunTold(states, messages, k);
    assert TellsOf(Effective(messages[..k]), id, states[k].peers[id]);
  }

  // ----- Connections and results -----

  /** Whom a client is connected to after some exchanges; without one of its own, to `before`. */
  function Partner(before: byte, pairs: seq<(byte, byte)>, id: byte): byte {
    if pairs == [] then before
    else
      var (a, b) := pairs[|pairs| - 1];
      if a == id then b else if b == id then a else Partner(before, pairs[..|pairs| - 1], id)
  }

  ghost predicate Involved(pairs: seq<(byte, byte)>, id: byte) {
    exists e :: e in pairs && (e.0 == id || e.1 == id)
  }

  /** A client differs by some exchanges only. */
  ghost predicate Led(was: Peer, pairs: seq<(byte, byte)>, now: Peer, id: byte) {
    && now.connecting == Partner(was.connecting, pairs, id)
    && (now.ack <==> was.ack && !Involved(pairs, id))
    && now.result == was.result
  }

  /** Client `id` differs only by the exchanges that `t` has more. */
  ghost predicate Exchanged(s: Session, t: Session, id: byte) {
    && s.exchanges <= t.exchanges && id in s.peers && id in t.peers
    && Led(s.peers[id], t.exchanges[|s.exchanges|..], t.peers[id], id)
  }

  lemma {:induction false} PairsMore(before: byte, pairs: seq<(byte, byte)>, a: byte, b: byte, id: byte)
    ensures Partner(before, pairs + [(a, b)], id) == if a == id then b else if b == id then a else Partner(before, pairs, id)
    ensures Involved(pairs + [(a, b)], id) <==> Involved(pairs, id) || a == id || b == id
  {
    var more := pairs + [(a, b)];
    assert more[..|more| - 1] == pairs;
    assert forall e :: e in more <==> e in pairs || e == (a, b);
    if a == id || b == id { assert (a, b) in more; }
  }

  lemma {:induction false} ExchangesMore(before: seq<(byte, byte)>, all: seq<(byte, byte)>, e: (byte, byte))
    requires before <= all
    ensures before <= all + [e] && (all + [e])[|before|..] == all[|before|..] + [e]
  {
  }

  lemma {:induction false} LedOn(was: Peer, pairs: seq<(byte, byte)>, now: Peer, id: byte, a: byte, b: byte)
    requires Led(was, pairs, now, id)
    ensures a == id ==> Led(was, pairs + [(a, b)], now.(connecting := b, ack := false), id)
    ensures b == id && a != id ==> Led(was, pairs + [(a, b)], now.(connecting := a, ack := false), id)
    ensures a != id && b != id ==> Led(was, pairs + [(a, b)], now, id)
  {
    PairsMore(was.connecting, pairs, a, b, id);
  }

  lemma {:induction false} ExchangeSets(t: Session, a: byte, b: byte, id: byte)
    requires a in t.peers && b in t.peers && id in t.peers && a != b
    ensures var p := Exchange(t, a, b).peers;
            && id in p && (a == id ==> p[id] == t.peers[id].(connecting := b, ack := false))
            && (b == id ==> p[id] == t.peers[id].(connecting := a, ack := false))
            && (a != id && b != id ==> p[id] == t.peers[id])
  {
  }

  lemma {:induction false} VisitExchanged(s: Session, t: Session, a: byte, b: byte, id: byte)
    requires a in t.peers && Exchanged(s, t, id)
    ensures Exchanged(s, VisitDestination(t, a, b), id)
  {
    if CanExchange(t, a, b) {
      var pairs := t.exchanges[|s.exchanges|..];
      ExchangesMore(s.exchanges, t.exchanges, (a, b));
      ExchangeSets(t, a, b, id);
      LedOn(s.peers[id], pairs, t.peers[id], id, a, b);
    }
  }

  lemma {:induction false} InnerWalkExchanged(s: Session, t: Session, a: byte, order: seq<byte>, id: byte)
    requires a in t.peers && Exchanged(s, t, id)
    ensures Exchanged(s, VisitDestinations(t, a, order), id)
  {
    if order != [] {
      var n := |order| - 1;
      InnerWalkExchanged(s, t, a, order[..n], id);
      VisitExchanged(s, VisitDestinations(t, a, order[..n]), a, order[n], id);
    }
  }

  lemma {:induction false} WalkExchanged(s: Session, senders: seq<byte>, orders: seq<seq<byte>>, id: byte)
    requires |senders| == |orders| && id in s.peers
    ensures Exchanged(s, VisitSenders(s, senders, orders), id)
  {
    if senders == [] {
      assert s.exchanges[|s.exchanges|..] == [];
    } else {
      var n := |senders| - 1;
      WalkExchanged(s, senders[..n], orders[..n], id);
      var u := VisitSenders(s, senders[..n], orders[..n]);
      if u.Available(senders[n]) { InnerWalkExchanged(s, u, senders[n], orders[n], id); }
    }
  }

  lemma {:induction false} WalkedExchanged(s: Session, t: Session, id: byte)
    requires (t == s || Walked(s, t)) && id in s.peers
    ensures Exchanged(s, t, id)
  {
    if t == s {
      assert s.exchanges[|s.exchanges|..] == [];
    } else {
      var senders, orders :| WalkOrder(s, senders, orders) && t == VisitSenders(s, senders, orders);
      WalkExchanged(s, senders, orders, id);
    }
  }

  /** What client `id` was before a message; a new one starts idle. */
  function Before(s: Session, id: byte): Peer {
    if id in s.peers then s.peers[id] else Peer(id, false, map[], "", [], "", [])
  }

  predicate Reports(m: Message, id: byte) {
    m.Report? && |m.buffer| >= 3 && m.buffer[1] == id
  }

  predicate Replies(m: Message, id: byte) {
    m.ConnectReply? && |m.buffer| >= 2 && m.buffer[1] == id
  }

  /**
    One message and the exchanges it leads to decide a client's connection: a report stores byte 2
    under the current peer and releases the client, an exchange connects it to the other side and
    waits for a new acknowledgement, and a connect reply is one.
   */
  lemma {:induction false} StepConnects(s: Session, m: Message, t: Session, id: byte)
    requires Step(s, m, t) && id in t.peers
    ensures s.exchanges <= t.exchanges
    ensures var was, now, pairs := Before(s, id), t.peers[id], t.exchanges[|s.exchanges|..];
            && now.connecting == Partner(if Reports(m, id) then id else was.connecting, pairs, id)
            && (now.ack <==> (was.ack || Replies(m, id)) && !Reports(m, id) && !Involved(pairs, id))
            && now.result == if Reports(m, id) && id in s.peers then was.result[was.connecting := m.buffer[2]] else was.result
  {
    var u := Base(s, m, t);
    WalkedExchanged(u, t, id);
  }

  /** The session that the walk of a message starts from. */
  lemma {:induction false} Base(s: Session, m: Message, t: Session) returns (u: Session)
    requires Step(s, m, t)
    ensures (t == u || Walked(u, t)) && u.exchanges == s.exchanges && u.peers.Keys == t.peers.Keys
    ensures forall id {:trigger u.peers[id]} :: id in u.peers ==>
              && u.peers[id].connecting == (if Reports(m, id) then id else Before(s, id).connecting)
              && (u.peers[id].ack <==> (Before(s, id).ack || Replies(m, id)) && !Reports(m, id))
              && u.peers[id].result == (if Reports(m, id) && id in s.peers then Before(s, id).result[Before(s, id).connecting := m.buffer[2]]
                                        else Before(s, id).result)
  {
    match m
    case Init(buffer, addr, written) =>
      var r := ParseInit(buffer);
      u := if r.None? || !written || !Admitted(s, r.value) then s else Register(s, r.value, addr);
    case ConnectReply(buffer) =>
      u := t;
    case Report(buffer) =>
      u := if |buffer| < 3 then s else Record(s, buffer[1], buffer[2]);
    if t != u {
      WalkedSame(u, t);
    }
  }

  /** A report is reported on once both sides have answered, as a success when both answers are 1. */
  lemma {:induction false} OutcomeIff(s: Session, index: byte, result: byte)
    requires index in s.peers
    ensures var t, other := Record(s, index, result), s.peers[index].connecting;
            && t.peers[index].result[other] == result
            && (PairOutcome(s, index, result).Some? <==> other in t.peers && index in t.peers[other].result)
            && (PairOutcome(s, index, result) == Some(true) <==>
                  other in t.peers && index in t.peers[other].result
                  && t.peers[index].result[other] == 1 && t.peers[other].result[index] == 1)
  {
  }
}
