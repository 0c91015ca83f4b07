/**
  The NATNEG pairing protocol on values: the clients of one session together with the history of
  connect-request exchanges, the pairing walk in an arbitrary map order, and the message handlers.
 */
module NatnegPairing {
  import opened Bytes

  /** The textual form of a peer's network address, which is never empty. */
  type Address = s: string | s != "" witness "?"

  const PORT_TYPE_GAME: byte := 0x00

  datatype Peer = Peer(
    connecting: byte,
    ack: bool,
    result: map<byte, byte>,
    negotiateIp: string,
    localIp: seq<byte>,
    serverIp: string,
    gameName: seq<byte>)
  {
    predicate Mapped() {
      negotiateIp != "" && serverIp != ""
    }
  }

  type Peers = map<byte, Peer>

  /** `exchanges` lists every (sender, destination) pair the walk has matched, oldest first. */
  datatype Session = Session(peers: Peers, exchanges: seq<(byte, byte)>) {
    predicate Available(id: byte) {
      id in peers && peers[id].Mapped() && peers[id].connecting == id
    }
  }

  const NEW_SESSION := Session(map[], [])

  // ----- The pairing walk -----

  predicate CanExchange(s: Session, a: byte, b: byte) {
    a != b && s.Available(b) && a !in s.peers[b].result
  }

  function Exchange(s: Session, a: byte, b: byte): Session
    requires a in s.peers && b in s.peers
  {
    var peers := s.peers[a := s.peers[a].(connecting := b, ack := false)];
    Session(peers[b := peers[b].(connecting := a, ack := false)], s.exchanges + [(a, b)])
  }

  function VisitDestination(s: Session, a: byte, b: byte): (t: Session)
    requires a in s.peers
    ensures t.peers.Keys == s.peers.Keys
  {
    if CanExchange(s, a, b) then Exchange(s, a, b) else s
  }

  /** The inner walk: the sender stays `a` even after it has been matched. */
  function VisitDestinations(s: Session, a: byte, order: seq<byte>): (t: Session)
    requires a in s.peers
    ensures t.peers.Keys == s.peers.Keys
  {
    if order == [] then s
    else VisitDestination(VisitDestinations(s, a, order[..|order| - 1]), a, order[|order| - 1])
  }

  function VisitSender(s: Session, a: byte, order: seq<byte>): (t: Session)
    ensures t.peers.Keys == s.peers.Keys
  {
    if s.Available(a) then VisitDestinations(s, a, order) else s
  }

  /** The outer walk: `orders[i]` is the order in which the i-th sender meets the clients. */
  function VisitSenders(s: Session, senders: seq<byte>, orders: seq<seq<byte>>): (t: Session)
    requires |senders| == |orders|
    ensures t.peers.Keys == s.peers.Keys
  {
    if senders == [] then s
    else
      var n := |senders| - 1;
      VisitSender(VisitSenders(s, senders[..n], orders[..n]), senders[n], orders[n])
  }

  ghost predicate Enumerates(order: seq<byte>, keys: set<byte>) {
    && (forall i, j :: 0 <= i < j < |order| ==> order[i] != order[j])
    && (forall k :: k in order <==> k in keys)
  }

  /** One complete walk over all clients, in some order that the map iteration chose. */
  ghost predicate WalkOrder(s: Session, senders: seq<byte>, orders: seq<seq<byte>>) {
    && |senders| == |orders|
    && Enumerates(senders, s.peers.Keys)
    && (forall i :: 0 <= i < |orders| ==> Enumerates(orders[i], s.peers.Keys))
  }

  lemma {:induction false} VisitOneMore(s: Session, a: byte, order: seq<byte>, b: byte)
    requires a in s.peers
    ensures VisitDestinations(s, a, order + [b]) == VisitDestination(VisitDestinations(s, a, order), a, b)
  {
    assert (order + [b])[..|order|] == order;
  }

  lemma {:induction false} VisitSendersOneMore(s: Session, senders: seq<byte>, orders: seq<seq<byte>>, a: byte, order: seq<byte>)
    requires |senders| == |orders|
    ensures VisitSenders(s, senders + [a], orders + [order]) == VisitSender(VisitSenders(s, senders, orders), a, order)
  {
    assert (senders + [a])[..|senders|] == senders && (orders + [order])[..|orders|] == orders;
  }

  lemma {:induction false} EnumerateOneMore(order: seq<byte>, seen: set<byte>, k: byte)
    requires Enumerates(order, seen) && k !in seen
    ensures Enumerates(order + [k], seen + {k})
  {
    assert k !in order;
  }

  ghost predicate Walked(s: Session, t: Session) {
    exists senders, orders :: WalkOrder(s, senders, orders) && t == VisitSenders(s, senders, orders)
  }

  // ----- Message handlers -----

  function CString(buffer: seq<byte>): Option<seq<byte>> {
    if buffer == [] then None
    else if buffer[0] == 0 then Some([])
    else match CString(buffer[1..]) case None => None case Some(rest) => Some([buffer[0]] + rest)
  }

  datatype InitRequest = InitRequest(
    portType: byte, index: byte, useGamePort: byte, localIp: seq<byte>, gameName: seq<byte>)

  /** `localIp` is empty when the announced port is zero. */
  function ParseInit(buffer: seq<byte>): Option<InitRequest> {
    if |buffer| < 10 then None
    else match CString(buffer[9..])
      case None => None
      case Some(gameName) =>
        if buffer[0] > 0x03 || buffer[2] > 1 || (buffer[2] == 0 && buffer[0] == PORT_TYPE_GAME) then None
        else
          var local := if buffer[7] == 0 && buffer[8] == 0 then [] else buffer[3..9];
          Some(InitRequest(buffer[0], buffer[1], buffer[2], local, gameName))
  }

  function NewPeer(index: byte): Peer {
    Peer(index, false, map[], "", [], "", [])
  }

  function Announce(p: Peer, r: InitRequest, addr: Address): Peer {
    Peer(p.connecting, p.ack, p.result,
         if r.portType != PORT_TYPE_GAME then addr else p.negotiateIp,
         if r.localIp != [] then r.localIp else p.localIp,
         if r.useGamePort == 0 || r.portType == PORT_TYPE_GAME then addr else p.serverIp,
         r.gameName)
  }

  /** A new client must name the game of every client already present. */
  predicate Admitted(s: Session, r: InitRequest) {
    r.index in s.peers || forall id :: id in s.peers ==> s.peers[id].gameName == r.gameName
  }

  function Register(s: Session, r: InitRequest, addr: Address): Session {
    var p := if r.index in s.peers then s.peers[r.index] else NewPeer(r.index);
    s.(peers := s.peers[r.index := Announce(p, r, addr)])
  }

  function Acknowledge(s: Session, index: byte): Session {
    if index in s.peers then s.(peers := s.peers[index := s.peers[index].(ack := true)]) else s
  }

  /** A report stores the result under the current peer and releases the client to idle. */
  function Record(s: Session, index: byte, result: byte): Session {
    if index in s.peers then
      var p := s.peers[index];
      s.(peers := s.peers[index := p.(result := p.result[p.connecting := result], connecting := index, ack := false)])
    else s
  }

  /** What a report from `index` lets the server log: nothing until the peer has also answered, then
      whether both sides said 1. */
  function PairOutcome(s: Session, index: byte, result: byte): Option<bool> {
    if index !in s.peers then None
    else
      var peers := Record(s, index, result).peers;
      var other := s.peers[index].connecting;
      if other in peers && index in peers[other].result
      then Some(result == 1 && peers[other].result[index] == 1)
      else None
  }

  /** `written` says whether the acknowledgement could be sent. */
  datatype Message =
    | Init(buffer: seq<byte>, addr: Address, written: bool)
    | ConnectReply(buffer: seq<byte>)
    | Report(buffer: seq<byte>)

  /** What one handler does to the session, run atomically under the session mutex. A message too
      short for an unchecked field access changes nothing. */
  ghost predicate Step(s: Session, m: Message, t: Session) {
    match m
    case Init(buffer, addr, written) =>
      var r := ParseInit(buffer);
      if r.None? || !written || !Admitted(s, r.value) then t == s
      else
        var u := Register(s, r.value, addr);
        if u.peers[r.value.index].Mapped() then Walked(u, t) else t == u
    case ConnectReply(buffer) =>
      t == if |buffer| < 2 then s else Acknowledge(s, buffer[1])
    case Report(buffer) =>
      if |buffer| < 3 then t == s else Walked(Record(s, buffer[1], buffer[2]), t)
  }

  ghost predicate IsRun(states: seq<Session>, messages: seq<Message>) {
    && |states| == |messages| + 1
    && states[0] == NEW_SESSION
    && (forall i :: 0 <= i < |messages| ==> Step(states[i], messages[i], states[i + 1]))
  }

  // ----- Invariants -----

  ghost predicate LinkedAt(s: Session, id: byte) {
    id in s.peers ==>
      && s.peers[id].connecting in s.peers
      && s.peers[id].result.Keys <= s.peers.Keys
      && (s.peers[id].connecting != id ==> s.peers[id].Mapped())
  }

  /** Peers and result keys name existing clients, and a client busy with another one is mapped. */
  ghost predicate WellLinked(s: Session) {
    forall id {:trigger LinkedAt(s, id)} :: LinkedAt(s, id)
  }

  /** The destination has answered the sender or is still connecting to it. */
  ghost predicate Tracked(s: Session, e: (byte, byte)) {
    && e.0 != e.1 && e.0 in s.peers && e.1 in s.peers
    && (e.0 in s.peers[e.1].result || s.peers[e.1].connecting == e.0)
  }

  ghost predicate Inv(s: Session) {
    && WellLinked(s)
    && (forall e :: e in s.exchanges ==> Tracked(s, e))
    && (forall i, j :: 0 <= i < j < |s.exchanges| ==> s.exchanges[i] != s.exchanges[j])
  }

  /** No possible pair is left undone. */
  ghost predicate Settled(s: Session) {
    forall a, b :: a != b && s.Available(a) && s.Available(b) ==> a in s.peers[b].result
  }

  /** A sender's own pointer carries no obligation: everything sent to it has been answered. */
  ghost predicate Released(s: Session, a: byte) {
    && a in s.peers && s.peers[a].Mapped()
    && (forall x :: (x, a) in s.exchanges ==> x in s.peers[a].result)
  }

  // ----- The walk keeps the invariant -----

  lemma {:induction false} VisitDestinationKeeps(s: Session, a: byte, b: byte)
    requires Inv(s) && Released(s, a)
    ensures var t := VisitDestination(s, a, b); Inv(t) && Released(t, a)
  {
    if CanExchange(s, a, b) {
      var t := Exchange(s, a, b);
      forall e | e in t.exchanges ensures Tracked(t, e) {
        if e != (a, b) { assert e in s.exchanges && Tracked(s, e); }
      }
      assert (a, b) !in s.exchanges;
      forall id ensures LinkedAt(t, id) { assert LinkedAt(s, id); }
    }
  }

  lemma {:induction false} VisitDestinationsKeeps(s: Session, a: byte, order: seq<byte>)
    requires Inv(s) && Released(s, a)
    ensures var t := VisitDestinations(s, a, order); Inv(t) && Released(t, a)
  {
    if order != [] {
      var n := |order| - 1;
      VisitDestinationsKeeps(s, a, order[..n]);
      VisitDestinationKeeps(VisitDestinations(s, a, order[..n]), a, order[n]);
    }
  }

  lemma {:induction false} VisitSendersKeeps(s: Session, senders: seq<byte>, orders: seq<seq<byte>>)
    requires |senders| == |orders| && Inv(s)
    ensures Inv(VisitSenders(s, senders, orders))
  {
    if senders != [] {
      var n := |senders| - 1;
      VisitSendersKeeps(s, senders[..n], orders[..n]);
      var u := VisitSenders(s, senders[..n], orders[..n]);
      if u.Available(senders[n]) {
        assert forall x :: (x, senders[n]) in u.exchanges ==> Tracked(u, (x, senders[n]));
        VisitDestinationsKeeps(u, senders[n], orders[n]);
      }
    }
  }

  // ----- The walk leaves no pair undone -----

  /** What a walk never changes: a client available afterwards was available throughout, with the
      same results; histories only grow. */
  ghost predicate Narrowed(s: Session, t: Session) {
    && s.peers.Keys == t.peers.Keys
    && s.exchanges <= t.exchanges
    && (forall id :: id in s.peers ==> t.peers[id].result == s.peers[id].result)
    && (forall id :: t.Available(id) ==> s.Available(id))
  }

  lemma {:induction false} VisitDestinationsNarrows(s: Session, a: byte, order: seq<byte>)
    requires a in s.peers
    ensures Narrowed(s, VisitDestinations(s, a, order))
  {
    if order != [] { VisitDestinationsNarrows(s, a, order[..|order| - 1]); }
  }

  lemma {:induction false} VisitSendersNarrows(s: Session, senders: seq<byte>, orders: seq<seq<byte>>)
    requires |senders| == |orders|
    ensures Narrowed(s, VisitSenders(s, senders, orders))
  {
    if senders != [] {
      var n := |senders| - 1;
      VisitSendersNarrows(s, senders[..n], orders[..n]);
      var u := VisitSenders(s, senders[..n], orders[..n]);
      if u.Available(senders[n]) { VisitDestinationsNarrows(u, senders[n], orders[n]); }
    }
  }

  /** A destination still available after the inner walk had already answered the sender. */
  lemma {:induction false} InnerWalkCovers(s: Session, a: byte, order: seq<byte>, b: byte)
    requires a in s.peers && b in order && a != b
    requires VisitDestinations(s, a, order).Available(b)
    ensures a in s.peers[b].result
  {
    var n := |order| - 1;
    VisitDestinationsNarrows(s, a, order[..n]);
    if order[n] != b { InnerWalkCovers(s, a, order[..n], b); }
  }

  lemma {:induction false} WalkCovers(s: Session, senders: seq<byte>, orders: seq<seq<byte>>, a: byte, b: byte)
    requires |senders| == |orders| && a in senders && a != b
    requires forall i :: 0 <= i < |orders| ==> b in orders[i]
    requires var t := VisitSenders(s, senders, orders); t.Available(a) && t.Available(b)
    ensures a in s.peers[b].result
  {
    var n := |senders| - 1;
    VisitSendersNarrows(s, senders[..n], orders[..n]);
    var u := VisitSenders(s, senders[..n], orders[..n]);
    if u.Available(senders[n]) { VisitDestinationsNarrows(u, senders[n], orders[n]); }
    if senders[n] == a { InnerWalkCovers(u, a, orders[n], b); } else { WalkCovers(s, senders[..n], orders[..n], a, b); }
  }

  /** One complete walk, in whatever order, keeps the invariant and settles the session. */
  lemma {:induction false} WalkSettles(s: Session, t: Session)
    requires Inv(s) && Walked(s, t)
    ensures Inv(t) && Settled(t) && Narrowed(s, t)
  {
    var senders, orders :| WalkOrder(s, senders, orders) && t == VisitSenders(s, senders, orders);
    VisitSendersKeeps(s, senders, orders);
    VisitSendersNarrows(s, senders, orders);
    forall a, b | a != b && t.Available(a) && t.Available(b) ensures a in t.peers[b].result {
      WalkCovers(s, senders, orders, a, b);
    }
  }

  // ----- Whole runs -----

  lemma {:induction false} RegisterKeeps(s: Session, r: InitRequest, addr: Address)
    requires Inv(s)
    ensures Inv(Register(s, r, addr))
  {
    var t := Register(s, r, addr);
    forall e | e in t.exchanges ensures Tracked(t, e) { assert Tracked(s, e); }
    forall id ensures LinkedAt(t, id) { assert LinkedAt(s, id); }
  }

  lemma {:induction false} RecordKeeps(s: Session, index: byte, result: byte)
    requires Inv(s)
    ensures Inv(Record(s, index, result))
  {
    var t := Record(s, index, result);
    forall e | e in t.exchanges ensures Tracked(t, e) { assert Tracked(s, e); }
    forall id ensures LinkedAt(t, id) { assert LinkedAt(s, id); }
  }

  lemma {:induction false} AcknowledgeKeeps(s: Session, index: byte)
    requires Inv(s) && Settled(s)
    ensures Inv(Acknowledge(s, index)) && Settled(Acknowledge(s, index))
  {
    var t := Acknowledge(s, index);
    assert forall id :: t.Available(id) ==> s.Available(id);
    forall e | e in t.exchanges ensures Tracked(t, e) { assert Tracked(s, e); }
    forall id ensures LinkedAt(t, id) { assert LinkedAt(s, id); }
  }

  /** Every handler keeps both properties and never forgets an exchange. */
  lemma {:induction false} StepKeeps(s: Session, m: Message, t: Session)
    requires Inv(s) && Settled(s) && Step(s, m, t)
    ensures Inv(t) && Settled(t) && s.exchanges <= t.exchanges && s.peers.Keys <= t.peers.Keys
  {
    match m
    case Init(buffer, addr, written) =>
      var r := ParseInit(buffer);
      if r.Some? && written && Admitted(s, r.value) {
        RegisterKeeps(s, r.value, addr);
        var u := Register(s, r.value, addr);
        if u.peers[r.value.index].Mapped() {
          WalkSettles(u, t);
        } else {
          forall a, b | a != b && t.Available(a) && t.Available(b) ensures a in t.peers[b].result {
            assert s.Available(a) && s.Available(b);
          }
        }
      }
    case ConnectReply(buffer) =>
      if |buffer| >= 2 { AcknowledgeKeeps(s, buffer[1]); }
    case Report(buffer) =>
      if |buffer| >= 3 {
        RecordKeeps(s, buffer[1], buffer[2]);
        WalkSettles(Record(s, buffer[1], buffer[2]), t);
      }
  }

  lemma {:induction false} RunKeeps(states: seq<Session>, messages: seq<Message>, k: nat)
    requires IsRun(states, messages) && k < |states|
    ensures Inv(states[k]) && Settled(states[k])
  {
    if k > 0 {
      RunKeeps(states, messages, k - 1);
      StepKeeps(states[k - 1], messages[k - 1], states[k]);
    }
  }

  ghost function OrderedPairs<T>(keys: set<T>): set<(T, T)> {
    set a, b | a in keys && b in keys && a != b :: (a, b)
  }

  lemma {:induction false} CountTagged<T>(keys: set<T>, tag: T)
    ensures |set x | x in keys :: (x, tag)| == |keys|
    ensures |set x | x in keys :: (tag, x)| == |keys|
  {
    if keys != {} {
      var y :| y in keys;
      var rest := keys - {y};
      CountTagged(rest, tag);
      assert (set x | x in keys :: (x, tag)) == (set x | x in rest :: (x, tag)) + {(y, tag)};
      assert (set x | x in keys :: (tag, x)) == (set x | x in rest :: (tag, x)) + {(tag, y)};
    }
  }

  lemma {:induction false} SplitPairs<T>(rest: set<T>, k: T)
    requires k !in rest
    ensures |OrderedPairs(rest + {k})| == |OrderedPairs(rest)| + |rest| + |rest|
  {
    CountTagged(rest, k);
    var ins, outs := set x | x in rest :: (x, k), set x | x in rest :: (k, x);
    forall p ensures p in OrderedPairs(rest + {k}) <==> p in OrderedPairs(rest) + ins + outs {
      assert p == (p.0, p.1);
    }
    assert OrderedPairs(rest + {k}) == OrderedPairs(rest) + ins + outs;
    assert OrderedPairs(rest) !! ins && (OrderedPairs(rest) + ins) !! outs;
  }

  lemma {:induction false} CountPairs<T>(keys: set<T>)
    ensures |OrderedPairs(keys)| == |keys| * (|keys| - 1)
  {
    if k :| k in keys {
      var rest := keys - {k};
      CountPairs(rest);
      SplitPairs(rest, k);
      assert keys == rest + {k};
      SquareStep(|rest|);
    } else {
      assert OrderedPairs(keys) == {};
    }
  }

  lemma {:induction false} SquareStep(n: nat)
    ensures (n + 1) * n == n * (n - 1) + n + n
  {
  }

  lemma {:induction false} DistinctWithin<T>(q: seq<T>, s: set<T>)
    requires forall i, j :: 0 <= i < j < |q| ==> q[i] != q[j]
    requires forall x :: x in q ==> x in s
    ensures |q| <= |s|
  {
    if q != [] {
      var n := |q| - 1;
      DistinctWithin(q[..n], s - {q[n]});
    }
  }

  /** Over every run, each ordered pair is exchanged at most once, so with n clients there are at
      most n(n-1) exchanges; each past exchange is answered or still in progress; and between
      handlers any two available clients have answered each other. */
  lemma {:induction false} RunSafety(states: seq<Session>, messages: seq<Message>, k: nat)
    requires IsRun(states, messages) && k < |states|
    ensures var s := states[k]; var n := |s.peers|;
            && |s.exchanges| <= n * (n - 1)
            && (forall i, j :: 0 <= i < j < |s.exchanges| ==> s.exchanges[i] != s.exchanges[j])
            && (forall e :: e in s.exchanges ==> Tracked(s, e))
            && WellLinked(s)
            && Settled(s)
  {
    RunKeeps(states, messages, k);
    var s := states[k];
    forall e | e in s.exchanges ensures e in OrderedPairs(s.peers.Keys) { assert Tracked(s, e); }
    DistinctWithin(s.exchanges, OrderedPairs(s.peers.Keys));
    CountPairs(s.peers.Keys);
    assert |s.peers.Keys| == |s.peers|;
  }

  /** Along a run the history only grows: an exchange is never retracted or reordered. */
  lemma {:induction false} RunHistoryGrows(states: seq<Session>, messages: seq<Message>, j: nat, k: nat)
    requires IsRun(states, messages) && j <= k < |states|
    ensures states[j].exchanges <= states[k].exchanges
  {
    if j < k {
      RunHistoryGrows(states, messages, j, k - 1);
      RunKeeps(states, messages, k - 1);
      StepKeeps(states[k - 1], messages[k - 1], states[k]);
    }
  }
}
