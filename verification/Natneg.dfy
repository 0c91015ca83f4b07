/**
  The NATNEG sessions as the server holds them: client records updated in place, one session per
  cookie, and the table of open sessions. Every handler is proved against the step relation of
  NatnegPairing, whose invariants over whole runs therefore hold of the objects.
 */
module Natneg {
  import opened Bytes
  import opened NatnegPairing

  class NatnegClient {
    const cookie: uint32
    const index: byte
    var connectingIndex: byte
    var connectAck: bool
    var result: map<byte, byte>
    var negotiateIp: string
    var localIp: seq<byte>
    var serverIp: string
    var gameName: seq<byte>

    constructor (cookie: uint32, index: byte)
      ensures this.cookie == cookie && this.index == index && State() == NewPeer(index)
    {
      this.cookie, this.index, connectingIndex, connectAck := cookie, index, index, false;
      result, negotiateIp, localIp, serverIp, gameName := map[], "", [], "", [];
    }

    function State(): Peer
      reads this
    {
      Peer(connectingIndex, connectAck, result, negotiateIp, localIp, serverIp, gameName)
    }

    predicate IsMapped()
      reads this
    {
      negotiateIp != "" && serverIp != ""
    }

    method Announce(r: InitRequest, addr: Address)
      modifies this
      ensures State() == NatnegPairing.Announce(old(State()), r, addr)
    {
      gameName := r.gameName;
      if r.portType != PORT_TYPE_GAME {
        negotiateIp := addr;
      }
      if r.localIp != [] {
        localIp := r.localIp;
      }
      if r.useGamePort == 0 || r.portType == PORT_TYPE_GAME {
        serverIp := addr;
      }
    }
  }

  /** Crashed: the message is too short for an unchecked field access. */
  datatype Outcome = Handled | Rejected | Crashed | Reported(succeeded: bool)

  class NatnegSession {
    var open: bool
    const version: byte
    const cookie: uint32
    var clients: map<byte, NatnegClient>
    ghost var exchanges: seq<(byte, byte)>

    constructor (cookie: uint32, version: byte)
      ensures this.cookie == cookie && this.version == version && open && clients == map[]
      ensures Valid() && View() == NEW_SESSION
    {
      open, this.cookie, this.version, clients, exchanges := true, cookie, version, map[], [];
    }

    /** Each client is stored under its own index, so distinct entries are distinct objects. */
    ghost predicate Stored()
      reads this, clients.Values
    {
      forall id :: id in clients ==> clients[id].index == id && clients[id].cookie == cookie
    }

    ghost function View(): Session
      reads this, clients.Values
    {
      Session(map id | id in clients :: clients[id].State(), exchanges)
    }

    ghost predicate Valid()
      reads this, clients.Values
    {
      Stored() && Inv(View()) && Settled(View())
    }

    method Pair(sender: NatnegClient, destination: NatnegClient)
      requires Stored() && sender.index != destination.index
      requires sender.index in clients && clients[sender.index] == sender
      requires destination.index in clients && clients[destination.index] == destination
      modifies `exchanges, sender, destination
      ensures Stored() && View() == Exchange(old(View()), sender.index, destination.index)
    {
      ghost var before := View();
      sender.connectingIndex := destination.index;
      sender.connectAck := false;
      destination.connectingIndex := sender.index;
      destination.connectAck := false;
      exchanges := exchanges + [(sender.index, destination.index)];
      ExchangedPeers(before, View(), sender.index, destination.index);
    }

    /** One turn of the inner loop. */
    method MatchOne(id: byte, destId: byte)
      requires Stored() && id in clients && destId in clients
      modifies `exchanges, clients.Values
      ensures Stored() && View() == VisitDestination(old(View()), id, destId)
    {
      var destination := clients[destId];
      if id != destId && destination.IsMapped() && destination.connectingIndex == destId && id !in destination.result {
        Pair(clients[id], destination);
      }
    }

    /** The inner loop for one sender that the outer loop found idle. */
    method MatchSender(id: byte) returns (ghost order: seq<byte>)
      requires Stored() && id in clients
      modifies `exchanges, clients.Values
      ensures Stored() && Enumerates(order, clients.Keys)
      ensures View() == VisitDestinations(old(View()), id, order)
    {
      order := [];
      var todo := clients.Keys;
      while todo != {}
        invariant Stored()
        invariant todo <= clients.Keys && Enumerates(order, clients.Keys - todo)
        invariant View() == VisitDestinations(old(View()), id, order)
      {
        var destId :| destId in todo;
        EnumerateOneMore(order, clients.Keys - todo, destId);
        todo := todo - {destId};
        MatchOne(id, destId);
        VisitOneMore(old(View()), id, order, destId);
        order := order + [destId];
        assert clients.Keys - todo == clients.Keys - (todo + {destId}) + {destId};
      }
    }

    method VisitClient(id: byte) returns (ghost order: seq<byte>)
      requires Stored() && id in clients
      modifies `exchanges, clients.Values
      ensures Stored() && Enumerates(order, clients.Keys)
      ensures View() == VisitSender(old(View()), id, order)
    {
      if clients[id].IsMapped() && clients[id].connectingIndex == id {
        order := MatchSender(id);
      } else {
        order := Enumerate(clients.Keys);
      }
    }

    method SendConnectRequests()
      requires Stored()
      modifies `exchanges, clients.Values
      ensures Stored() && Walked(old(View()), View())
    {
      ghost var senders: seq<byte>, orders: seq<seq<byte>> := [], [];
      var todo := clients.Keys;
      while todo != {}
        invariant Stored()
        invariant todo <= clients.Keys && Enumerates(senders, clients.Keys - todo)
        invariant |orders| == |senders| && forall i :: 0 <= i < |orders| ==> Enumerates(orders[i], clients.Keys)
        invariant View() == VisitSenders(old(View()), senders, orders)
      {
        var id :| id in todo;
        EnumerateOneMore(senders, clients.Keys - todo, id);
        assert clients.Keys - (todo - {id}) == clients.Keys - todo + {id};
        todo := todo - {id};
        ghost var order := VisitClient(id);
        VisitSendersOneMore(old(View()), senders, orders, id, order);
        senders, orders := senders + [id], orders + [order];
      }
      assert clients.Keys == old(View()).peers.Keys;
      assert WalkOrder(old(View()), senders, orders);
    }

    /** The client a request speaks for, created on its first request; null when a new client names
        another game. */
    method FindClient(r: InitRequest) returns (sender: NatnegClient?)
      requires Stored()
      modifies `clients
      ensures Stored() && (sender == null <==> !Admitted(old(View()), r))
      ensures sender == null ==> clients == old(clients)
      ensures sender != null ==>
                && clients == old(clients)[r.index := sender] && (fresh(sender) || clients == old(clients))
                && sender.State() == (if r.index in old(clients) then old(View()).peers[r.index] else NewPeer(r.index))
                && View().peers == old(View()).peers[r.index := sender.State()]
    {
      if r.index in clients {
        return clients[r.index];
      }
      if id :| id in clients && clients[id].gameName != r.gameName {
        assert View().peers[id].gameName != r.gameName;
        return null;
      }
      sender := new NatnegClient(cookie, r.index);
      clients := clients[r.index := sender];
    }

    /** Creates or updates the client a request speaks for; null when it is not admitted. */
    method Register(r: InitRequest, addr: Address) returns (sender: NatnegClient?)
      requires Stored()
      modifies `clients, clients.Values
      ensures Stored() && fresh(clients.Values - old(clients.Values))
      ensures sender == null <==> !Admitted(old(View()), r)
      ensures sender == null ==> View() == old(View())
      ensures sender != null ==>
                r.index in clients && clients[r.index] == sender && View() == NatnegPairing.Register(old(View()), r, addr)
    {
      ghost var before := View();
      sender := FindClient(r);
      if sender != null {
        ghost var found := View();
        AnnounceTo(sender, r, addr);
        Overwritten(before.peers, r.index, found.peers[r.index], sender.State());
      }
    }

    method AnnounceTo(sender: NatnegClient, r: InitRequest, addr: Address)
      requires Stored() && r.index in clients && clients[r.index] == sender
      modifies sender
      ensures Stored() && sender.State() == Announce(old(sender.State()), r, addr)
      ensures View().peers == old(View()).peers[r.index := sender.State()]
    {
      sender.Announce(r, addr);
    }

    method HandleInit(buffer: seq<byte>, addr: Address, written: bool) returns (outcome: Outcome)
      requires Valid()
      modifies `clients, `exchanges, clients.Values
      ensures Valid() && fresh(clients.Values - old(clients.Values))
      ensures Step(old(View()), Init(buffer, addr, written), View())
      ensures outcome.Handled? || (outcome.Rejected? && View() == old(View()))
    {
      ghost var before := View();
      var parsed := ParseInit(buffer);
      if parsed.None? || !written {
        return Rejected;
      }
      var sender := Register(parsed.value, addr);
      if sender == null {
        return Rejected;
      }
      if sender.IsMapped() {
        SendConnectRequests();
      }
      StepKeeps(before, Init(buffer, addr, written), View());
      return Handled;
    }

    method HandleConnectReply(buffer: seq<byte>) returns (outcome: Outcome)
      requires Valid()
      modifies clients.Values
      ensures Valid() && Step(old(View()), ConnectReply(buffer), View())
      ensures outcome == if |buffer| < 2 then Crashed else Handled
    {
      if |buffer| < 2 {
        return Crashed;
      }
      ghost var before := View();
      if buffer[1] in clients {
        clients[buffer[1]].connectAck := true;
      }
      assert View().peers == Acknowledge(before, buffer[1]).peers;
      AcknowledgeKeeps(before, buffer[1]);
      return Handled;
    }

    /** A pair is reported on once both sides have answered, as a success when both said 1. */
    method HandleReport(buffer: seq<byte>) returns (outcome: Outcome)
      requires Valid()
      modifies `exchanges, clients.Values
      ensures Valid() && Step(old(View()), Report(buffer), View())
      ensures outcome.Rejected? <==> |buffer| < 2
      ensures outcome.Crashed? <==> |buffer| == 2
      ensures |buffer| >= 3 ==>
                outcome == match PairOutcome(old(View()), buffer[1], buffer[2])
                           case None => Handled
                           case Some(succeeded) => Reported(succeeded)
    {
      if |buffer| < 2 {
        return Rejected;
      }
      if |buffer| == 2 {
        return Crashed;
      }
      ghost var before := View();
      var clientIndex, result := buffer[1], buffer[2];
      outcome := Handled;
      if clientIndex in clients {
        var client := clients[clientIndex];
        assert LinkedAt(before, clientIndex);
        client.result := client.result[client.connectingIndex := result];
        var connecting := clients[client.connectingIndex];
        client.connectingIndex := clientIndex;
        client.connectAck := false;
        if clientIndex in connecting.result {
          var otherResult := connecting.result[clientIndex];
          if otherResult != 1 {
            result := otherResult;
          }
          outcome := Reported(result == 1);
        }
      }
      assert View().peers == Record(before, buffer[1], buffer[2]).peers;
      SendConnectRequests();
      StepKeeps(before, Report(buffer), View());
    }
  }

  lemma {:induction false} Overwritten<K, V>(m: map<K, V>, k: K, first: V, second: V)
    ensures m[k := first][k := second] == m[k := second]
  {
  }

  lemma {:induction false} ExchangedPeers(s: Session, t: Session, a: byte, b: byte)
    requires a in s.peers && b in s.peers && a != b && t.peers.Keys == s.peers.Keys
    requires t.peers[a] == s.peers[a].(connecting := b, ack := false) && t.peers[b] == s.peers[b].(connecting := a, ack := false)
    requires forall c :: c in s.peers && c != a && c != b ==> t.peers[c] == s.peers[c]
    requires t.exchanges == s.exchanges + [(a, b)]
    ensures t == Exchange(s, a, b)
  {
    assert t.peers == Exchange(s, a, b).peers;
  }

  ghost method Enumerate(keys: set<byte>) returns (order: seq<byte>)
    ensures Enumerates(order, keys)
  {
    order := [];
    var todo := keys;
    while todo != {}
      invariant todo <= keys && Enumerates(order, keys - todo)
    {
      var k :| k in todo;
      todo := todo - {k};
      order := order + [k];
    }
  }

  /** The table of sessions. `created` are all sessions ever made; each has one pending timer. */
  class NatnegServer {
    var sessions: map<uint32, NatnegSession>
    ghost var created: set<NatnegSession>
    ghost var timers: set<NatnegSession>

    constructor ()
      ensures Valid() && fresh(this) && created == {}
    {
      sessions, created, timers := map[], {}, {};
    }

    /** A session is open exactly when it is the table entry for its cookie. */
    ghost predicate Valid()
      reads this, created
    {
      && timers <= created && sessions.Values <= created
      && (forall c :: c in sessions ==> sessions[c].cookie == c)
      && (forall s :: s in created ==> (s.open <==> s.cookie in sessions && sessions[s.cookie] == s))
      && (forall s :: s in timers ==> s.open)
    }

    method FindSession(cookie: uint32, version: byte) returns (session: NatnegSession)
      requires Valid()
      modifies this
      ensures Valid() && session.open && session.cookie == cookie
      ensures created == old(created) + {session} && timers == old(timers) + (created - old(created))
      ensures session in old(created) || (fresh(session) && session.Valid() && session.View() == NEW_SESSION)
      ensures cookie in old(sessions) <==> session in old(created)
      ensures sessions == old(sessions)[cookie := session]
    {
      if cookie in sessions {
        session := sessions[cookie];
      } else {
        session := new NatnegSession(cookie, version);
        sessions := sessions[cookie := session];
        created, timers := created + {session}, timers + {session};
      }
    }

    /** Runs when the timer of a session fires; the shutdown flag makes it a no-op. */
    method CloseSession(session: NatnegSession, inShutdown: bool)
      requires Valid() && session in timers
      modifies this`sessions, this`timers, session`open
      ensures Valid() && timers == old(timers) - {session}
      ensures inShutdown ==> session.open && sessions == old(sessions)
      ensures !inShutdown ==> !session.open && sessions == old(sessions) - {session.cookie}
    {
      timers := timers - {session};
      if inShutdown {
        return;
      }
      session.open := false;
      sessions := sessions - {session.cookie};
    }
  }
}
