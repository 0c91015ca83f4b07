/**
  Reading from a console TLS connection: records arrive in fragments, are decrypted by a stream
  cipher, and are handed out through buffers of any size (section 6.2.1 of RFC 2246).
 */
module TlsRead {
  import opened Bytes
  import opened Keystream

  datatype Version = Ssl30 | Tls10

  const HEADER: nat := 5
  const MAC: nat := 16
  const MAX_RECORD: nat := 0x1000
  const APPLICATION: byte := 0x17
  const ALERT: byte := 0x15

  // ----- One record -----

  /** What the front of the wire holds; `Overflowing` is a length that wraps when the header is added. */
  datatype Head = Short | BadType | BadVersion | BadLength | Overflowing | Record(kind: byte, length: nat)

  function Length(wire: seq<byte>): uint16
    requires |wire| >= HEADER
  {
    (wire[3] as int) * 0x100 + wire[4]
  }

  predicate VersionOk(v: Version, major: byte, minor: byte) {
    major == 3 && (v == Tls10 ==> minor == 1) && (v == Ssl30 ==> minor == 0)
  }

  predicate LengthOk(length: uint16) {
    length >= 1 + MAC && ((length as int) + HEADER) % 0x1_0000 <= MAX_RECORD
  }

  /** What is wrong with the header, if anything. */
  function Fault(v: Version, wire: seq<byte>): (h: Head)
    requires |wire| >= HEADER
    ensures !h.Record?
  {
    if wire[0] < ALERT || wire[0] > APPLICATION then BadType
    else if !VersionOk(v, wire[1], wire[2]) then BadVersion
    else if !LengthOk(Length(wire)) then BadLength
    else Short
  }

  function HeadOf(v: Version, wire: seq<byte>): (h: Head)
    ensures h.Record? ==> HEADER + h.length <= |wire| && 1 + MAC <= h.length && h.length + HEADER < 0x1_0000
  {
    if |wire| < HEADER then Short
    else
      var fault, length := Fault(v, wire), Length(wire) as int;
      if fault != Short then fault
      else if |wire| < HEADER + length then Short
      else if length + HEADER >= 0x1_0000 then Overflowing
      else Record(wire[0], length)
  }

  // ----- One read -----

  /** Bytes decrypted but not handed out yet, bytes still encrypted, and the place in the keystream. */
  datatype Conn = Conn(decoded: seq<byte>, wire: seq<byte>, position: nat)

  datatype Outcome = Got(bytes: seq<byte>) | NetworkError | Rejected(head: Head) | Panicked | Closed | NotApplication

  function Min(a: nat, b: nat): nat {
    if a <= b then a else b
  }

  function HandOut(decoded: seq<byte>, room: nat): seq<byte> {
    decoded[..Min(room, |decoded|)]
  }

  function Keep(decoded: seq<byte>, room: nat): seq<byte> {
    decoded[Min(room, |decoded|)..]
  }

  /** The decrypted record without its message authentication code. */
  function Payload(key: nat -> byte, position: nat, wire: seq<byte>, length: nat): (p: seq<byte>)
    requires HEADER + length <= |wire| && MAC <= length
    ensures |p| == length - MAC
  {
    Flip(key, position, wire[HEADER..HEADER + length])[..length - MAC]
  }

  /** A record that carries no application data is decrypted in place and stays at the front. */
  function Refuse(key: nat -> byte, c: Conn, kind: byte, length: nat): (Conn, Outcome)
    requires HEADER + length <= |c.wire| && 1 + MAC <= length
  {
    var plain := Flip(key, c.position, c.wire[HEADER..HEADER + length]);
    (Conn([], c.wire[..HEADER] + plain + c.wire[HEADER + length..], c.position + length),
     if kind == ALERT || plain[0] == 1 || plain[1] == 0 then Closed else NotApplication)
  }

  function ReadRecord(key: nat -> byte, c: Conn, kind: byte, length: nat, room: nat): (Conn, Outcome)
    requires HEADER + length <= |c.wire| && 1 + MAC <= length
  {
    if kind != APPLICATION then Refuse(key, c, kind, length)
    else
      var payload := Payload(key, c.position, c.wire, length);
      (Conn(Keep(payload, room), c.wire[HEADER + length..], c.position + length), Got(HandOut(payload, room)))
  }

  function ReadOnce(key: nat -> byte, v: Version, c: Conn, room: nat): (Conn, Outcome) {
    if c.decoded != [] then (c.(decoded := Keep(c.decoded, room)), Got(HandOut(c.decoded, room)))
    else
      var head := HeadOf(v, c.wire);
      match head
      case Short => (c, NetworkError)
      case Overflowing => (c, Panicked)
      case Record(kind, length) => ReadRecord(key, c, kind, length, room)
      case _ => (c, Rejected(head))
  }

  // ----- The five header bytes -----

  /** What a read sees at the front of the wire, by the bytes of the header; five bytes are needed for a verdict. */
  lemma {:induction false} HeadMeans(v: Version, kind: byte, major: byte, minor: byte, high: byte, low: byte, body: seq<byte>)
    ensures var length: nat := high as int * 0x100 + low;
            HeadOf(v, [kind, major, minor, high, low] + body) ==
              if kind !in [0x15, 0x16, 0x17] then BadType
              else if [major, minor] != (if v == Tls10 then [3, 1] else [3, 0]) then BadVersion
              else if length < 17 || 4091 < length < 65531 then BadLength
              else if |body| < length then Short
              else if length >= 65531 then Overflowing
              else Record(kind, length)
  {
    var wire := [kind, major, minor, high, low] + body;
    assert wire[0] == kind && wire[1] == major && wire[2] == minor && wire[3] == high && wire[4] == low;
    assert [major, minor][0] == major && [major, minor][1] == minor;
  }

  lemma {:induction false} TooShort(v: Version, wire: seq<byte>)
    requires |wire| < 5
    ensures HeadOf(v, wire) == Short
  {
  }

  /** A record without application data closes the connection when it is an alert or its first two bytes say so. */
  lemma {:induction false} RefusalMeans(key: nat -> byte, v: Version, c: Conn, kind: byte, plain: seq<byte>, rest: seq<byte>, room: nat)
    requires c.decoded == [] && kind in [0x15, 0x16] && 17 <= |plain| <= 4091
    requires var header := [kind, 3, if v == Tls10 then 1 else 0, |plain| / 0x100, |plain| % 0x100];
             c.wire == header + (Flip(key, c.position, plain) + rest)
    ensures ReadOnce(key, v, c, room).1 == if kind == 0x15 || plain[0] == 1 || plain[1] == 0 then Closed else NotApplication
    ensures var c' := ReadOnce(key, v, c, room).0;
            c'.wire == c.wire[..5] + plain + rest && c'.decoded == [] && c'.position == c.position + |plain|
  {
    var encoded, n := Flip(key, c.position, plain), |plain|;
    HeadMeans(v, kind, 3, if v == Tls10 then 1 else 0, n / 0x100, n % 0x100, encoded + rest);
    FlipTwice(key, c.position, plain);
    assert HeadOf(v, c.wire) == Record(kind, n);
    assert c.wire[5..5 + n] == encoded && c.wire[5 + n..] == rest;
  }

  /** Nothing is handed out any more once a record without application data is at the front. */
  predicate Refusing(v: Version, c: Conn) {
    c.decoded == [] && HeadOf(v, c.wire).Record? && HeadOf(v, c.wire).kind != 0x17
  }

  /** Such a record is decrypted anew by each read, and stays where it is for good. */
  lemma {:induction false} RefusesForever(key: nat -> byte, v: Version, c: Conn, room: nat)
    requires Refusing(v, c)
    ensures var (c', r) := ReadOnce(key, v, c, room); Refusing(v, c') && (r == Closed || r == NotApplication)
  {
    var length := HeadOf(v, c.wire).length;
    var c' := ReadOnce(key, v, c, room).0;
    assert c'.wire[..5] == c.wire[..5] && |c'.wire| == |c.wire|;
    assert c'.wire[0] == c.wire[..5][0] && c'.wire[1] == c.wire[..5][1] && c'.wire[2] == c.wire[..5][2];
    assert c'.wire[3] == c.wire[..5][3] && c'.wire[4] == c.wire[..5][4];
  }

  // ----- What is still to be handed out -----

  /** The payloads of the complete application records at the front of the wire. */
  function Opened(key: nat -> byte, v: Version, position: nat, wire: seq<byte>): seq<byte>
    decreases |wire|
  {
    var head := HeadOf(v, wire);
    if head.Record? && head.kind == APPLICATION then
      Payload(key, position, wire, head.length)
      + Opened(key, v, position + head.length, wire[HEADER + head.length..])
    else []
  }

  function Remaining(key: nat -> byte, v: Version, c: Conn): seq<byte> {
    c.decoded + Opened(key, v, c.position, c.wire)
  }

  lemma {:induction false} RecordOpens(key: nat -> byte, v: Version, position: nat, wire: seq<byte>, length: nat, payload: seq<byte>, rest: seq<byte>)
    requires HeadOf(v, wire) == Record(APPLICATION, length) && wire[HEADER + length..] == rest
    requires Payload(key, position, wire, length) == payload
    ensures Opened(key, v, position, wire) == payload + Opened(key, v, position + length, rest)
  {
  }

  lemma {:induction false} Handed(decoded: seq<byte>, room: nat, rest: seq<byte>)
    requires decoded != []
    ensures decoded + rest == HandOut(decoded, room) + (Keep(decoded, room) + rest)
    ensures |HandOut(decoded, room)| <= room && (room > 0 ==> HandOut(decoded, room) != [])
  {
  }

  lemma {:induction false} RecordConserved(key: nat -> byte, v: Version, position: nat, wire: seq<byte>, length: nat, room: nat, payload: seq<byte>, rest: seq<byte>)
    requires HeadOf(v, wire) == Record(APPLICATION, length) && wire[HEADER + length..] == rest
    requires Payload(key, position, wire, length) == payload
    ensures Opened(key, v, position, wire)
         == HandOut(payload, room) + (Keep(payload, room) + Opened(key, v, position + length, rest))
    ensures |HandOut(payload, room)| <= room && (room > 0 ==> HandOut(payload, room) != [])
  {
    RecordOpens(key, v, position, wire, length, payload, rest);
    Handed(payload, room, Opened(key, v, position + length, rest));
  }

  lemma {:induction false} NothingDecoded(key: nat -> byte, v: Version, c: Conn)
    requires c.decoded == []
    ensures Remaining(key, v, c) == Opened(key, v, c.position, c.wire)
  {
  }

  lemma {:induction false} BufferConserved(key: nat -> byte, v: Version, c: Conn, room: nat)
    requires c.decoded != []
    ensures var c' := c.(decoded := Keep(c.decoded, room));
            Remaining(key, v, c) == HandOut(c.decoded, room) + Remaining(key, v, c')
    ensures |HandOut(c.decoded, room)| <= room && (room > 0 ==> HandOut(c.decoded, room) != [])
  {
    Handed(c.decoded, room, Opened(key, v, c.position, c.wire));
  }

  /** A read hands out the next bytes that remain, and fails only when none do. */
  ghost predicate Conserved(key: nat -> byte, v: Version, c: Conn, c': Conn, r: Outcome, room: nat) {
    if r.Got? then
      Remaining(key, v, c) == r.bytes + Remaining(key, v, c') && |r.bytes| <= room && (room > 0 ==> r.bytes != [])
    else Remaining(key, v, c) == []
  }

  lemma {:induction false} ReadsApplication(key: nat -> byte, v: Version, c: Conn, length: nat, room: nat)
    requires c.decoded == [] && HeadOf(v, c.wire) == Record(APPLICATION, length)
    ensures var payload := Payload(key, c.position, c.wire, length);
            ReadOnce(key, v, c, room)
              == (Conn(Keep(payload, room), c.wire[HEADER + length..], c.position + length), Got(HandOut(payload, room)))
  {
  }

  lemma {:induction false} ApplicationConserved(key: nat -> byte, v: Version, c: Conn, length: nat, room: nat, payload: seq<byte>, rest: seq<byte>)
    requires c.decoded == [] && HeadOf(v, c.wire) == Record(APPLICATION, length)
    requires payload == Payload(key, c.position, c.wire, length) && rest == c.wire[HEADER + length..]
    ensures Conserved(key, v, c, Conn(Keep(payload, room), rest, c.position + length), Got(HandOut(payload, room)), room)
  {
    NothingDecoded(key, v, c);
    RecordConserved(key, v, c.position, c.wire, length, room, payload, rest);
  }

  lemma {:induction false} FailureConserved(key: nat -> byte, v: Version, c: Conn, room: nat)
    requires c.decoded == [] && !(HeadOf(v, c.wire).Record? && HeadOf(v, c.wire).kind == APPLICATION)
    ensures !ReadOnce(key, v, c, room).1.Got? && Remaining(key, v, c) == []
  {
    NothingDecoded(key, v, c);
  }

  /** No byte is lost, repeated or reordered by a read, and a read with room makes progress. */
  lemma {:induction false} Conservation(key: nat -> byte, v: Version, c: Conn, room: nat)
    ensures Conserved(key, v, c, ReadOnce(key, v, c, room).0, ReadOnce(key, v, c, room).1, room)
  {
    var head := HeadOf(v, c.wire);
    if c.decoded != [] {
      BufferConserved(key, v, c, room);
    } else if head.Record? && head.kind == APPLICATION {
      ReadsApplication(key, v, c, head.length, room);
      ApplicationConserved(key, v, c, head.length, room,
                           Payload(key, c.position, c.wire, head.length), c.wire[HEADER + head.length..]);
    } else {
      FailureConserved(key, v, c, room);
    }
  }

  // ----- Successive reads -----

  datatype Run = Run(conn: Conn, out: seq<byte>, failed: bool)

  /** Reads with the given room each, up to the first that fails. */
  function Reads(key: nat -> byte, v: Version, c: Conn, rooms: seq<nat>): Run
    decreases |rooms|
  {
    if rooms == [] then Run(c, [], false)
    else
      var (c', r) := ReadOnce(key, v, c, rooms[0]);
      if r.Got? then
        var rest := Reads(key, v, c', rooms[1..]);
        rest.(out := r.bytes + rest.out)
      else Run(c', [], true)
  }

  lemma {:induction false} Joined(a: seq<byte>, b: seq<byte>, c: seq<byte>)
    ensures a + (b + c) == (a + b) + c
  {
  }

  /** The bytes of successive reads are the payloads in order; a read fails only once all are handed out. */
  lemma {:induction false} ReadsInOrder(key: nat -> byte, v: Version, c: Conn, rooms: seq<nat>)
    ensures var run := Reads(key, v, c, rooms);
            Remaining(key, v, c) == run.out + if run.failed then [] else Remaining(key, v, run.conn)
    decreases |rooms|
  {
    if rooms != [] {
      var (c', r) := ReadOnce(key, v, c, rooms[0]);
      Conservation(key, v, c, rooms[0]);
      if r.Got? {
        var rest := Reads(key, v, c', rooms[1..]);
        ReadsInOrder(key, v, c', rooms[1..]);
        Joined(r.bytes, rest.out, if rest.failed then [] else Remaining(key, v, rest.conn));
      }
    }
  }

  /** Enough reads with room hand out everything. */
  lemma {:induction false} ReadsComplete(key: nat -> byte, v: Version, c: Conn, rooms: seq<nat>)
    requires |rooms| >= |Remaining(key, v, c)| && forall i :: 0 <= i < |rooms| ==> rooms[i] > 0
    ensures Reads(key, v, c, rooms).out == Remaining(key, v, c)
    decreases |rooms|
  {
    if rooms != [] {
      var (c', r) := ReadOnce(key, v, c, rooms[0]);
      Conservation(key, v, c, rooms[0]);
      if r.Got? {
        ReadsComplete(key, v, c', rooms[1..]);
      }
    }
  }

  // ----- The sender -----

  datatype Message = Message(payload: seq<byte>, mac: seq<byte>)

  predicate Sendable(m: Message) {
    |m.mac| == MAC && 1 <= |m.payload| && |m.payload| + MAC + HEADER <= MAX_RECORD
  }

  type Sending = m: Message | Sendable(m) witness Message([0], seq(MAC, _ => 0))

  function Minor(v: Version): byte {
    if v == Tls10 then 1 else 0
  }

  function SealedRecord(key: nat -> byte, v: Version, position: nat, s: Sending): (r: seq<byte>)
    ensures |r| == HEADER + |s.payload| + MAC
  {
    var length: nat := |s.payload| + MAC;
    [APPLICATION, 3, Minor(v), length / 0x100, length % 0x100] + Flip(key, position, s.payload + s.mac)
  }

  function Sealed(key: nat -> byte, v: Version, position: nat, sent: seq<Sending>): seq<byte>
    decreases |sent|
  {
    if sent == [] then []
    else SealedRecord(key, v, position, sent[0]) + Sealed(key, v, position + |sent[0].payload| + MAC, sent[1..])
  }

  function Payloads(sent: seq<Sending>): seq<byte> {
    if sent == [] then [] else sent[0].payload + Payloads(sent[1..])
  }

  lemma {:induction false} SealedHead(key: nat -> byte, v: Version, position: nat, s: Sending, rest: seq<byte>)
    ensures var wire := SealedRecord(key, v, position, s) + rest;
            HeadOf(v, wire) == Record(APPLICATION, |s.payload| + MAC) && wire[HEADER + |s.payload| + MAC..] == rest
  {
    var wire, length := SealedRecord(key, v, position, s) + rest, |s.payload| + MAC;
    assert wire[3] == length / 0x100 && wire[4] == length % 0x100;
    assert Length(wire) == length;
  }

  lemma {:induction false} SealedPayload(key: nat -> byte, v: Version, position: nat, s: Sending, rest: seq<byte>)
    ensures Payload(key, position, SealedRecord(key, v, position, s) + rest, |s.payload| + MAC) == s.payload
  {
    var wire, length := SealedRecord(key, v, position, s) + rest, |s.payload| + MAC;
    assert wire[HEADER..HEADER + length] == Flip(key, position, s.payload + s.mac);
    FlipTwice(key, position, s.payload + s.mac);
    assert (s.payload + s.mac)[..length - MAC] == s.payload;
  }

  /** `wire` is one application record after another, which open to the payloads of `sent`. */
  ghost predicate Carries(key: nat -> byte, v: Version, position: nat, sent: seq<Sending>, wire: seq<byte>)
    decreases |sent|
  {
    if sent == [] then wire == []
    else
      var length := |sent[0].payload| + MAC;
      && HeadOf(v, wire) == Record(APPLICATION, length)
      && Payload(key, position, wire, length) == sent[0].payload
      && Carries(key, v, position + length, sent[1..], wire[HEADER + length..])
  }

  lemma {:induction false} CarriedOpens(key: nat -> byte, v: Version, position: nat, sent: seq<Sending>, wire: seq<byte>)
    requires Carries(key, v, position, sent, wire)
    ensures Opened(key, v, position, wire) == Payloads(sent)
    decreases |sent|
  {
    if sent != [] {
      var length := |sent[0].payload| + MAC;
      CarriedOpens(key, v, position + length, sent[1..], wire[HEADER + length..]);
      RecordOpens(key, v, position, wire, length, sent[0].payload, wire[HEADER + length..]);
    }
  }

  lemma {:induction false} CarriesFirst(key: nat -> byte, v: Version, position: nat, s: Sending, more: seq<Sending>, wire: seq<byte>, rest: seq<byte>)
    requires Carries(key, v, position + |s.payload| + MAC, more, rest) && wire == SealedRecord(key, v, position, s) + rest
    ensures Carries(key, v, position, [s] + more, wire)
  {
    SealedHead(key, v, position, s, rest);
    SealedPayload(key, v, position, s, rest);
    assert ([s] + more)[1..] == more;
  }

  lemma {:induction false} SealedCarries(key: nat -> byte, v: Version, position: nat, sent: seq<Sending>)
    ensures Carries(key, v, position, sent, Sealed(key, v, position, sent))
    decreases |sent|
  {
    if sent != [] {
      var next := position + |sent[0].payload| + MAC;
      SealedCarries(key, v, next, sent[1..]);
      CarriesFirst(key, v, position, sent[0], sent[1..], Sealed(key, v, position, sent), Sealed(key, v, next, sent[1..]));
      assert [sent[0]] + sent[1..] == sent;
    }
  }

  /** Reads of any size return a prefix of the payloads sent, and enough of them return all. */
  lemma {:induction false} SentIsRead(key: nat -> byte, v: Version, position: nat, sent: seq<Sending>, rooms: seq<nat>)
    ensures var out := Reads(key, v, Conn([], Sealed(key, v, position, sent), position), rooms).out;
            && out <= Payloads(sent)
            && (|rooms| >= |Payloads(sent)| && (forall i :: 0 <= i < |rooms| ==> rooms[i] > 0) ==> out == Payloads(sent))
  {
    var c := Conn([], Sealed(key, v, position, sent), position);
    SealedCarries(key, v, position, sent);
    CarriedOpens(key, v, position, sent, c.wire);
    assert Remaining(key, v, c) == Payloads(sent);
    ReadsInOrder(key, v, c, rooms);
    if |rooms| >= |Payloads(sent)| && forall i :: 0 <= i < |rooms| ==> rooms[i] > 0 {
      ReadsComplete(key, v, c, rooms);
    }
  }

  // ----- The implementation -----

  function Flat(fragments: seq<seq<byte>>): seq<byte> {
    if fragments == [] then [] else fragments[0] + Flat(fragments[1..])
  }

  /** `incoming` holds the fragments the network will deliver before it fails. */
  class ConsoleTlsConn {
    const version: Version
    const key: nat -> byte
    var position: nat
    var decodedBuffer: seq<byte>
    var encodedBuffer: seq<byte>
    var incoming: seq<seq<byte>>

    ghost function State(): Conn
      reads this
    {
      Conn(decodedBuffer, encodedBuffer + Flat(incoming), position)
    }

    constructor (version: Version, key: nat -> byte, position: nat, incoming: seq<seq<byte>>)
      ensures this.version == version && this.key == key
      ensures State() == Conn([], Flat(incoming), position)
    {
      this.version, this.key, this.position := version, key, position;
      decodedBuffer, encodedBuffer, this.incoming := [], [], incoming;
    }

    /** Waits for `need` bytes; how they are cut into fragments leaves no trace. */
    method Fill(need: nat) returns (ok: bool)
      modifies this`encodedBuffer, this`incoming
      ensures State() == old(State()) && old(encodedBuffer) <= encodedBuffer
      ensures if ok then |encodedBuffer| >= need else incoming == [] && |encodedBuffer| < need
    {
      while |encodedBuffer| < need
        invariant State() == old(State()) && old(encodedBuffer) <= encodedBuffer
        decreases |incoming|
      {
        if incoming == [] {
          return false;
        }
        assert encodedBuffer + Flat(incoming) == encodedBuffer + incoming[0] + Flat(incoming[1..]);
        encodedBuffer, incoming := encodedBuffer + incoming[0], incoming[1..];
      }
      ok := true;
    }

    /** The header checks of the read loop. */
    method NextRecord() returns (head: Head)
      modifies this`encodedBuffer, this`incoming
      ensures State() == old(State()) && head == HeadOf(version, State().wire)
      ensures head.Record? || head.Overflowing? ==>
                |encodedBuffer| >= HEADER && |encodedBuffer| >= HEADER + Length(encodedBuffer)
      ensures head.Record? ==> head == HeadOf(version, encodedBuffer)
    {
      var recordLength: uint16 := 0;
      while true
        invariant State() == old(State())
        invariant recordLength > 0 ==>
                    |encodedBuffer| >= HEADER && Fault(version, encodedBuffer) == Short && recordLength == Length(encodedBuffer)
        decreases if recordLength == 0 then 1 else 0
      {
        var ok := Fill((recordLength as int) + HEADER);
        if !ok {
          assert State().wire == encodedBuffer;
          return Short;
        }
        if encodedBuffer[0] < 0x15 || encodedBuffer[0] > 0x17 {
          return BadType;
        }
        if !VersionOk(version, encodedBuffer[1], encodedBuffer[2]) {
          return BadVersion;
        }
        recordLength := Length(encodedBuffer);
        if recordLength < 1 + MAC || ((recordLength as int) + HEADER) % 0x1_0000 > MAX_RECORD {
          return BadLength;
        }
        if |encodedBuffer| >= (recordLength as int) + HEADER {
          break;
        }
      }
      head := HeadOf(version, encodedBuffer);
    }

    method Read(b: array<byte>) returns (n: nat, r: Outcome)
      modifies this, b
      ensures (State(), r) == ReadOnce(key, version, old(State()), b.Length)
      ensures n == (if r.Got? then |r.bytes| else 0) <= b.Length
      ensures b[..n] == (if r.Got? then r.bytes else []) && b[n..] == old(b[n..])
    {
      if decodedBuffer != [] {
        n := CopyOut(decodedBuffer, b);
        r := Got(decodedBuffer[..n]);
        decodedBuffer := decodedBuffer[n..];
        return;
      }
      var head := NextRecord();
      match head {
        case Short => return 0, NetworkError;
        case Overflowing => return 0, Panicked;
        case Record(kind, length) => n, r := Open(kind, length, b);
        case _ => return 0, Rejected(head);
      }
    }

    method Open(kind: byte, length: nat, b: array<byte>) returns (n: nat, r: Outcome)
      requires decodedBuffer == [] && 1 + MAC <= length && HEADER + length <= |encodedBuffer|
      modifies this, b
      ensures (State(), r) == ReadRecord(key, old(State()), kind, length, b.Length)
      ensures n == (if r.Got? then |r.bytes| else 0) <= b.Length
      ensures b[..n] == (if r.Got? then r.bytes else []) && b[n..] == old(b[n..])
    {
      ghost var wire := State().wire;
      assert wire[HEADER..HEADER + length] == encodedBuffer[HEADER..HEADER + length];
      var buf := Flip(key, position, encodedBuffer[HEADER..HEADER + length]);
      position := position + length;
      assert wire[HEADER + length..] == encodedBuffer[HEADER + length..] + Flat(incoming);
      if kind != APPLICATION {
        encodedBuffer := encodedBuffer[..HEADER] + buf + encodedBuffer[HEADER + length..];
        assert encodedBuffer + Flat(incoming) == wire[..HEADER] + buf + wire[HEADER + length..];
        n := 0;
        r := if kind == ALERT || buf[0] == 1 || buf[1] == 0 then Closed else NotApplication;
        return;
      }
      var payload := buf[..length - MAC];
      if length - MAC > b.Length {
        decodedBuffer := payload[b.Length..];
      }
      encodedBuffer := encodedBuffer[HEADER + length..];
      n := CopyOut(payload, b);
      r := Got(payload[..n]);
      assert decodedBuffer == Keep(payload, b.Length);
    }
  }

  method CopyOut(src: seq<byte>, dst: array<byte>) returns (n: nat)
    modifies dst
    ensures n == Min(dst.Length, |src|)
    ensures dst[..n] == src[..n] && dst[n..] == old(dst[n..])
  {
    n := Min(dst.Length, |src|);
    forall i | 0 <= i < n {
      dst[i] := src[i];
    }
  }
}
