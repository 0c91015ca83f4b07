/**
  The stream cipher of server browser replies: a deck of 256 cards is shuffled by a key, and every
  byte rotates four of its cards. `Cipher` is the value the methods of `CryptState` act on.
 */
module TypeX {
  import opened Bytes

  const DECK: nat := 256
  const MAX_RETRIES: nat := 11

  function Add(a: byte, b: byte): byte {
    ((a as int) + b) % DECK
  }

  // ----- Decks -----

  function Identity(n: nat): seq<byte>
    requires n <= DECK
  {
    seq(n, k requires 0 <= k < n => k)
  }

  /** A permutation of 0..255. */
  predicate IsDeck(cards: seq<byte>) {
    |cards| == DECK && multiset(cards) == multiset(Identity(DECK))
  }

  lemma {:induction false} IdentityOnce(n: nat, v: byte)
    requires n <= DECK
    ensures multiset(Identity(n))[v] == if v < n then 1 else 0
  {
    if n > 0 {
      IdentityOnce(n - 1, v);
      assert Identity(n) == Identity(n - 1) + [n - 1];
    }
  }

  lemma {:induction false} EveryCardOnce(cards: seq<byte>, v: byte)
    requires IsDeck(cards)
    ensures multiset(cards)[v] == 1 && v in cards
  {
    IdentityOnce(DECK, v);
    assert v in multiset(cards);
  }

  lemma {:induction false} SwapKeepsDeck(cards: seq<byte>, i: nat, j: nat)
    requires i < |cards| && j < |cards|
    ensures multiset(cards[i := cards[j]][j := cards[i]]) == multiset(cards)
  {
  }

  /**
    While a card `t` is held and its place `hole` is free, filling the hole with card `n` and
    moving the hole there keeps the deck complete, also when `n` is the hole itself.
   */
  lemma {:induction false} MoveHole(cards: seq<byte>, hole: nat, n: nat, t: byte)
    requires hole < |cards| && n < |cards|
    ensures multiset(cards[hole := cards[n]][n := t]) == multiset(cards[hole := t])
  {
    if n == hole {
      assert cards[hole := cards[n]][n := t] == cards[hole := t];
    } else {
      SwapKeepsDeck(cards[hole := t], hole, n);
      assert cards[hole := cards[n]][n := t] == cards[hole := t][hole := cards[n]][n := t];
    }
  }

  // ----- Key-driven draws -----

  datatype Draw = Draw(u: nat, rsum: byte, keyPos: nat, draws: nat)

  /** The smallest `2^n - 1` from `mask` on that covers `limit`. */
  function MaskFrom(limit: byte, mask: nat): (r: nat)
    requires mask >= 1 && (mask == 1 || mask < 2 * limit)
    ensures limit <= r && (r == 1 || r < 2 * limit)
    decreases limit - mask
  {
    if mask < limit then MaskFrom(limit, 2 * mask + 1) else mask
  }

  /** One draw of `KeyRand`: the key byte it takes moves the running sum. */
  function Drawn(cards: seq<byte>, limit: byte, mask: nat, key: seq<byte>, rsum: byte, keyPos: nat, retries: nat): Draw
    requires |cards| == DECK && limit > 0 && keyPos < |key|
  {
    var sum := Add(cards[rsum], key[keyPos]);
    var wrap := keyPos + 1 >= |key|;
    var sum' := if wrap then ((sum as int) + |key|) % DECK else sum;
    var u := And(sum', mask, 8);
    Draw(if retries >= MAX_RETRIES then u % limit else u, sum', if wrap then 0 else keyPos + 1, retries + 1)
  }

  function Drawing(cards: seq<byte>, limit: byte, mask: nat, key: seq<byte>, rsum: byte, keyPos: nat, retries: nat): (r: Draw)
    requires |cards| == DECK && limit > 0 && keyPos < |key| && retries <= MAX_RETRIES
    ensures r.u <= limit && r.keyPos < |key| && retries < r.draws <= MAX_RETRIES + 1
    decreases MAX_RETRIES - retries, key
  {
    var d := Drawn(cards, limit, mask, key, rsum, keyPos, retries);
    if d.u <= limit then d else Drawing(cards, limit, mask, key, d.rsum, d.keyPos, retries + 1)
  }

  /** `steps` positions on from `pos` in a key of `n` bytes, read cyclically. */
  function Around(pos: nat, steps: nat, n: nat): nat
    decreases steps
  {
    if steps == 0 then pos else Around(if pos + 1 >= n then 0 else pos + 1, steps - 1, n)
  }

  lemma {:induction false} AroundIsModulo(pos: nat, steps: nat, n: nat)
    requires pos < n
    ensures Around(pos, steps, n) == (pos + steps) % n
    decreases steps
  {
    if steps > 0 {
      var next := if pos + 1 >= n then 0 else pos + 1;
      AroundIsModulo(next, steps - 1, n);
      StepAround(pos, steps - 1, n, next);
    }
  }

  lemma {:induction false} StepAround(pos: nat, more: nat, n: nat, next: nat)
    requires pos < n && next == (if pos + 1 >= n then 0 else pos + 1)
    ensures (next + more) % n == (pos + (more + 1)) % n
  {
    if pos + 1 >= n {
      var q, r := DivMod(more, n);
      assert pos + (more + 1) == n * (q + 1) + r;
      ModuloUnique(pos + (more + 1), n, q + 1, r);
    }
  }

  /** One key byte a draw. */
  lemma {:induction false} DrawingReadsKey(cards: seq<byte>, limit: byte, mask: nat, key: seq<byte>, rsum: byte, keyPos: nat, retries: nat)
    requires |cards| == DECK && limit > 0 && keyPos < |key| && retries <= MAX_RETRIES
    ensures var r := Drawing(cards, limit, mask, key, rsum, keyPos, retries);
            r.keyPos == Around(keyPos, r.draws - retries, |key|)
    decreases MAX_RETRIES - retries
  {
    var d := Drawn(cards, limit, mask, key, rsum, keyPos, retries);
    if d.u > limit {
      DrawingReadsKey(cards, limit, mask, key, d.rsum, d.keyPos, retries + 1);
    } else {
      assert Around(keyPos, 1, |key|) == Around(d.keyPos, 0, |key|);
    }
  }

  function KeyRand(cards: seq<byte>, limit: byte, key: seq<byte>, rsum: byte, keyPos: nat): (r: Draw)
    requires |cards| == DECK && keyPos < |key|
    ensures r.u <= limit && r.keyPos < |key| && r.draws <= MAX_RETRIES + 1
  {
    if limit == 0 then Draw(0, rsum, keyPos, 0)
    else Drawing(cards, limit, MaskFrom(limit, 1), key, rsum, keyPos, 0)
  }

  /** A draw ends within 12 tries, at most at its limit, with both positions in range. */
  lemma {:induction false} KeyRandBounds(cards: seq<byte>, limit: byte, key: seq<byte>, rsum: byte, keyPos: nat)
    requires |cards| == DECK && keyPos < |key|
    ensures var r := KeyRand(cards, limit, key, rsum, keyPos);
            && r.u <= limit && r.draws <= 12 && (limit > 0 ==> r.draws > 0)
            && r.keyPos == (keyPos + r.draws) % |key|
  {
    var r := KeyRand(cards, limit, key, rsum, keyPos);
    if limit > 0 {
      DrawingReadsKey(cards, limit, MaskFrom(limit, 1), key, rsum, keyPos, 0);
    }
    AroundIsModulo(keyPos, r.draws, |key|);
  }

  function Swapped(cards: seq<byte>, i: nat, j: nat): seq<byte>
    requires i < |cards| && j < |cards|
  {
    cards[i := cards[j]][j := cards[i]]
  }

  datatype Shuffle = Shuffle(cards: seq<byte>, rsum: byte, keyPos: nat)

  /** The swaps of cards `n - 1` down to 0. */
  function Shuffled(s: Shuffle, key: seq<byte>, n: nat): (r: Shuffle)
    requires n <= |s.cards| == DECK && s.keyPos < |key|
    ensures |r.cards| == DECK && r.keyPos < |key|
    decreases n, key
  {
    if n == 0 then s
    else
      var d := KeyRand(s.cards, n - 1, key, s.rsum, s.keyPos);
      Shuffled(Shuffle(Swapped(s.cards, n - 1, d.u), d.rsum, d.keyPos), key, n - 1)
  }

  lemma {:induction false} ShufflingKeepsDeck(s: Shuffle, key: seq<byte>, n: nat)
    requires n <= |s.cards| == DECK && s.keyPos < |key|
    ensures multiset(Shuffled(s, key, n).cards) == multiset(s.cards)
    decreases n
  {
    if n > 0 {
      var d := KeyRand(s.cards, n - 1, key, s.rsum, s.keyPos);
      SwapKeepsDeck(s.cards, n - 1, d.u);
      ShufflingKeepsDeck(Shuffle(Swapped(s.cards, n - 1, d.u), d.rsum, d.keyPos), key, n - 1);
    }
  }

  // ----- The cipher state -----

  type Cards = s: seq<byte> | |s| == DECK witness seq(DECK, _ => 0)

  datatype Cipher = Cipher(cards: Cards, rotor: byte, ratchet: byte, avalanche: byte, lastPlain: byte, lastCipher: byte)

  predicate Ready(c: Cipher) {
    IsDeck(c.cards)
  }

  function Keyed(challenge: seq<byte>): (c: Cipher)
    requires challenge != []
    ensures Ready(c)
  {
    var deck := Shuffle(Identity(DECK), 0, 0);
    ShufflingKeepsDeck(deck, challenge, |deck.cards|);
    Seated(Shuffled(deck, challenge, |deck.cards|))
  }

  lemma {:induction false} KeyedFrom(challenge: seq<byte>, s: Shuffle, n: nat)
    requires challenge != [] && n == DECK && s == Shuffled(Shuffle(Identity(DECK), 0, 0), challenge, n)
    ensures |s.cards| == DECK && Seated(s) == Keyed(challenge)
  {
  }

  /** The registers start on cards of the shuffled deck. */
  function Seated(s: Shuffle): Cipher
    requires |s.cards| == DECK
  {
    Cipher(s.cards, s.cards[1], s.cards[3], s.cards[5], s.cards[7], s.cards[s.rsum])
  }

  /** The challenge after the first `n` bytes of `data` are mixed into it. */
  function Absorbed(challenge: seq<byte>, key: seq<byte>, data: seq<byte>, n: nat): (r: seq<byte>)
    requires challenge != [] && key != [] && n <= |data|
    ensures |r| == |challenge|
  {
    if n == 0 then challenge
    else
      var c := Absorbed(challenge, key, data, n - 1);
      var i := n - 1;
      var at := key[i % |key|] * i % |c|;
      c[at := Xor8(c[at], Xor8(c[i % |c|], data[i]))]
  }

  /** The four-way rotation, in the order the assignments are made. */
  function Rotated(cards: seq<byte>, a: byte, b: byte, c: byte, d: byte): (r: seq<byte>)
    requires |cards| == DECK
    ensures |r| == DECK
  {
    var c1 := cards[a := cards[b]];
    var c2 := c1[b := c1[c]];
    var c3 := c2[c := c2[d]];
    c3[d := cards[a]]
  }

  /** However the four places coincide, no card is lost or doubled. */
  lemma {:induction false} RotationKeepsDeck(cards: seq<byte>, a: byte, b: byte, c: byte, d: byte)
    requires |cards| == DECK
    ensures multiset(Rotated(cards, a, b, c, d)) == multiset(cards)
  {
    var t := cards[a];
    var c1 := cards[a := cards[b]];
    var c2 := c1[b := c1[c]];
    MoveHole(cards, a, b, t);
    MoveHole(c1, b, c, t);
    MoveHole(c2, c, d, t);
    assert cards[a := t] == cards;
  }

  /** The part of a step that does not depend on the byte. */
  function Turned(s: Cipher): Cipher {
    var ratchet := Add(s.ratchet, s.cards[s.rotor]);
    var rotor := Add(s.rotor, 1);
    var held := s.cards[s.lastCipher];
    var cards := Rotated(s.cards, s.lastCipher, ratchet, s.lastPlain, rotor);
    Cipher(cards, rotor, ratchet, Add(s.avalanche, cards[held]), s.lastPlain, s.lastCipher)
  }

  function First(t: Cipher): byte {
    t.cards[Add(t.cards[t.avalanche], t.cards[t.rotor])]
  }

  function Second(t: Cipher): byte {
    t.cards[t.cards[Add(Add(t.cards[t.lastPlain], t.cards[t.lastCipher]), t.cards[t.ratchet])]]
  }

  function EncryptStep(s: Cipher, d: byte): (Cipher, byte) {
    var t := Turned(s);
    var c := Xor8(Xor8(d, First(t)), Second(t));
    (t.(lastPlain := d, lastCipher := c), c)
  }

  lemma {:induction false} StepKeepsDeck(s: Cipher, d: byte)
    requires Ready(s)
    ensures Ready(EncryptStep(s, d).0)
  {
    RotationKeepsDeck(s.cards, s.lastCipher, Add(s.ratchet, s.cards[s.rotor]), s.lastPlain, Add(s.rotor, 1));
  }

  // ----- Streams -----

  datatype Streamed<S> = Streamed(state: S, bytes: seq<byte>)

  /** Threads a state through `data`, one byte at a time. */
  function Stream<S>(step: (S, byte) -> (S, byte), s: S, data: seq<byte>): (r: Streamed<S>)
    ensures |r.bytes| == |data|
  {
    if data == [] then Streamed(s, [])
    else
      var prev := Stream(step, s, data[..|data| - 1]);
      var (next, b) := step(prev.state, data[|data| - 1]);
      Streamed(next, prev.bytes + [b])
  }

  lemma {:induction false} StreamAppend<S>(step: (S, byte) -> (S, byte), s: S, data: seq<byte>, d: byte)
    ensures var prev := Stream(step, s, data);
            var (next, b) := step(prev.state, d);
            Stream(step, s, data + [d]) == Streamed(next, prev.bytes + [b])
  {
    assert (data + [d])[..|data|] == data;
  }

  lemma {:induction false} StreamPrefix<S>(step: (S, byte) -> (S, byte), s: S, data: seq<byte>, n: nat)
    requires n <= |data|
    ensures Stream(step, s, data).bytes[..n] == Stream(step, s, data[..n]).bytes
    decreases |data|
  {
    if n == |data| {
      assert data[..n] == data;
    } else {
      StreamPrefix(step, s, data[..|data| - 1], n);
      assert data[..|data| - 1][..n] == data[..n];
    }
  }

  /** A step that undoes another one byte by byte undoes the whole stream. */
  lemma {:induction false} StreamUndone<S>(step: (S, byte) -> (S, byte), undo: (S, byte) -> (S, byte), s: S, data: seq<byte>)
    requires forall t: S, d: byte {:trigger step(t, d)} :: undo(t, step(t, d).1) == (step(t, d).0, d)
    ensures Stream(undo, s, Stream(step, s, data).bytes) == Streamed(Stream(step, s, data).state, data)
  {
    if data != [] {
      var front, d := data[..|data| - 1], data[|data| - 1];
      var prev := Stream(step, s, front);
      StreamUndone(step, undo, s, front);
      StreamAppend(undo, s, prev.bytes, step(prev.state, d).1);
      assert data == front + [d];
    }
  }

  /** The undoing side has recovered the data and holds the same state after every byte. */
  lemma {:induction false} StreamMirrored<S>(step: (S, byte) -> (S, byte), undo: (S, byte) -> (S, byte), s: S, data: seq<byte>, n: nat)
    requires n <= |data|
    requires forall t: S, d: byte {:trigger step(t, d)} :: undo(t, step(t, d).1) == (step(t, d).0, d)
    ensures Stream(undo, s, Stream(step, s, data).bytes[..n]) == Streamed(Stream(step, s, data[..n]).state, data[..n])
  {
    StreamPrefix(step, s, data, n);
    StreamUndone(step, undo, s, data[..n]);
  }

  /** `data` is `plain` with its first `i` bytes streamed, which leaves `state`. */
  ghost predicate SentFrom<S>(step: (S, byte) -> (S, byte), start: S, plain: seq<byte>, i: nat, state: S, data: seq<byte>) {
    && i <= |plain| == |data| && data[i..] == plain[i..]
    && Stream(step, start, plain[..i]) == Streamed(state, data[..i])
  }

  lemma {:induction false} SentNext<S>(step: (S, byte) -> (S, byte), start: S, plain: seq<byte>, i: nat, state: S, data: seq<byte>)
    requires i < |plain| && SentFrom(step, start, plain, i, state, data)
    ensures var (next, b) := step(state, data[i]);
            SentFrom(step, start, plain, i + 1, next, data[i := b])
  {
    var (next, b) := step(state, data[i]);
    assert data[i] == data[i..][0] == plain[i];
    StreamAppend(step, start, plain[..i], plain[i]);
    assert plain[..i + 1] == plain[..i] + [plain[i]];
    assert data[i := b][..i + 1] == data[..i] + [b];
    assert plain[i + 1..] == plain[i..][1..] == data[i..][1..] == data[i := b][i + 1..];
  }

  lemma {:induction false} SentAll<S>(step: (S, byte) -> (S, byte), start: S, plain: seq<byte>, state: S, data: seq<byte>)
    requires SentFrom(step, start, plain, |plain|, state, data)
    ensures Stream(step, start, plain) == Streamed(state, data)
  {
    assert plain[..|plain|] == plain && data[..|data|] == data;
  }

  function Encrypted(s: Cipher, data: seq<byte>): Streamed<Cipher> {
    Stream(EncryptStep, s, data)
  }

  /** What every step keeps, the whole stream keeps. */
  lemma {:induction false} StreamKeeps<S>(step: (S, byte) -> (S, byte), ok: S -> bool, s: S, data: seq<byte>)
    requires ok(s) && forall t: S, d: byte {:trigger step(t, d)} :: ok(t) ==> ok(step(t, d).0)
    ensures ok(Stream(step, s, data).state)
  {
    if data != [] {
      StreamKeeps(step, ok, s, data[..|data| - 1]);
    }
  }

  lemma {:induction false} EncryptionKeepsDeck(s: Cipher, data: seq<byte>)
    requires Ready(s)
    ensures Ready(Encrypted(s, data).state)
  {
    forall t: Cipher, d: byte {:trigger EncryptStep(t, d)} | Ready(t)
      ensures Ready(EncryptStep(t, d).0)
    {
      StepKeepsDeck(t, d);
    }
    StreamKeeps(EncryptStep, Ready, s, data);
  }

  // ----- The receiver -----

  function DecryptStep(s: Cipher, c: byte): (Cipher, byte) {
    var t := Turned(s);
    var d := Xor8(Xor8(c, Second(t)), First(t));
    (t.(lastPlain := d, lastCipher := c), d)
  }

  function Decrypted(s: Cipher, data: seq<byte>): Streamed<Cipher> {
    Stream(DecryptStep, s, data)
  }

  lemma {:induction false} StepUndone(s: Cipher, d: byte)
    ensures DecryptStep(s, EncryptStep(s, d).1) == (EncryptStep(s, d).0, d)
  {
    var first, second := First(Turned(s)), Second(Turned(s));
    Xor8Cancel(Xor8(d, first), second);
    Xor8Cancel(d, first);
  }

  lemma {:induction false} EveryStepUndone()
    ensures forall t: Cipher, d: byte {:trigger EncryptStep(t, d)} :: DecryptStep(t, EncryptStep(t, d).1) == (EncryptStep(t, d).0, d)
  {
    forall t: Cipher, d: byte {:trigger EncryptStep(t, d)}
      ensures DecryptStep(t, EncryptStep(t, d).1) == (EncryptStep(t, d).0, d)
    {
      StepUndone(t, d);
    }
  }

  /** Decrypting recovers the data, and both states agree after every byte. */
  lemma {:induction false} Mirrored(s: Cipher, data: seq<byte>, n: nat)
    requires n <= |data|
    ensures Decrypted(s, Encrypted(s, data).bytes[..n]) == Streamed(Encrypted(s, data[..n]).state, data[..n])
  {
    EveryStepUndone();
    StreamMirrored(EncryptStep, DecryptStep, s, data, n);
  }

  /**
    Follows the two length bytes of the header to the key material, sets up its state with that,
    and undoes the rest of the packet.
   */
  function Receive<S>(keyed: seq<byte> -> S, undo: (S, byte) -> (S, byte), packet: seq<byte>): Option<Streamed<S>> {
    if packet == [] then None
    else
      var skip := Xor8(packet[0], 0xEC);
      if |packet| < 2 + skip then None
      else
        var keyLen := Xor8(packet[1 + skip], 0xEA);
        if |packet| < 2 + skip + keyLen then None
        else
          Some(Stream(undo, keyed(packet[2 + skip..2 + skip + keyLen]), packet[2 + skip + keyLen..]))
  }

  /** The cipher that the key material of the header sets up. */
  function StartState(key: seq<byte>, challenge: seq<byte>, material: seq<byte>): (c: Cipher)
    requires key != [] && challenge != []
    ensures Ready(c)
  {
    Keyed(Absorbed(challenge, key, material, |material|))
  }

  function KeyedBy(key: seq<byte>, challenge: seq<byte>): seq<byte> -> Cipher
    requires key != [] && challenge != []
  {
    (material: seq<byte>) => StartState(key, challenge, material)
  }

  // ----- The whole packet -----

  const RAND_LEN: nat := 5
  const KEY_LEN: nat := 8

  function Header(rand: seq<byte>, material: seq<byte>): seq<byte>
    requires |rand| == RAND_LEN && |material| == KEY_LEN
  {
    [Xor8(RAND_LEN + 2, 0xEC), 0, 0] + rand + [Xor8(KEY_LEN, 0xEA)] + material
  }

  function Packet(key: seq<byte>, challenge: seq<byte>, rand: seq<byte>, material: seq<byte>, data: seq<byte>): seq<byte>
    requires key != [] && challenge != [] && |rand| == RAND_LEN && |material| == KEY_LEN
  {
    Header(rand, material) + Encrypted(StartState(key, challenge, material), data).bytes
  }

  lemma {:induction false} HeaderParts(rand: seq<byte>, material: seq<byte>, sent: seq<byte>, m: nat)
    requires |rand| == RAND_LEN && |material| == KEY_LEN && m == RAND_LEN + 2
    ensures var packet := Header(rand, material) + sent;
            && packet[0] == Xor8(m, 0xEC) && packet[1 + m] == Xor8(KEY_LEN, 0xEA)
            && packet[2 + m..2 + m + KEY_LEN] == material
            && packet[2 + m + KEY_LEN..] == sent
  {
  }

  /** Whatever the cipher, a receiver that undoes its steps recovers the data behind the header. */
  lemma {:induction false} HeaderFollowed<S>(keyed: seq<byte> -> S, step: (S, byte) -> (S, byte), undo: (S, byte) -> (S, byte),
                                            rand: seq<byte>, material: seq<byte>, data: seq<byte>)
    requires |rand| == RAND_LEN && |material| == KEY_LEN
    requires forall t: S, d: byte {:trigger step(t, d)} :: undo(t, step(t, d).1) == (step(t, d).0, d)
    ensures var sent := Stream(step, keyed(material), data);
            Receive(keyed, undo, Header(rand, material) + sent.bytes) == Some(Streamed(sent.state, data))
  {
    var sent := Stream(step, keyed(material), data).bytes;
    var m: byte, k: byte := RAND_LEN + 2, KEY_LEN;
    Xor8Cancel(m, 0xEC);
    Xor8Cancel(k, 0xEA);
    HeaderParts(rand, material, sent, m);
    StreamUndone(step, undo, keyed(material), data);
  }

  /** A receiver with the same key and challenge recovers the data and ends in the sender's state. */
  lemma {:induction false} ReceiverRecovers(key: seq<byte>, challenge: seq<byte>, rand: seq<byte>, material: seq<byte>, data: seq<byte>)
    requires key != [] && challenge != [] && |rand| == RAND_LEN && |material| == KEY_LEN
    ensures Receive(KeyedBy(key, challenge), DecryptStep, Packet(key, challenge, rand, material, data))
         == Some(Streamed(Encrypted(StartState(key, challenge, material), data).state, data))
  {
    EveryStepUndone();
    HeaderFollowed(KeyedBy(key, challenge), EncryptStep, DecryptStep, rand, material, data);
  }

  /** Different data never encrypt to the same packet. */
  lemma {:induction false} PacketsDiffer(key: seq<byte>, challenge: seq<byte>, rand: seq<byte>, material: seq<byte>, data: seq<byte>, other: seq<byte>)
    requires key != [] && challenge != [] && |rand| == RAND_LEN && |material| == KEY_LEN
    requires Packet(key, challenge, rand, material, data) == Packet(key, challenge, rand, material, other)
    ensures data == other
  {
    ReceiverRecovers(key, challenge, rand, material, data);
    ReceiverRecovers(key, challenge, rand, material, other);
  }

  // ----- The implementation -----

  class CryptState {
    const cards: array<byte>
    var rotor: byte
    var ratchet: byte
    var avalanche: byte
    var lastPlain: byte
    var lastCipher: byte

    ghost predicate Valid()
      reads this, cards
    {
      cards.Length == DECK && IsDeck(cards[..])
    }

    ghost function State(): Cipher
      reads this, cards
      requires cards.Length == DECK
    {
      Cipher(cards[..], rotor, ratchet, avalanche, lastPlain, lastCipher)
    }

    constructor ()
      ensures cards.Length == DECK && fresh(cards)
    {
      cards := new byte[DECK](_ => 0);
      rotor, ratchet, avalanche, lastPlain, lastCipher := 0, 0, 0, 0, 0;
    }

    static method Mask(limit: byte) returns (mask: nat)
      ensures mask == MaskFrom(limit, 1)
    {
      mask := 1;
      while mask < limit
        invariant mask >= 1 && (mask == 1 || mask < 2 * limit)
        invariant MaskFrom(limit, mask) == MaskFrom(limit, 1)
      {
        mask := 2 * mask + 1;
      }
    }

    method KeyRandom(limit: byte, key: seq<byte>, rsum: byte, keyPos: nat)
      returns (u: nat, sum: byte, pos: nat, ghost draws: nat)
      requires cards.Length == DECK && keyPos < |key|
      ensures u == KeyRand(cards[..], limit, key, rsum, keyPos).u
      ensures sum == KeyRand(cards[..], limit, key, rsum, keyPos).rsum
      ensures pos == KeyRand(cards[..], limit, key, rsum, keyPos).keyPos
      ensures draws == KeyRand(cards[..], limit, key, rsum, keyPos).draws
    {
      sum, pos, draws := rsum, keyPos, 0;
      if limit == 0 {
        return 0, sum, pos, draws;
      }
      var mask := Mask(limit);
      var retries := 0;
      u := limit as int + 1;
      ghost var all := Drawing(cards[..], limit, mask, key, rsum, keyPos, 0);
      while u > limit
        invariant pos < |key| && draws == retries
        invariant u > limit ==> retries <= MAX_RETRIES && all == Drawing(cards[..], limit, mask, key, sum, pos, retries)
        invariant u <= limit ==> all == Draw(u, sum, pos, draws)
        decreases MAX_RETRIES + 1 - retries
      {
        sum := Add(cards[sum], key[pos]);
        pos := pos + 1;
        if pos >= |key| {
          pos := 0;
          sum := ((sum as int) + |key|) % DECK;
        }
        u := And(sum, mask, 8);
        if retries >= MAX_RETRIES {
          u := u % limit;
        }
        retries := retries + 1;
        draws := draws + 1;
      }
    }

    method Deal()
      requires cards.Length == DECK
      modifies cards
      ensures cards[..] == Identity(DECK)
    {
      for i := 0 to DECK
        invariant forall k :: 0 <= k < i ==> cards[k] == k
      {
        cards[i] := i;
      }
    }

    method Swap(i: byte, j: byte)
      requires cards.Length == DECK
      modifies cards
      ensures cards[..] == Swapped(old(cards[..]), i, j)
    {
      var swaptemp := cards[i];
      cards[i] := cards[j];
      cards[j] := swaptemp;
    }

    method ShuffleCards(key: seq<byte>) returns (rsum: byte, ghost keyPos: nat)
      requires cards.Length == DECK && key != []
      modifies cards
      ensures Shuffle(cards[..], rsum, keyPos) == Shuffled(Shuffle(old(cards[..]), 0, 0), key, cards.Length)
    {
      var pos: nat := 0;
      rsum := 0;
      for i := cards.Length downto 0
        invariant pos < |key|
        invariant Shuffled(Shuffle(cards[..], rsum, pos), key, i) == Shuffled(Shuffle(old(cards[..]), 0, 0), key, cards.Length)
      {
        var toswap, sum, next, draws := KeyRandom(i, key, rsum, pos);
        Swap(i, toswap);
        rsum, pos := sum, next;
      }
      keyPos := pos;
    }

    /** Shuffles a fresh deck by the challenge. */
    method Init(challenge: array<byte>)
      requires cards.Length == DECK && challenge.Length > 0 && challenge != cards
      modifies this, cards
      ensures Valid() && State() == Keyed(challenge[..])
    {
      Deal();
      var rsum, keyPos := ShuffleCards(challenge[..]);
      rotor, ratchet, avalanche, lastPlain, lastCipher := cards[1], cards[3], cards[5], cards[7], cards[rsum];
      KeyedFrom(challenge[..], Shuffle(cards[..], rsum, keyPos), cards.Length);
    }

    /** Mixes the key material into the challenge, in place, and keys the deck with it. */
    method InitKey(key: seq<byte>, challenge: array<byte>, data: seq<byte>)
      requires cards.Length == DECK && challenge.Length > 0 && challenge != cards && key != []
      modifies this, cards, challenge
      ensures challenge[..] == Absorbed(old(challenge[..]), key, data, |data|)
      ensures Valid() && State() == Keyed(challenge[..])
    {
      for i := 0 to |data|
        invariant challenge[..] == Absorbed(old(challenge[..]), key, data, i)
        modifies challenge
      {
        var at := key[i % |key|] * i % challenge.Length;
        challenge[at] := Xor8(challenge[at], Xor8(challenge[i % challenge.Length], data[i]));
      }
      Init(challenge);
    }

    /** The random bytes of the header are arguments. */
    method CreateHeader(key: seq<byte>, challenge: array<byte>, rand: seq<byte>, material: seq<byte>) returns (header: seq<byte>)
      requires cards.Length == DECK && challenge.Length > 0 && challenge != cards && key != []
      requires |rand| == RAND_LEN && |material| == KEY_LEN
      modifies this, cards, challenge
      ensures header == Header(rand, material)
      ensures challenge[..] == Absorbed(old(challenge[..]), key, material, |material|)
      ensures Valid() && State() == StartState(key, old(challenge[..]), material)
    {
      header := Header(rand, material);
      InitKey(key, challenge, material);
    }

    /** The card rotation of one step. */
    method Turn()
      requires Valid()
      modifies this, cards
      ensures Valid() && State() == Turned(old(State()))
    {
      ratchet := Add(ratchet, cards[rotor]);
      rotor := Add(rotor, 1);
      ghost var was := cards[..];
      RotationKeepsDeck(was, lastCipher, ratchet, lastPlain, rotor);
      var swaptemp := cards[lastCipher];
      cards[lastCipher] := cards[ratchet];
      cards[ratchet] := cards[lastPlain];
      cards[lastPlain] := cards[rotor];
      cards[rotor] := swaptemp;
      assert cards[..] == Rotated(was, lastCipher, ratchet, lastPlain, rotor);
      avalanche := Add(avalanche, cards[swaptemp]);
    }

    method EncryptByte(d: byte) returns (ciphertext: byte)
      requires Valid()
      modifies this, cards
      ensures Valid()
      ensures State() == EncryptStep(old(State()), d).0
      ensures ciphertext == EncryptStep(old(State()), d).1
    {
      Turn();
      var first := cards[Add(cards[avalanche], cards[rotor])];
      var second := cards[cards[Add(Add(cards[lastPlain], cards[lastCipher]), cards[ratchet])]];
      ciphertext := Xor8(Xor8(d, first), second);
      lastCipher := ciphertext;
      lastPlain := d;
    }

    method EncryptAt(data: array<byte>, i: nat)
      requires Valid() && data != cards && i < data.Length
      modifies this, cards, data
      ensures Valid() && State() == EncryptStep(old(State()), old(data[i])).0
      ensures data[..] == old(data[..])[i := EncryptStep(old(State()), old(data[i])).1]
    {
      data[i] := EncryptByte(data[i]);
    }

    method Encrypt(data: array<byte>)
      requires Valid() && data != cards
      modifies this, cards, data
      ensures Valid() && Streamed(State(), data[..]) == Encrypted(old(State()), old(data[..]))
    {
      ghost var plain, start := data[..], State();
      for i := 0 to data.Length
        invariant Valid() && SentFrom(EncryptStep, start, plain, i, State(), data[..])
      {
        SentNext(EncryptStep, start, plain, i, State(), data[..]);
        EncryptAt(data, i);
      }
      SentAll(EncryptStep, start, plain, State(), data[..]);
    }
  }

  method EncryptTypeX(key: seq<byte>, challenge: array<byte>, data: array<byte>, rand: seq<byte>, material: seq<byte>)
    returns (packet: seq<byte>)
    requires key != [] && challenge.Length > 0 && challenge != data
    requires |rand| == RAND_LEN && |material| == KEY_LEN
    modifies challenge, data
    ensures packet == Packet(key, old(challenge[..]), rand, material, old(data[..]))
  {
    var state := new CryptState();
    var header := state.CreateHeader(key, challenge, rand, material);
    state.Encrypt(data);
    packet := header + data[..];
  }
}
