/**
  What the key, the key material and the registers of the stream cipher do, told without its loops:
  the mixed challenge, the draws and the shuffle they drive, and one step on a fresh deck.
 */
module TypeXKeys {
  import opened Bytes
  import opened TypeX

  // ----- Exclusive or -----

  lemma {:induction false} Xor8Exchange(a: byte, b: byte, c: byte, d: byte)
    ensures Xor8(Xor8(a, b), Xor8(c, d)) == Xor8(Xor8(a, c), Xor8(b, d))
  {
    XorExchange(a, b, c, d, 8);
  }

  lemma {:induction false} Xor8Zero(a: byte)
    ensures Xor8(a, 0) == a && Xor8(0, a) == a && Xor8(a, a) == 0
  {
    WordSizes();
    XorZero(a, 8);
    XorSelf(a, 8);
  }

  /** What is mixed in twice is gone. */
  lemma {:induction false} Xor8Gone(c: byte, d: byte)
    ensures Xor8(c, Xor8(c, d)) == d
  {
    Xor8Zero(c);
    Xor8Zero(d);
    Xor8Exchange(c, 0, c, d);
  }

  lemma {:induction false} MixedDifference(p: byte, q: byte, a: byte, b: byte)
    ensures Xor8(Xor8(p, Xor8(q, a)), Xor8(p, Xor8(q, b))) == Xor8(a, b)
  {
    Xor8Exchange(p, Xor8(q, a), p, Xor8(q, b));
    Xor8Exchange(q, a, q, b);
    Xor8Zero(p);
    Xor8Zero(q);
    Xor8Zero(Xor8(a, b));
  }

  // ----- The mixed challenge -----

  lemma {:induction false} AbsorbedPrefix(challenge: seq<byte>, key: seq<byte>, data: seq<byte>, more: seq<byte>, n: nat)
    requires challenge != [] && key != [] && n <= |data|
    ensures Absorbed(challenge, key, data + more, n) == Absorbed(challenge, key, data, n)
  {
    if n > 0 { AbsorbedPrefix(challenge, key, data, more, n - 1); }
  }

  /** Changing the last byte of the material changes one byte of the challenge, at a place the key picks, by the same bits. */
  lemma {:induction false} LastByteMixed(challenge: seq<byte>, key: seq<byte>, data: seq<byte>, a: byte, b: byte)
    requires challenge != [] && key != []
    ensures var n, at := |data|, key[|data| % |key|] * |data| % |challenge|;
            var c, d := Absorbed(challenge, key, data + [a], n + 1), Absorbed(challenge, key, data + [b], n + 1);
            && Xor8(c[at], d[at]) == Xor8(a, b)
            && forall k :: 0 <= k < |challenge| && k != at ==> c[k] == d[k]
  {
    var n := |data|;
    var at, c := key[n % |key|] * n % |challenge|, Absorbed(challenge, key, data, n);
    AbsorbedPrefix(challenge, key, data, [a], n);
    AbsorbedPrefix(challenge, key, data, [b], n);
    MixedDifference(c[at], c[n % |challenge|], a, b);
  }

  lemma {:induction false} FrontReplaced(challenge: seq<byte>, data: seq<byte>, i: nat)
    requires i < |data| <= |challenge|
    ensures var c := data[..i] + challenge[i..];
            |c| == |challenge| && c[i := data[i]] == data[..i + 1] + challenge[i + 1..]
  {
  }

  lemma {:induction false} SmallModulo(i: nat, n: nat)
    requires i < n
    ensures i % n == i
  {
  }

  /** A key of ones replaces the front of a long challenge by the material. */
  lemma {:induction false} OnesReplace(challenge: seq<byte>, key: seq<byte>, data: seq<byte>, n: nat)
    requires challenge != [] && key != [] && n <= |data| <= |challenge| && forall k :: 0 <= k < |key| ==> key[k] == 1
    ensures Absorbed(challenge, key, data, n) == data[..n] + challenge[n..]
  {
    if n > 0 {
      var i := n - 1;
      OnesReplace(challenge, key, data, i);
      var c := data[..i] + challenge[i..];
      FrontReplaced(challenge, data, i);
      SmallModulo(i, |c|);
      assert key[i % |key|] == 1 && key[i % |key|] * i == i;
      Xor8Gone(c[i], data[i]);
    }
  }

  /** In general a byte goes to the place that its number times a key byte gives, over what is there. */
  lemma {:induction false} OneByteMixed(challenge: seq<byte>, key: seq<byte>, data: seq<byte>, b: byte, at: nat)
    requires challenge != [] && key != [] && at == key[|data| % |key|] * |data| % |challenge|
    ensures var c := Absorbed(challenge, key, data, |data|);
            Absorbed(challenge, key, data + [b], |data| + 1) == c[at := Xor8(c[at], Xor8(c[|data| % |challenge|], b))]
  {
    AbsorbedPrefix(challenge, key, data, [b], |data|);
  }

  // ----- The draws -----

  /** The mask of a limit is the smallest number of ones that covers it. */
  lemma {:induction false} MaskIsOnes(limit: byte, mask: nat, k: nat) returns (bits: nat)
    requires mask >= 1 && (mask == 1 || mask < 2 * limit) && k >= 1 && mask == Pow2(k) - 1 && (k > 1 ==> Pow2(k - 1) - 1 < limit)
    ensures bits >= 1 && MaskFrom(limit, mask) == Pow2(bits) - 1 >= limit && (bits > 1 ==> Pow2(bits - 1) - 1 < limit)
    decreases limit - mask
  {
    if mask < limit {
      bits := MaskIsOnes(limit, 2 * mask + 1, k + 1);
    } else {
      bits := k;
    }
  }

  /** The running sum picks a card and adds a key byte, and the key's length behind its last byte. */
  function NextSum(cards: seq<byte>, key: seq<byte>, at: nat, sum: byte): byte
    requires |cards| == DECK && at < |key|
  {
    (cards[sum] as int + key[at] + if at == |key| - 1 then |key| else 0) % 256
  }

  ghost predicate Path(cards: seq<byte>, key: seq<byte>, pos: nat, sums: seq<byte>)
    requires |cards| == DECK && key != []
  {
    forall i :: 0 <= i < |sums| - 1 ==> sums[i + 1] == NextSum(cards, key, (pos + i) % |key|, sums[i])
  }

  lemma {:induction false} SumOnce(x: nat, n: nat)
    ensures (x % 256 + n) % 256 == (x + n) % 256
  {
  }

  lemma {:induction false} DrawnSum(cards: seq<byte>, limit: byte, mask: nat, key: seq<byte>, rsum: byte, pos: nat, retries: nat)
    requires |cards| == DECK && limit > 0 && pos < |key|
    ensures Drawn(cards, limit, mask, key, rsum, pos, retries).rsum == NextSum(cards, key, pos, rsum)
    ensures Drawn(cards, limit, mask, key, rsum, pos, retries).keyPos == if pos + 1 >= |key| then 0 else pos + 1
  {
    SumOnce(cards[rsum] as int + key[pos], |key|);
  }

  lemma {:induction false} PathSecond(pos: nat, next: nat, i: nat, n: nat)
    requires pos < n && next == (if pos + 1 >= n then 0 else pos + 1) && i > 0
    ensures (pos + i) % n == (next + (i - 1)) % n
  {
    TypeX.StepAround(pos, i - 1, n, next);
  }

  lemma {:induction false} PathFirst(cards: seq<byte>, key: seq<byte>, pos: nat, next: nat, rsum: byte, sums: seq<byte>)
    requires |cards| == DECK && pos < |key| && next == (if pos + 1 >= |key| then 0 else pos + 1)
    requires sums != [] && Path(cards, key, next, sums) && sums[0] == NextSum(cards, key, pos, rsum)
    ensures Path(cards, key, pos, [rsum] + sums)
  {
    var all := [rsum] + sums;
    forall i | 0 <= i < |all| - 1
      ensures all[i + 1] == NextSum(cards, key, (pos + i) % |key|, all[i])
    {
      if i == 0 {
        SmallModulo(pos, |key|);
      } else {
        PathSecond(pos, next, i, |key|);
        var j := i - 1;
        assert sums[j + 1] == NextSum(cards, key, (next + j) % |key|, sums[j]);
      }
    }
  }

  /** The tries of a draw: all but the last give more than the limit, and only a twelfth is reduced. */
  ghost predicate Tried(limit: byte, bits: nat, tried: nat, sums: seq<byte>, u: nat)
    requires limit > 0
  {
    && 2 <= |sums| <= 13 - tried
    && (forall i :: 1 <= i < |sums| - 1 ==> sums[i] % Pow2(bits) > limit)
    && var last := sums[|sums| - 1] % Pow2(bits);
       u == if tried + |sums| == 13 then last % limit else last
  }

  lemma {:induction false} DrawingTries(cards: seq<byte>, limit: byte, bits: nat, mask: nat, key: seq<byte>, rsum: byte, pos: nat, retries: nat) returns (sums: seq<byte>)
    requires |cards| == DECK && limit > 0 && pos < |key| && retries <= MAX_RETRIES && bits <= 8 && mask == Pow2(bits) - 1
    ensures var r := Drawing(cards, limit, mask, key, rsum, pos, retries);
            && |sums| == r.draws - retries + 1 && sums[0] == rsum && sums[|sums| - 1] == r.rsum
            && Path(cards, key, pos, sums) && Tried(limit, bits, retries, sums, r.u)
    decreases MAX_RETRIES - retries
  {
    var d := Drawn(cards, limit, mask, key, rsum, pos, retries);
    DrawnSum(cards, limit, mask, key, rsum, pos, retries);
    AndModulo(d.rsum, bits, 8);
    if d.u <= limit {
      PathFirst(cards, key, pos, d.keyPos, rsum, [d.rsum]);
      sums := [rsum] + [d.rsum];
    } else {
      var rest := DrawingTries(cards, limit, bits, mask, key, d.rsum, d.keyPos, retries + 1);
      PathFirst(cards, key, pos, d.keyPos, rsum, rest);
      sums := [rsum] + rest;
    }
  }

  /**
    A draw walks along the running sums until their low bits, as many as the limit needs, are within
    the limit; a twelfth sum is reduced.
   */
  lemma {:induction false} KeyRandWalks(cards: seq<byte>, limit: byte, key: seq<byte>, rsum: byte, pos: nat) returns (sums: seq<byte>, bits: nat)
    requires |cards| == DECK && pos < |key| && limit > 0
    ensures Pow2(bits) > limit && bits >= 1 && (bits > 1 ==> Pow2(bits - 1) <= limit)
    ensures var r := KeyRand(cards, limit, key, rsum, pos);
            && |sums| == r.draws + 1 && sums[0] == rsum && sums[|sums| - 1] == r.rsum
            && Path(cards, key, pos, sums) && Tried(limit, bits, 0, sums, r.u)
  {
    assert Pow2(1) == 2 && Pow2(0) == 1;
    bits := MaskIsOnes(limit, 1, 1);
    FewBits(bits, limit);
    sums := DrawingTries(cards, limit, bits, MaskFrom(limit, 1), key, rsum, pos, 0);
  }

  lemma {:induction false} FewBits(bits: nat, limit: byte)
    requires bits >= 1 && (bits > 1 ==> Pow2(bits - 1) - 1 < limit)
    ensures bits <= 8
  {
    WordSizes();
    if bits > 8 { PowGrows(8, bits - 1); }
  }

  lemma {:induction false} PowGrows(a: nat, b: nat)
    requires a <= b
    ensures Pow2(a) <= Pow2(b)
  {
    if a < b { PowGrows(a, b - 1); }
  }

  // ----- The shuffle -----

  /** The places from `n` on are done. */
  lemma {:induction false} ShuffleFreezes(s: Shuffle, key: seq<byte>, n: nat, k: nat)
    requires n <= |s.cards| == DECK && s.keyPos < |key| && n <= k < DECK
    ensures Shuffled(s, key, n).cards[k] == s.cards[k]
    decreases n
  {
    if n > 0 {
      var d := KeyRand(s.cards, n - 1, key, s.rsum, s.keyPos);
      ShuffleFreezes(Shuffle(Swapped(s.cards, n - 1, d.u), d.rsum, d.keyPos), key, n - 1, k);
    }
  }

  /** The highest place that is not done gets the card that is drawn there, from those not done, for its own. */
  lemma {:induction false} CardDrawn(s: Shuffle, key: seq<byte>, n: nat) returns (next: Shuffle)
    requires 1 <= n <= |s.cards| == DECK && s.keyPos < |key|
    ensures var d := KeyRand(s.cards, n - 1, key, s.rsum, s.keyPos);
            && d.u < n && Shuffled(s, key, n).cards[n - 1] == s.cards[d.u]
            && |next.cards| == DECK && next.cards[n - 1] == s.cards[d.u] && next.cards[d.u] == s.cards[n - 1]
            && (forall k :: 0 <= k < DECK && k != n - 1 && k != d.u ==> next.cards[k] == s.cards[k])
            && next.rsum == d.rsum && next.keyPos == d.keyPos < |key| && Shuffled(s, key, n) == Shuffled(next, key, n - 1)
  {
    var d := KeyRand(s.cards, n - 1, key, s.rsum, s.keyPos);
    next := Shuffle(Swapped(s.cards, n - 1, d.u), d.rsum, d.keyPos);
    ShuffleFreezes(next, key, n - 1, n - 1);
  }

  /** A keyed cipher deals 0 to 255, shuffles all of it and reads its registers off the deck. */
  lemma {:induction false} KeyedReads(challenge: seq<byte>, n: nat)
    requires challenge != [] && n == 256
    ensures |Identity(n)| == n && forall k :: 0 <= k < n ==> Identity(n)[k] == k
    ensures var c, s := Keyed(challenge), Shuffled(Shuffle(Identity(n), 0, 0), challenge, n);
            && c.cards == s.cards && c.rotor == s.cards[1] && c.ratchet == s.cards[3] && c.avalanche == s.cards[5]
            && c.lastPlain == s.cards[7] && c.lastCipher == s.cards[s.rsum]
  {
    KeyedFrom(challenge, Shuffled(Shuffle(Identity(n), 0, 0), challenge, n), n);
  }

  // ----- One step -----

  predicate Different(a: byte, b: byte, c: byte, d: byte) {
    a != b && a != c && a != d && b != c && b != d && c != d
  }

  /** Four different places pass their cards around. */
  lemma {:induction false} RotationCycles(cards: seq<byte>, a: byte, b: byte, c: byte, d: byte)
    requires |cards| == DECK && Different(a, b, c, d)
    ensures var r := Rotated(cards, a, b, c, d);
            && r[a] == cards[b] && r[b] == cards[c] && r[c] == cards[d] && r[d] == cards[a]
            && forall k :: 0 <= k < DECK && k != a && k != b && k != c && k != d ==> r[k] == cards[k]
  {
  }

  /** The deck 0 to 255 with four cards passed around. */
  datatype Passing = Passing(a: byte, b: byte, c: byte, d: byte) {
    function Card(k: byte): byte {
      if k == a then b else if k == b then c else if k == c then d else if k == d then a else k
    }
  }

  lemma {:induction false} FreshRotation(cards: seq<byte>, p: Passing)
    requires cards == Identity(DECK) && Different(p.a, p.b, p.c, p.d)
    ensures forall k: byte {:trigger p.Card(k)} :: Rotated(cards, p.a, p.b, p.c, p.d)[k] == p.Card(k)
  {
    RotationCycles(cards, p.a, p.b, p.c, p.d);
  }

  /**
    One step on a fresh deck: the ratchet moves by the rotor, the rotor by one, four cards are passed
    around, and the avalanche moves by the card it looks up.
   */
  lemma {:induction false} FreshTurn(s: Cipher, p: Passing, avalanche: byte)
    requires s.cards == Identity(DECK) && Different(p.a, p.b, p.c, p.d)
    requires p.a == s.lastCipher && p.c == s.lastPlain && p.b as int == (s.ratchet as int + s.rotor) % 256 && p.d as int == (s.rotor as int + 1) % 256
    requires avalanche as int == (s.avalanche as int + p.b) % 256
    ensures var t := Turned(s);
            && t.ratchet == p.b && t.rotor == p.d && t.avalanche == avalanche && t.lastPlain == p.c && t.lastCipher == p.a
            && forall k: byte {:trigger p.Card(k)} :: t.cards[k] == p.Card(k)
  {
    FreshRotation(s.cards, p);
    assert p.Card(p.a) == p.b;
  }

  lemma {:induction false} FreshLooks(t: Cipher, p: Passing, i: byte, j: byte)
    requires t.ratchet == p.b && t.rotor == p.d && t.lastPlain == p.c && t.lastCipher == p.a && Different(p.a, p.b, p.c, p.d)
    requires forall k: byte {:trigger p.Card(k)} :: t.cards[k] == p.Card(k)
    requires i as int == (p.Card(t.avalanche) as int + p.a) % 256 && j as int == (p.d as int + p.b + p.c) % 256
    ensures First(t) == p.Card(i) && Second(t) == p.Card(p.Card(j))
  {
    assert p.Card(p.d) == p.a && p.Card(p.c) == p.d && p.Card(p.a) == p.b && p.Card(p.b) == p.c;
    assert t.cards[t.avalanche] == p.Card(t.avalanche);
    SumOnce(p.d as int + p.b, p.c);
  }

  /** The byte meets two cards of the new deck. */
  lemma {:induction false} FreshStep(s: Cipher, b: byte, p: Passing, avalanche: byte, i: byte, j: byte)
    requires s.cards == Identity(DECK) && Different(p.a, p.b, p.c, p.d)
    requires p.a == s.lastCipher && p.c == s.lastPlain && p.b as int == (s.ratchet as int + s.rotor) % 256 && p.d as int == (s.rotor as int + 1) % 256
    requires avalanche as int == (s.avalanche as int + p.b) % 256
    requires i as int == (p.Card(avalanche) as int + p.a) % 256 && j as int == (p.d as int + p.b + p.c) % 256
    ensures var (t, c) := EncryptStep(s, b);
            && c == Xor8(Xor8(b, p.Card(i)), p.Card(p.Card(j)))
            && t.ratchet == p.b && t.rotor == p.d && t.avalanche == avalanche && t.lastPlain == b && t.lastCipher == c
  {
    FreshTurn(s, p, avalanche);
    FreshLooks(Turned(s), p, i, j);
  }

  lemma {:induction false} XorStep(a: nat, b: nat, width: nat, rest: nat)
    requires width > 0 && Xor(a / 2, b / 2, width - 1) == rest
    ensures Xor(a, b, width) == (if a % 2 == b % 2 then 0 else 1) + 2 * rest
  {
  }

  lemma {:induction false} SixtyThree()
    ensures Xor8(110, 81) == 63
  {
    XorStep(1, 1, 2, 0);
    XorStep(3, 2, 3, 0);
    XorStep(6, 5, 4, 1);
    XorStep(13, 10, 5, 3);
    XorStep(27, 20, 6, 7);
    XorStep(55, 40, 7, 15);
    XorStep(110, 81, 8, 31);
  }

  lemma {:induction false} KnownPassing(p: Passing)
    requires p == Passing(50, 30, 40, 11)
    ensures Different(p.a, p.b, p.c, p.d) && p.Card(60) == 60 && p.Card(110) == 110 && p.Card(81) == 81
  {
  }

  /** A byte worked out by hand: cards 110 and 81 meet a zero. */
  lemma {:induction false} KnownByte(s: Cipher, b: byte)
    requires s.cards == Identity(DECK) && b == 0
    requires s.rotor == 10 && s.ratchet == 20 && s.avalanche == 30 && s.lastPlain == 40 && s.lastCipher == 50
    ensures EncryptStep(s, b).1 == 63
  {
    var p := Passing(50, 30, 40, 11);
    KnownPassing(p);
    FreshStep(s, b, p, 60, 110, 81);
    Xor8Zero(110);
    SixtyThree();
  }

  // ----- The header -----

  lemma {:induction false} LengthBytes()
    ensures Xor8(7, 0xEC) == 0xEB && Xor8(8, 0xEA) == 0xE2
  {
    WordSizes();
    XorZero(29, 5);
    XorStep(1, 59, 6, 29);
    XorStep(3, 118, 7, 58);
    XorStep(7, 0xEC, 8, 117);
    XorZero(14, 4);
    XorStep(1, 29, 5, 14);
    XorStep(2, 58, 6, 28);
    XorStep(4, 117, 7, 56);
    XorStep(8, 0xEA, 8, 113);
  }

  /** Seven bytes and eight bytes are announced, under 0xEC and 0xEA. */
  lemma {:induction false} HeaderBytes(rand: seq<byte>, material: seq<byte>)
    requires |rand| == 5 && |material| == 8
    ensures Header(rand, material) == [0xEB, 0x00, 0x00] + rand + [0xE2] + material
  {
    LengthBytes();
  }
}
