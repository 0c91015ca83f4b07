/**
  Encrypted game statistics payloads: a masked sum of the plain bytes, then the bytes under a
  keystream that the sum seeds.
 */
module DwcPayload {
  import opened Bytes
  import opened Keystream

  datatype StatsInfo = StatsInfo(checksumMask: uint32, multiplier: uint32, increment: uint32, modulus: uint32)

  predicate Usable(keys: StatsInfo) {
    keys.modulus != 0
  }

  datatype Payload = Ok(pid: uint32, body: seq<byte>, isNew: bool) | BadLength | BadChecksum

  const WORD: nat := 0x1_0000_0000

  function LittleEndian(s: seq<byte>): uint32
    requires |s| == 4
  {
    Uint32([s[3], s[2], s[1], s[0]])
  }

  function PutLittleEndian(c: uint32): (s: seq<byte>)
    ensures |s| == 4
  {
    var b := PutUint32(c);
    [b[3], b[2], b[1], b[0]]
  }

  // ----- The keystream -----

  function Seed(checksum: uint32): uint32 {
    WordSizes();
    var low := And(checksum, 0xFFFF, 32);
    Or(low, low * 0x1_0000, 32)
  }

  function NextSeed(keys: StatsInfo, seed: uint32): uint32
    requires Usable(keys)
  {
    ((seed as int) * keys.multiplier + keys.increment) % WORD % keys.modulus
  }

  function KeyByte(seed: uint32): byte {
    seed / 0x1_0000 % 0x100
  }

  /** The seed after `n` bytes. */
  function SeedAt(keys: StatsInfo, seed: uint32, n: nat): uint32
    requires Usable(keys)
  {
    if n == 0 then seed else NextSeed(keys, SeedAt(keys, seed, n - 1))
  }

  /** The keystream: the seed advances before every byte. */
  function Key(keys: StatsInfo, seed: uint32): nat -> byte
    requires Usable(keys)
  {
    (i: nat) => KeyByte(SeedAt(keys, seed, i + 1))
  }

  function Sum(data: seq<byte>): uint32 {
    if data == [] then 0 else ((Sum(data[..|data| - 1]) as int) + data[|data| - 1]) % WORD
  }

  // ----- The two directions -----

  /** The masked checksum seeds a keystream; which one does not matter to what is accepted. */
  datatype Codec = Codec(mask: uint32, key: uint32 -> nat -> byte)

  function CodecOf(keys: StatsInfo): Codec
    requires Usable(keys)
  {
    Codec(keys.checksumMask, (checksum: uint32) => Key(keys, Seed(checksum)))
  }

  function Encode(codec: Codec, plain: seq<byte>): (r: seq<byte>)
    ensures |r| == |plain| + 4
  {
    var checksum := Sum(plain);
    PutUint32(Xor32(checksum, codec.mask)) + Flip(codec.key(checksum), 0, plain)
  }

  /** Splits off the profile; the new type announces the length of its body. */
  function Parsed(plain: seq<byte>): Payload
    requires |plain| >= 4
  {
    var pid := LittleEndian(plain[..4]);
    if |plain| >= 8 && LittleEndian(plain[4..8]) == |plain| - 8 then Ok(pid, plain[8..], true)
    else Ok(pid, plain[4..], false)
  }

  function Checksum(codec: Codec, data: seq<byte>): uint32
    requires |data| >= 4
  {
    Xor32(Uint32(data[..4]), codec.mask)
  }

  function Plain(codec: Codec, data: seq<byte>): (r: seq<byte>)
    requires |data| >= 4
    ensures |r| == |data| - 4
  {
    Flip(codec.key(Checksum(codec, data)), 0, data[4..])
  }

  function Decrypted(codec: Codec, data: seq<byte>): Payload {
    if |data| < 8 then BadLength
    else if Sum(Plain(codec, data)) != Checksum(codec, data) then BadChecksum
    else Parsed(Plain(codec, data))
  }

  method DecryptDwc(keys: StatsInfo, data: seq<byte>) returns (r: Payload)
    requires Usable(keys)
    ensures r == Decrypted(CodecOf(keys), data)
    ensures r.Ok? <==> exists plain :: IsEncoding(CodecOf(keys), data, plain)
  {
    AcceptsIffEncoding(CodecOf(keys), data);
    if |data| < 8 {
      return BadLength;
    }
    var checksum := Xor32(Uint32(data[..4]), keys.checksumMask);
    var decoded := new byte[|data| - 4](i requires 0 <= i < |data| - 4 => data[4 + i]);
    assert decoded[..] == data[4..];
    Unmask(keys, Seed(checksum), decoded);
    var sum := SumBytes(decoded);
    if sum != checksum {
      return BadChecksum;
    }
    r := Split(decoded[..]);
  }

  method Split(decoded: seq<byte>) returns (r: Payload)
    requires |decoded| >= 4
    ensures r == Parsed(decoded)
  {
    var pid := LittleEndian(decoded[..4]);
    if |decoded| >= 8 && LittleEndian(decoded[4..8]) == |decoded[8..]| {
      return Ok(pid, decoded[8..], true);
    }
    r := Ok(pid, decoded[4..], false);
  }

  method Unmask(keys: StatsInfo, start: uint32, decoded: array<byte>)
    requires Usable(keys)
    modifies decoded
    ensures decoded[..] == Flip(Key(keys, start), 0, old(decoded[..]))
  {
    ghost var was, key := decoded[..], Key(keys, start);
    var seed := start;
    for i := 0 to decoded.Length
      invariant seed == SeedAt(keys, start, i)
      invariant forall k :: 0 <= k < i ==> decoded[k] == Xor8(was[k], key(k))
      invariant forall k :: i <= k < decoded.Length ==> decoded[k] == was[k]
    {
      seed := NextSeed(keys, seed);
      assert KeyByte(seed) == key(i);
      decoded[i] := Xor8(decoded[i], KeyByte(seed));
    }
  }

  method SumBytes(decoded: array<byte>) returns (sum: uint32)
    ensures sum == Sum(decoded[..])
  {
    sum := 0;
    for i := 0 to decoded.Length
      invariant sum == Sum(decoded[..i])
    {
      assert decoded[..i + 1][..i] == decoded[..i];
      sum := ((sum as int) + decoded[i]) % WORD;
    }
    assert decoded[..decoded.Length] == decoded[..];
  }

  // ----- What is accepted -----

  lemma {:induction false} DecodesBack(codec: Codec, plain: seq<byte>)
    ensures var data := Encode(codec, plain);
            Checksum(codec, data) == Sum(plain) && Plain(codec, data) == plain
  {
    var data, masked := Encode(codec, plain), Xor32(Sum(plain), codec.mask);
    assert data[..4] == PutUint32(masked);
    assert data[4..] == Flip(codec.key(Sum(plain)), 0, plain);
    Uint32OfPut(masked);
    Xor32Cancel(Sum(plain), codec.mask);
    FlipTwice(codec.key(Sum(plain)), 0, plain);
  }

  /** Every encoded plaintext of at least four bytes is accepted, and gives back its content. */
  lemma {:induction false} RoundTrip(codec: Codec, plain: seq<byte>)
    requires |plain| >= 4
    ensures Decrypted(codec, Encode(codec, plain)) == Parsed(plain)
  {
    DecodesBack(codec, plain);
  }

  /** Bytes whose sum matches are the encoding of what they decrypt to. */
  lemma {:induction false} EncodesBack(codec: Codec, data: seq<byte>)
    requires |data| >= 4 && Sum(Plain(codec, data)) == Checksum(codec, data)
    ensures Encode(codec, Plain(codec, data)) == data
  {
    var head := data[..4];
    PutOfUint32(head);
    Xor32Cancel(Uint32(head), codec.mask);
    FlipTwice(codec.key(Checksum(codec, data)), 0, data[4..]);
    assert data == head + data[4..];
  }

  ghost predicate IsEncoding(codec: Codec, data: seq<byte>, plain: seq<byte>)
  {
    |plain| >= 4 && Encode(codec, plain) == data
  }

  /** Exactly the encodings of plaintexts of at least four bytes are accepted. */
  lemma {:induction false} AcceptsIffEncoding(codec: Codec, data: seq<byte>)
    ensures Decrypted(codec, data).Ok? <==> exists plain :: IsEncoding(codec, data, plain)
  {
    if Decrypted(codec, data).Ok? {
      EncodesBack(codec, data);
      assert IsEncoding(codec, data, Plain(codec, data));
    }
    forall plain | IsEncoding(codec, data, plain)
      ensures Decrypted(codec, data).Ok?
    {
      RoundTrip(codec, plain);
    }
  }

  lemma {:induction false} EncodingUnique(codec: Codec, plain: seq<byte>, other: seq<byte>)
    requires Encode(codec, plain) == Encode(codec, other)
    ensures plain == other
  {
    DecodesBack(codec, plain);
    DecodesBack(codec, other);
  }

  lemma {:induction false} ParsedOld(pid: uint32, head: seq<byte>, body: seq<byte>)
    requires |head| == 4 && LittleEndian(head) == pid
    ensures Parsed(head + body) == Ok(pid, body, false) <==> !(|body| >= 4 && LittleEndian(body[..4]) == |body| - 4)
  {
    var plain := head + body;
    assert plain[..4] == head && plain[4..] == body;
    if |body| >= 4 {
      assert plain[4..8] == body[..4];
    }
  }

  /** An old-type body comes back as sent unless its first word happens to announce its own length. */
  lemma {:induction false} OldTypeIff(codec: Codec, pid: uint32, body: seq<byte>)
    ensures Decrypted(codec, Encode(codec, PutLittleEndian(pid) + body)) == Ok(pid, body, false)
            <==> !(|body| >= 4 && LittleEndian(body[..4]) == |body| - 4)
  {
    var head := PutLittleEndian(pid);
    RoundTrip(codec, head + body);
    LittleEndianRoundTrip(pid);
    ParsedOld(pid, head, body);
  }

  lemma {:induction false} NewTypeRoundTrip(codec: Codec, pid: uint32, body: seq<byte>)
    requires |body| < WORD
    ensures Decrypted(codec, Encode(codec, PutLittleEndian(pid) + PutLittleEndian(|body|) + body)) == Ok(pid, body, true)
  {
    var plain := PutLittleEndian(pid) + PutLittleEndian(|body|) + body;
    RoundTrip(codec, plain);
    assert plain[..4] == PutLittleEndian(pid) && plain[4..8] == PutLittleEndian(|body|) && plain[8..] == body;
    LittleEndianRoundTrip(pid);
    LittleEndianRoundTrip(|body|);
  }

  lemma {:induction false} LittleEndianRoundTrip(c: uint32)
    ensures LittleEndian(PutLittleEndian(c)) == c
  {
    var b := PutUint32(c);
    Uint32OfPut(c);
    assert [b[0], b[1], b[2], b[3]] == b;
  }

  // ----- The checksum and the keystream in closed form -----

  function Total(data: seq<byte>): nat {
    if data == [] then 0 else data[0] as int + Total(data[1..])
  }

  lemma {:induction false} TotalSnoc(data: seq<byte>, b: byte)
    ensures Total(data + [b]) == Total(data) + b
    decreases |data|
  {
    if data == [] {
      assert [] + [b] == [b] && [b][1..] == [];
    } else {
      assert (data + [b])[1..] == data[1..] + [b];
      TotalSnoc(data[1..], b);
    }
  }

  lemma {:induction false} SumStep(total: nat, sum: nat, b: byte)
    requires sum == total % WORD
    ensures (sum + b) % WORD == (total + b) % WORD
  {
  }

  /** The sum of all bytes, modulo 2^32. */
  lemma {:induction false} SumIsTotal(data: seq<byte>)
    ensures Sum(data) == Total(data) % WORD
  {
    if data != [] {
      var front, b := data[..|data| - 1], data[|data| - 1];
      SumIsTotal(front);
      TotalSnoc(front, b);
      SumStep(Total(front), Sum(front), b);
      assert data == front + [b];
    }
  }

  /** Words of a plaintext are least significant byte first. */
  lemma {:induction false} LittleEndianMeans(s: seq<byte>)
    requires |s| == 4
    ensures LittleEndian(s) as int == s[0] as int + s[1] as int * 0x100 + s[2] as int * 0x1_0000 + s[3] as int * 0x100_0000
  {
  }

  /** The checksum is the first word under the mask, bit by bit. */
  lemma {:induction false} ChecksumMasked(keys: StatsInfo, data: seq<byte>, i: nat, width: nat)
    requires Usable(keys) && |data| >= 4 && width == 32 && i < width
    ensures BitOf(Checksum(CodecOf(keys), data), i) <==> BitOf(Uint32(data[..4]), i) != BitOf(keys.checksumMask, i)
  {
    WordSizes();
    XorBit(Uint32(data[..4]), keys.checksumMask, width, i);
  }

  /** The low half of the checksum, twice. */
  lemma {:induction false} SeedMeans(checksum: uint32, width: nat)
    requires width == 32
    ensures Seed(checksum) as int == checksum % 0x1_0000 * 0x1_0001
  {
    var low := checksum % 0x1_0000;
    WordSizes();
    AndModulo(checksum, 16, width);
    OrAdds(low, low, 0x1_0000, 16, width);
  }

  function Power(a: nat, n: nat): nat {
    if n == 0 then 1 else a * Power(a, n - 1)
  }

  /** 1 + a + a^2 + ..., `n` terms. */
  function Powers(a: nat, n: nat): nat {
    if n == 0 then 0 else Powers(a, n - 1) + Power(a, n - 1)
  }

  lemma {:induction false} PowersNext(a: nat, n: nat)
    ensures Powers(a, n + 1) == a * Powers(a, n) + 1
  {
    if n > 0 {
      PowersNext(a, n - 1);
      Distributes(a, Powers(a, n - 1), Power(a, n - 1));
    }
  }

  lemma {:induction false} Distributes(a: nat, x: nat, y: nat)
    ensures a * (x + y) == a * x + a * y
  {
  }

  /** The seed after `n` bytes, before reduction. */
  function Advanced(keys: StatsInfo, seed: nat, n: nat): nat {
    Power(keys.multiplier, n) * seed + keys.increment * Powers(keys.multiplier, n)
  }

  lemma {:induction false} AdvancedNext(keys: StatsInfo, seed: nat, n: nat)
    ensures Advanced(keys, seed, n + 1) == Advanced(keys, seed, n) * keys.multiplier + keys.increment
  {
    var a: nat, c: nat := keys.multiplier, keys.increment;
    var p, q := Power(a, n), Powers(a, n);
    PowersNext(a, n);
    Rearranged(a, c, p, q, seed);
  }

  lemma {:induction false} Rearranged(a: nat, c: nat, p: nat, q: nat, seed: nat)
    ensures a * p * seed + c * (a * q + 1) == (p * seed + c * q) * a + c
  {
    var x, y := p * seed, c * q;
    assert a * p * seed == a * x;
    assert c * (a * q + 1) == a * y + c;
    assert (x + y) * a == a * x + a * y;
  }

  lemma {:induction false} ModuloProduct(x: nat, m: nat, a: nat, c: nat)
    requires m > 0
    ensures (x % m * a + c) % m == (x * a + c) % m
  {
    var q, r := DivMod(x, m);
    var t := r * a + c;
    var p, s := DivMod(t, m);
    Regathered(m, q, r, a, c, p, s);
    ModuloUnique(x * a + c, m, q * a + p, s);
  }

  lemma {:induction false} Regathered(m: nat, q: nat, r: nat, a: nat, c: nat, p: nat, s: nat)
    requires r * a + c == m * p + s
    ensures (m * q + r) * a + c == m * (q * a + p) + s
  {
    assert (m * q + r) * a == m * q * a + r * a;
    assert m * (q * a + p) == m * (q * a) + m * p;
    assert m * q * a == m * (q * a);
  }

  /** Reducing modulo 2^32 first does not matter for a modulus that divides it. */
  lemma {:induction false} ModuloTwice(x: nat, m: nat, k: nat)
    requires m > 0 && WORD == m * k
    ensures x % WORD % m == x % m
  {
    var q, r := DivMod(x, WORD);
    var p, s := DivMod(r, m);
    assert x == m * (k * q + p) + s by { Multiples(m, k, q, p, s); }
    ModuloUnique(x, m, k * q + p, s);
  }

  lemma {:induction false} Multiples(m: nat, k: nat, q: nat, p: nat, s: nat)
    ensures m * k * q + (m * p + s) == m * (k * q + p) + s
  {
    assert m * k * q == m * (k * q);
  }

  /** For a modulus that divides 2^32 the seed after `n` bytes in closed form. */
  lemma {:induction false} SeedAtMeans(keys: StatsInfo, seed: uint32, n: nat, k: nat)
    requires Usable(keys) && WORD == keys.modulus * k && n > 0
    ensures SeedAt(keys, seed, n) == Advanced(keys, seed, n) % keys.modulus
  {
    var before: nat := SeedAt(keys, seed, n - 1);
    AdvancedNext(keys, seed, n - 1);
    ModuloTwice(before * keys.multiplier + keys.increment, keys.modulus, k);
    if n == 1 {
      assert Power(keys.multiplier, 0) == 1 && Powers(keys.multiplier, 0) == 0;
      assert Advanced(keys, seed, 0) == seed;
    } else {
      SeedAtMeans(keys, seed, n - 1, k);
      ModuloProduct(Advanced(keys, seed, n - 1), keys.modulus, keys.multiplier, keys.increment);
    }
  }

  /** The keystream: bits 16 to 23 of the advanced seed, which starts with the low half of the checksum twice. */
  lemma {:induction false} KeystreamMeans(keys: StatsInfo, checksum: uint32, i: nat, k: nat, width: nat)
    requires Usable(keys) && WORD == keys.modulus * k && width == 32
    ensures CodecOf(keys).key(checksum)(i) as int
         == Advanced(keys, checksum % 0x1_0000 * 0x1_0001, i + 1) % keys.modulus / 0x1_0000 % 0x100
  {
    SeedMeans(checksum, width);
    SeedAtMeans(keys, Seed(checksum), i + 1, k);
  }

  /** In general the product wraps at 2^32 before it is reduced. */
  lemma {:induction false} WrapsFirst()
    ensures NextSeed(StatsInfo(0, 2, 0, 3), 0x8000_0000) == 0
  {
  }
}
