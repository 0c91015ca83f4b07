/**
  Mii records inside ghost files: the CRC-16 over the record and the clearing of private data, after
  which the stored checksum is right again.
 */
module Mii {
  import opened Bytes

  const MII_SIZE: nat := 0x4C

  type RawMii = s: seq<byte> | |s| == MII_SIZE witness seq(MII_SIZE, _ => 0)

  // ----- The CRC -----

  /** Shifts one message bit into the register, which is reduced by x^16 + x^12 + x^5 + 1. */
  function ShiftIn(crc: uint16, bit: bool): uint16 {
    var d: nat := crc * 2 % 0x1_0000;
    var e := if crc >= 0x8000 then Xor16(d, 0x1021) else d;
    if bit then Xor16(e, 1) else e
  }

  /** The `n` high bits of `val` enter, highest first. */
  function FeedBits(crc: uint16, val: byte, n: nat): uint16
    decreases n, crc, val
  {
    if n == 0 then crc else FeedBits(ShiftIn(crc, val >= 0x80), (val as int) * 2 % 256, n - 1)
  }

  function Crc(data: seq<byte>): uint16 {
    if data == [] then 0 else FeedBits(Crc(data[..|data| - 1]), data[|data| - 1], 8)
  }

  method CalculateMiiCRC(data: seq<byte>) returns (crc: uint16)
    ensures crc == Crc(data)
  {
    crc := 0;
    for k := 0 to |data|
      invariant crc == Crc(data[..k])
    {
      var val: byte := data[k];
      for bits := 8 downto 0
        invariant FeedBits(crc, val, bits) == FeedBits(Crc(data[..k]), data[k], 8)
      {
        if crc >= 0x8000 {
          crc := crc * 2 % 0x1_0000;
          crc := Xor16(crc, 0x1021);
        } else {
          crc := crc * 2 % 0x1_0000;
        }
        if val >= 0x80 {
          crc := Xor16(crc, 1);
        }
        val := (val as int) * 2 % 256;
      }
      assert data[..k + 1][..k] == data[..k];
    }
    assert data[..|data|] == data;
  }

  // ----- Linearity over GF(2) -----

  lemma {:induction false} Xor16Zero(a: uint16)
    ensures Xor16(a, 0) == a && Xor16(0, a) == a
  {
    WordSizes();
    XorZero(a, 16);
  }

  lemma {:induction false} Xor16Exchange(a: uint16, b: uint16, c: uint16, d: uint16)
    ensures Xor16(Xor16(a, b), Xor16(c, d)) == Xor16(Xor16(a, c), Xor16(b, d))
  {
    XorExchange(a, b, c, d, 16);
  }

  lemma {:induction false} Xor16Top(r: uint16, s: uint16)
    ensures (Xor16(r, s) >= 0x8000) == ((r >= 0x8000) != (s >= 0x8000))
  {
    WordSizes();
    assert Pow2(15) == 0x8000;
    XorTop(r, s, 15);
  }

  function Double(crc: uint16): uint16 {
    (crc as int) * 2 % 0x1_0000
  }

  lemma {:induction false} DoubleLinear(r: nat, s: nat, double: (nat, nat, nat), width: nat, size: nat)
    requires width > 0 && size == Pow2(width)
    requires double == (r * 2 % size, s * 2 % size, Xor(r, s, width) * 2 % size)
    ensures double.2 == Xor(double.0, double.1, width)
  {
    XorDouble(r, s, width);
    XorModulo(2 * r, 2 * s, width);
  }

  lemma {:induction false} Xor16Double(r: uint16, s: uint16)
    ensures Double(Xor16(r, s)) == Xor16(Double(r), Double(s))
  {
    WordSizes();
    DoubleLinear(r, s, (Double(r), Double(s), Double(Xor16(r, s))), 16, 0x1_0000);
  }

  function Reduce(top: bool): uint16 {
    if top then 0x1021 else 0
  }

  function Low(bit: bool): uint16 {
    if bit then 1 else 0
  }

  lemma {:induction false} ShiftInSum(crc: uint16, bit: bool)
    ensures ShiftIn(crc, bit) == Xor16(Xor16(Double(crc), Reduce(crc >= 0x8000)), Low(bit))
  {
    var d := Double(crc);
    Xor16Zero(d);
    Xor16Zero(Xor16(d, Reduce(crc >= 0x8000)));
  }

  lemma {:induction false} ShiftInLinear(r: uint16, s: uint16, bit: bool)
    ensures ShiftIn(Xor16(r, s), bit) == Xor16(ShiftIn(r, false), ShiftIn(s, bit))
  {
    var t := Xor16(r, s);
    var p, q := Reduce(r >= 0x8000), Reduce(s >= 0x8000);
    ShiftInSum(r, false);
    ShiftInSum(s, bit);
    ShiftInSum(t, bit);
    Xor16Top(r, s);
    Xor16Double(r, s);
    ReduceLinear(r >= 0x8000, s >= 0x8000);
    Xor16Exchange(Double(r), Double(s), p, q);
    Xor16Exchange(Xor16(Double(r), p), Xor16(Double(s), q), 0, Low(bit));
    Xor16Zero(Low(bit));
  }

  lemma {:induction false} ReduceLinear(p: bool, q: bool)
    ensures Reduce(p != q) == Xor16(Reduce(p), Reduce(q))
  {
    Xor16Zero(0x1021);
    Xor16Zero(0);
    XorSelf(0x1021, 16);
  }

  function Next(val: byte): byte {
    (val as int) * 2 % 256
  }

  lemma {:induction false} FeedStep(crc: uint16, val: byte, n: nat)
    requires n > 0
    ensures FeedBits(crc, val, n) == FeedBits(ShiftIn(crc, val >= 0x80), Next(val), n - 1)
  {
  }

  lemma {:induction false} FeedZero(crc: uint16, zero: byte, n: nat)
    requires n > 0 && zero == 0
    ensures FeedBits(crc, zero, n) == FeedBits(ShiftIn(crc, false), zero, n - 1)
  {
  }

  lemma {:induction false} FeedLinear(r: uint16, s: uint16, val: byte, zero: byte, n: nat)
    requires zero == 0
    ensures FeedBits(Xor16(r, s), val, n) == Xor16(FeedBits(r, zero, n), FeedBits(s, val, n))
    decreases n
  {
    if n > 0 {
      var bit := val >= 0x80;
      var r', s' := ShiftIn(r, false), ShiftIn(s, bit);
      FeedStep(Xor16(r, s), val, n);
      FeedZero(r, zero, n);
      FeedStep(s, val, n);
      ShiftInLinear(r, s, bit);
      FeedLinear(r', s', Next(val), zero, n - 1);
    }
  }

  lemma {:induction false} NextSum(val: byte)
    ensures (if val >= 0x80 then 256 else 0) + Next(val) == 2 * val as int
  {
  }

  /** A plain step doubles the register and the rest of the byte taken together. */
  lemma {:induction false} PlainStep(crc: uint16, val: byte, n: nat) returns (crc': uint16, val': byte)
    requires n > 0 && crc < 0x8000
    ensures FeedBits(crc, val, n) == FeedBits(crc', val', n - 1)
    ensures 256 * crc' as int + val' == 2 * (256 * crc as int + val) && crc' as int <= 2 * crc as int + 1
  {
    crc', val' := ShiftIn(crc, val >= 0x80), Next(val);
    FeedStep(crc, val, n);
    PlainShift(crc, val >= 0x80);
    NextSum(val);
  }

  /** Into a register with an empty high byte a byte is simply appended. */
  lemma {:induction false} FeedPlain(crc: byte, val: byte, n: nat)
    requires n == 8
    ensures FeedBits(crc, val, n) == (crc as int) * 256 + val
  {
    var c, v := PlainStep(crc, val, n);
    c, v := PlainStep(c, v, n - 1);
    c, v := PlainStep(c, v, n - 2);
    c, v := PlainStep(c, v, n - 3);
    c, v := PlainStep(c, v, n - 4);
    c, v := PlainStep(c, v, n - 5);
    c, v := PlainStep(c, v, n - 6);
    c, v := PlainStep(c, v, n - 7);
  }

  lemma {:induction false} PlainShift(crc: uint16, bit: bool)
    requires crc < 0x8000
    ensures ShiftIn(crc, bit) == 2 * crc as int + (if bit then 1 else 0)
  {
    EvenPlusOne(2 * crc as int);
  }

  lemma {:induction false} EvenPlusOne(d: uint16)
    requires d % 2 == 0
    ensures Xor16(d, 1) == d as int + 1
  {
    WordSizes();
    assert Pow2(15) == 0x8000;
    XorZero(d / 2, 15);
  }

  /** A message whose last two bytes are the CRC that it has with them zero has CRC zero. */
  lemma {:induction false} StoredCrcIsZero(body: seq<byte>)
    ensures var crc := Crc(body + [0, 0]); Crc(body + [crc / 256, crc % 256]) == 0
  {
    var start := Crc(body);
    var crc := Crc(body + [0, 0]);
    var hi: byte, lo: byte := crc / 256, crc % 256;
    CrcOfTail(body, 0, 0);
    CrcOfTail(body, hi, lo);
    TailCancels(start, crc, hi, lo, 8);
  }

  lemma {:induction false} TailCancels(start: uint16, crc: uint16, hi: byte, lo: byte, n: nat)
    requires n == 8 && crc == FeedBits(FeedBits(start, 0, n), 0, n) && crc == (hi as int) * 256 + lo
    ensures FeedBits(FeedBits(start, hi, n), lo, n) == 0
  {
    var cleared := FeedBits(start, 0, n);
    Xor16Zero(start);
    FeedLinear(start, 0, hi, 0, n);
    FeedPlain(0, hi, n);
    FeedLinear(cleared, hi, lo, 0, n);
    FeedPlain(hi, lo, n);
    XorSelf(crc, 16);
  }

  lemma {:induction false} CrcOfTail(body: seq<byte>, hi: byte, lo: byte)
    ensures Crc(body + [hi, lo]) == FeedBits(FeedBits(Crc(body), hi, 8), lo, 8)
  {
    var m := body + [hi];
    assert (body + [hi, lo])[..|m|] == m && m[..|body|] == body;
  }

  // ----- Clearing -----

  const OFFICIAL_IDS: seq<nat> := [
    0x80000000ECFF82D2, 0x80000001ECFF82D2, 0x80000002ECFF82D2,
    0x80000003ECFF82D2, 0x80000004ECFF82D2, 0x80000005ECFF82D2]

  function BigEndian(s: seq<byte>): nat {
    if s == [] then 0 else BigEndian(s[..|s| - 1]) * 256 + s[|s| - 1]
  }

  predicate IsOfficial(m: RawMii) {
    BigEndian(m[0x18..0x20]) in OFFICIAL_IDS
  }

  /** One of the first `pairs` characters of the name is the null terminator. */
  predicate Terminated(m: RawMii, pairs: nat)
    requires pairs <= 10
  {
    exists q :: 0 <= q < pairs && m[2 + 2 * q] == 0 && m[3 + 2 * q] == 0
  }

  function BlankAt(m: RawMii, k: nat): byte
    requires k < MII_SIZE
  {
    if k == 0 then m[0] / 0x40 * 0x40
    else if k == 1 then m[1] % 0x20
    else if k < 0x16 then (if Terminated(m, (k - 2) / 2) then 0 else m[k])
    else if k == 0x18 then 0x80
    else if 0x18 < k < 0x20 || 0x36 <= k then 0
    else m[k]
  }

  /** No create ID, nothing behind the name, no creator name, no birthday, no checksum. */
  function Blank(m: RawMii): RawMii {
    seq(MII_SIZE, k requires 0 <= k < MII_SIZE => BlankAt(m, k))
  }

  function Stamp(m: RawMii, crc: uint16): RawMii {
    m[0x4A := crc / 256][0x4B := crc % 256]
  }

  function Clear(m: RawMii): RawMii {
    if IsOfficial(m) then m else Stamp(Blank(m), Crc(Blank(m)))
  }

  method ClearMiiInfo(mii: RawMii) returns (cleared: RawMii)
    ensures cleared == Clear(mii)
  {
    if IsOfficial(mii) {
      return mii;
    }
    var data := new byte[MII_SIZE](k requires 0 <= k < MII_SIZE => mii[k]);
    data[0x18] := 0x80;
    for k := 0x19 to 0x20
      invariant data[0x18] == 0x80 && forall j :: 0x19 <= j < k ==> data[j] == 0
      invariant forall j :: 0 <= j < MII_SIZE && !(0x18 <= j < k) ==> data[j] == mii[j]
    {
      data[k] := 0;
    }
    ghost var idCleared := data[..];
    ClearName(data, mii);
    for k := 0 to 20
      invariant forall j :: 0x36 <= j < 0x36 + k ==> data[j] == 0
      invariant forall j :: 0 <= j < MII_SIZE && !(0x36 <= j < 0x36 + k) ==>
                  data[j] == if 2 <= j < 0x16 then BlankAt(mii, j) else idCleared[j]
    {
      data[0x36 + k] := 0;
    }
    data[0] := data[0] / 0x40 * 0x40;
    data[1] := data[1] % 0x20;
    data[0x4A], data[0x4B] := 0, 0;
    assert data[..] == Blank(mii);
    var crc := CalculateMiiCRC(data[..]);
    data[0x4A], data[0x4B] := crc / 256, crc % 256;
    return data[..];
  }

  /** Clears every character of the name behind the null terminator. */
  method ClearName(data: array<byte>, ghost mii: RawMii)
    requires data.Length == MII_SIZE && forall j :: 2 <= j < 0x16 ==> data[j] == mii[j]
    modifies data
    ensures forall j :: 2 <= j < 0x16 ==> data[j] == BlankAt(mii, j)
    ensures forall j :: 0 <= j < MII_SIZE && !(2 <= j < 0x16) ==> data[j] == old(data[j])
  {
    var hitNullTerminator := false;
    for q := 0 to 10
      invariant hitNullTerminator == Terminated(mii, q)
      invariant forall j :: 2 <= j < 2 + 2 * q ==> data[j] == BlankAt(mii, j)
      invariant forall j :: 2 + 2 * q <= j < 0x16 ==> data[j] == mii[j]
      invariant forall j :: 0 <= j < MII_SIZE && !(2 <= j < 0x16) ==> data[j] == old(data[j])
    {
      if hitNullTerminator {
        data[2 + 2 * q], data[3 + 2 * q] := 0, 0;
      } else if data[2 + 2 * q] == 0 && data[3 + 2 * q] == 0 {
        hitNullTerminator := true;
      }
    }
  }

  /** The terminator of the name is character `t`. */
  predicate EndsName(m: RawMii, t: nat)
    requires t < 10
  {
    m[2 + 2 * t] == 0 && m[3 + 2 * t] == 0 && forall q :: 0 <= q < t ==> m[2 + 2 * q] != 0 || m[3 + 2 * q] != 0
  }

  /** What is left of a record: the flags, the name up to its terminator, and the looks. */
  lemma {:induction false} ClearedRecord(m: RawMii)
    requires !IsOfficial(m)
    ensures var c := Clear(m);
            && c[0] as int == m[0] - m[0] % 0x40 && c[1] == m[1] % 0x20
            && c[0x16..0x18] == m[0x16..0x18] && c[0x18] == 0x80 && c[0x19..0x20] == [0, 0, 0, 0, 0, 0, 0]
            && c[0x20..0x36] == m[0x20..0x36] && c[0x36..0x4A] == seq(20, _ => 0)
    ensures forall t :: 0 <= t < 10 && EndsName(m, t) ==>
              Clear(m)[2..2 + 2 * t] == m[2..2 + 2 * t] && forall k :: 2 + 2 * t <= k < 0x16 ==> Clear(m)[k] == 0
    ensures (forall t :: 0 <= t < 10 ==> !EndsName(m, t)) ==> Clear(m)[2..0x16] == m[2..0x16]
  {
    var b := Blank(m);
    forall t | 0 <= t < 10 && EndsName(m, t)
      ensures forall k :: 2 <= k < 2 + 2 * t ==> b[k] == m[k]
      ensures forall k :: 2 + 2 * t <= k < 0x16 ==> b[k] == 0
    {
      assert forall pairs :: 0 <= pairs <= 10 ==> (Terminated(m, pairs) <==> t < pairs);
    }
    if !Terminated(m, 10) {
      assert forall k :: 2 <= k < 0x16 ==> b[k] == m[k];
    } else {
      var t := FirstTerminator(m);
      assert EndsName(m, t);
    }
  }

  lemma {:induction false} FirstTerminator(m: RawMii) returns (t: nat)
    requires Terminated(m, 10)
    ensures t < 10 && EndsName(m, t)
  {
    t := 0;
    while !(m[2 + 2 * t] == 0 && m[3 + 2 * t] == 0)
      invariant t < 10 && forall q :: 0 <= q < t ==> m[2 + 2 * q] != 0 || m[3 + 2 * q] != 0
      decreases 10 - t
    {
      t := t + 1;
    }
  }

  lemma {:induction false} BigEndianBytes(s: seq<byte>)
    requires |s| == 8
    ensures BigEndian(s) == s[0] as int * 0x100_0000_0000_0000 + s[1] as int * 0x1_0000_0000_0000 + s[2] as int * 0x100_0000_0000
                            + s[3] as int * 0x1_0000_0000 + s[4] as int * 0x100_0000 + s[5] as int * 0x1_0000 + s[6] as int * 0x100 + s[7]
  {
    assert s[..7][..6] == s[..6] && s[..6][..5] == s[..5] && s[..5][..4] == s[..4];
    assert s[..4][..3] == s[..3] && s[..3][..2] == s[..2] && s[..2][..1] == s[..1] && s[..1][..0] == [];
    assert BigEndian([]) == 0 && BigEndian(s[..1]) == s[0] as int;
    assert BigEndian(s[..2]) == s[0] as int * 0x100 + s[1];
    assert BigEndian(s[..4]) == BigEndian(s[..2]) * 0x1_0000 + s[2] as int * 0x100 + s[3];
    assert BigEndian(s[..6]) == BigEndian(s[..4]) * 0x1_0000 + s[4] as int * 0x100 + s[5];
  }

  lemma {:induction false} OfficialFrom(s: seq<byte>, k: nat)
    requires |s| == 8 && k <= 5 && s == [0x80, 0, 0, k, 0xEC, 0xFF, 0x82, 0xD2]
    ensures BigEndian(s) == OFFICIAL_IDS[k]
  {
    BigEndianBytes(s);
  }

  lemma {:induction false} OfficialTo(s: seq<byte>, k: nat)
    requires |s| == 8 && k <= 5 && BigEndian(s) == 0x8000_0000_ECFF_82D2 + k * 0x1_0000_0000
    ensures s == [0x80, 0, 0, k, 0xEC, 0xFF, 0x82, 0xD2]
  {
    BigEndianBytes(s);
  }

  /** The six official records, by the bytes of their identifier. */
  lemma {:induction false} OfficialIff(m: RawMii)
    ensures IsOfficial(m) <==> exists k: byte :: k <= 5 && m[0x18..0x20] == [0x80, 0, 0, k, 0xEC, 0xFF, 0x82, 0xD2]
  {
    var id := m[0x18..0x20];
    if IsOfficial(m) {
      var k :| 0 <= k < |OFFICIAL_IDS| && OFFICIAL_IDS[k] == BigEndian(id);
      OfficialTo(id, k);
    }
    forall k: byte | k <= 5 && id == [0x80, 0, 0, k, 0xEC, 0xFF, 0x82, 0xD2]
      ensures IsOfficial(m)
    {
      OfficialFrom(id, k);
    }
  }

  /** A cleared record has CRC zero over all its bytes, the stored checksum included. */
  lemma {:induction false} ClearedCrcIsZero(m: RawMii)
    requires !IsOfficial(m)
    ensures Crc(Clear(m)) == 0
  {
    var b := Blank(m);
    var body := b[..0x4A];
    assert b == body + [0, 0];
    assert Clear(m) == body + [Crc(b) / 256, Crc(b) % 256];
    StoredCrcIsZero(body);
  }

  lemma {:induction false} ClearedIsNotOfficial(m: RawMii)
    requires !IsOfficial(m)
    ensures !IsOfficial(Clear(m))
  {
    var id := Clear(m)[0x18..0x20];
    assert id[0] == 0x80 && id[1] == id[2] == id[3] == id[4] == id[5] == id[6] == id[7] == 0;
    LastByte(id);
  }

  lemma {:induction false} LastByte(id: seq<byte>)
    requires |id| == 8 && id[7] == 0
    ensures BigEndian(id) % 256 == 0
  {
  }

  lemma {:induction false} NameCleared(m: RawMii, q: nat)
    requires !IsOfficial(m) && q < 10
    ensures var c := Clear(m);
            && c[2 + 2 * q] == (if Terminated(m, q) then 0 else m[2 + 2 * q])
            && c[3 + 2 * q] == (if Terminated(m, q) then 0 else m[3 + 2 * q])
  {
    assert (2 + 2 * q - 2) / 2 == q && (3 + 2 * q - 2) / 2 == q;
    assert Blank(m)[2 + 2 * q] == BlankAt(m, 2 + 2 * q) && Blank(m)[3 + 2 * q] == BlankAt(m, 3 + 2 * q);
  }

  /** The terminator stays where it is. */
  lemma {:induction false} TerminatorKept(m: RawMii, pairs: nat)
    requires !IsOfficial(m) && pairs <= 10
    ensures Terminated(Clear(m), pairs) == Terminated(m, pairs)
  {
    if pairs > 0 {
      var q := pairs - 1;
      TerminatorKept(m, q);
      NameCleared(m, q);
      TerminatedStep(m, q);
      TerminatedStep(Clear(m), q);
    }
  }

  lemma {:induction false} TerminatedStep(m: RawMii, q: nat)
    requires q < 10
    ensures Terminated(m, q + 1) <==> Terminated(m, q) || (m[2 + 2 * q] == 0 && m[3 + 2 * q] == 0)
  {
  }

  lemma {:induction false} BlankAgain(m: RawMii, k: nat)
    requires !IsOfficial(m) && k < MII_SIZE
    ensures BlankAt(Clear(m), k) == BlankAt(m, k)
  {
    var c := Clear(m);
    if k < 0x4A { assert c[k] == BlankAt(m, k); }
    if 2 <= k < 0x16 { TerminatorKept(m, (k - 2) / 2); }
    assert c[0] == BlankAt(m, 0) && c[1] == BlankAt(m, 1);
  }

  /** Clearing twice is clearing once, for every record. */
  lemma {:induction false} ClearIdempotent(m: RawMii)
    ensures Clear(Clear(m)) == Clear(m)
  {
    if !IsOfficial(m) {
      ClearedIsNotOfficial(m);
      forall k: nat | k < MII_SIZE ensures BlankAt(Clear(m), k) == BlankAt(m, k) { BlankAgain(m, k); }
      assert Blank(Clear(m)) == Blank(m);
    }
  }
}
