/**
  The header of a ghost file, byte by byte: what every field reads, a header written from its
  fields, and the exact limits within which such a header is accepted.
 */
module GhostHeader {
  import opened Bytes
  import opened GhostFile
  import Mii
  import Yaz1

  // ----- Shifts and masks as arithmetic -----

  lemma {:induction false} QuotientUnique(x: nat, m: nat, q: nat, r: nat)
    requires x == m * q + r && r < m
    ensures x / m == q
  {
    MulGap(m, q, x / m);
    MulGap(m, x / m, q);
  }

  lemma {:induction false} HalfQuotient(a: nat, m: nat, n: nat)
    requires m > 0 && n == 2 * m
    ensures a / 2 / m == a / n
  {
    var q, r := DivMod(a, n);
    MulDouble(m, n, q);
    HalfOf(a, m * q, r);
    QuotientUnique(a, n, q, r);
    QuotientUnique(a / 2, m, q, r / 2);
  }

  lemma {:induction false} Shifted(a: nat, n: nat)
    ensures ShiftRight(a, n) == a / Pow2(n)
  {
    if n > 0 {
      Shifted(a / 2, n - 1);
      HalfQuotient(a, Pow2(n - 1), Pow2(n));
    }
  }

  lemma {:induction false} Masked(a: nat, n: nat)
    ensures LowBits(a, n) == a % Pow2(n)
  {
    if n > 0 {
      Masked(a / 2, n - 1);
      ModuloHalves(a, Pow2(n - 1), Pow2(n));
    }
  }

  lemma {:induction false} Raised(a: nat, n: nat)
    ensures ShiftLeft(a, n) == a * Pow2(n)
  {
    if n > 0 { Raised(a, n - 1); }
  }

  lemma {:induction false} SmallPowers()
    ensures Pow2(0) == 1 && Pow2(1) == 2 && Pow2(2) == 4 && Pow2(3) == 8 && Pow2(4) == 16
    ensures Pow2(5) == 32 && Pow2(6) == 64 && Pow2(7) == 128 && Pow2(8) == 256
  {
    assert Pow2(3) == 8;
    assert Pow2(6) == 64;
  }

  /** A field inside one byte: the bits after it are divided off, the bits before it fall away. */
  lemma {:induction false} InByte(f: seq<byte>, index: nat, before: nat, n: nat)
    requires index < |f| && before + n <= 8
    ensures BitField(f, 8 * index + before, n) == f[index] / Pow2(8 - before - n) % Pow2(n)
  {
    ByteField(f, index, before + n);
    FieldSuffix(f, 8 * index, before, n);
    Shifted(f[index], 8 - before - n);
    Masked(f[index] / Pow2(8 - before - n), n);
  }

  lemma {:induction false} HeadOfByte(f: seq<byte>, index: nat, n: nat)
    requires index < |f| && n <= 8
    ensures BitField(f, 8 * index, n) == f[index] / Pow2(8 - n)
  {
    ByteField(f, index, n);
    Shifted(f[index], 8 - n);
  }

  lemma {:induction false} TailOfByte(f: seq<byte>, index: nat, n: nat)
    requires index < |f| && n <= 8
    ensures BitField(f, 8 * index + (8 - n), n) == f[index] % Pow2(n)
  {
    ByteField(f, index, 8);
    FieldSuffix(f, 8 * index, 8 - n, n);
    Masked(f[index], n);
  }

  /** A field that runs from the last `head` bits of a byte into the first `tail` bits of the next. */
  lemma {:induction false} AcrossBytes(f: seq<byte>, index: nat, start: nat, head: nat, tail: nat)
    requires index + 1 < |f| && head <= 8 && tail <= 8 && start == 8 * index + (8 - head)
    ensures BitField(f, start, head + tail) == f[index] % Pow2(head) * Pow2(tail) + f[index + 1] / Pow2(8 - tail)
  {
    TailOfByte(f, index, head);
    HeadOfByte(f, index + 1, tail);
    JoinFields(f, start, head, tail, f[index] % Pow2(head), f[index + 1] / Pow2(8 - tail));
  }

  lemma {:induction false} JoinFields(f: seq<byte>, start: nat, a: nat, b: nat, x: nat, y: nat)
    requires start + a + b <= 8 * |f| && BitField(f, start, a) == x && BitField(f, start + a, b) == y
    ensures BitField(f, start, a + b) == x * Pow2(b) + y
  {
    FieldAppend(f, start, a, b);
    Raised(x, b);
  }

  // ----- What the fields read -----

  /** The first byte of a lap's time; lap 0 is the whole race. */
  function LapByte(lap: nat): nat
    requires lap <= 5
  {
    [0x04, 0x11, 0x14, 0x17, 0x1A, 0x1D][lap]
  }

  lemma {:induction false} MinutesAt(h: Header, at: nat, n: nat)
    requires at < |h| && n == 7
    ensures BitField(h, 8 * at, n) == h[at] / 2
  {
    SmallPowers();
    HeadOfByte(h, at, n);
  }

  lemma {:induction false} SecondsAt(h: Header, at: nat, head: nat, tail: nat)
    requires at + 1 < |h| && head == 1 && tail == 6
    ensures BitField(h, 8 * at + 7, head + tail) == h[at] as int % 2 * 64 + h[at + 1] / 4
  {
    SmallPowers();
    AcrossBytes(h, at, 8 * at + 7, head, tail);
  }

  lemma {:induction false} MillisecondsAt(h: Header, at: nat, head: nat, tail: nat)
    requires at + 1 < |h| && head == 2 && tail == 8
    ensures BitField(h, 8 * at + 6, head + tail) == h[at] as int % 4 * 0x100 + h[at + 1]
  {
    SmallPowers();
    AcrossBytes(h, at, 8 * at + 6, head, tail);
  }

  /** A time is three bytes: seven bits of minutes, seven of seconds and ten of milliseconds. */
  lemma {:induction false} TimeReads(h: Header, lap: nat)
    requires lap <= 5
    ensures var at := LapByte(lap);
            && Minutes(h, lap) == h[at] / 2
            && Seconds(h, lap) == h[at] as int % 2 * 64 + h[at + 1] / 4
            && Milliseconds(h, lap) == h[at + 1] as int % 4 * 0x100 + h[at + 2]
  {
    var at := LapByte(lap);
    assert LapStart(lap) == 8 * at;
    MinutesAt(h, at, 7);
    SecondsAt(h, at, 1, 6);
    MillisecondsAt(h, at + 1, 2, 8);
  }

  /** Where the course, the vehicle, the character, the controller and the compression flag lie. */
  lemma {:induction false} CourseReads(h: Header, n: nat)
    requires n == 6
    ensures BitField(h, 8 * 0x07, n) == h[0x07] / 4
    ensures BitField(h, 8 * 0x08, n) == h[0x08] / 4
  {
    SmallPowers();
    HeadOfByte(h, 0x07, n);
    HeadOfByte(h, 0x08, n);
  }

  lemma {:induction false} CharacterReads(h: Header, head: nat, tail: nat)
    requires head == 2 && tail == 4
    ensures BitField(h, 8 * 0x08 + 6, head + tail) == h[0x08] as int % 4 * 16 + h[0x09] / 16
  {
    SmallPowers();
    AcrossBytes(h, 0x08, 8 * 0x08 + 6, head, tail);
  }

  lemma {:induction false} ControllerReads(h: Header, n: nat)
    requires n == 4
    ensures BitField(h, 8 * 0x0B + 4, n) == h[0x0B] % 16
  {
    SmallPowers();
    TailOfByte(h, 0x0B, n);
  }

  lemma {:induction false} CompressedReads(h: Header, n: nat)
    requires n == 1
    ensures BitField(h, 8 * 0x0C + 4, n) == h[0x0C] / 8 % 2
  {
    SmallPowers();
    InByte(h, 0x0C, 4, n);
  }

  lemma {:induction false} LapCountReads(h: Header, n: nat)
    requires n == 8
    ensures BitField(h, 8 * 0x10, n) == h[0x10]
  {
    SmallPowers();
    HeadOfByte(h, 0x10, n);
  }

  /** The setup check in terms of the bytes. */
  lemma {:induction false} SetupReads(h: Header, course: int)
    ensures var character := h[0x08] as int % 4 * 16 + h[0x09] / 16;
            SetupOk(h, course) <==>
              && (course == -1 || h[0x07] / 4 == course) && h[0x07] / 4 <= 0x1F
              && character <= 0x27 && character !in [0x1C, 0x1D, 0x22, 0x23]
              && h[0x08] / 4 <= 0x23 && h[0x0B] % 16 <= 3 && h[0x0C] / 8 % 2 == 1
  {
    CourseReads(h, 6);
    CharacterReads(h, 2, 4);
    ControllerReads(h, 4);
    CompressedReads(h, 1);
  }

  // ----- A header written from its fields -----

  datatype LapTime = LapTime(minutes: nat, seconds: nat, milliseconds: nat) {
    predicate Fits() { minutes < 0x80 && seconds < 0x80 && milliseconds < 0x400 }

    function Total(): nat { minutes * 60000 + seconds * 1000 + milliseconds }

    predicate InRange() { Total() != 0 && minutes <= 5 && seconds <= 59 && milliseconds <= 999 }
  }

  /** A race: the total first, then five laps, of which ghosts of ordinary races use three. */
  datatype Race = Race(times: seq<LapTime>, laps: byte, course: nat, vehicle: nat, character: nat, controller: nat, compressed: bool) {
    predicate Fits() {
      && |times| == 6 && (forall t <- times :: t.Fits())
      && course < 0x40 && vehicle < 0x40 && character < 0x40 && controller < 0x10
    }
  }

  function TimeBytes(t: LapTime): seq<byte>
    requires t.Fits()
  {
    [2 * t.minutes + t.seconds / 64, t.seconds % 64 * 4 + t.milliseconds / 0x100, t.milliseconds % 0x100]
  }

  /** What the header holds besides: spare bits, the date, the ghost type, the input length and the rest from 0x20 on. */
  datatype Extra = Extra(low7: nat, low9: nat, date: byte, high11: nat, high12: nat, low12: nat, more: seq<byte>, rest: seq<byte>) {
    predicate Fits() {
      low7 < 4 && low9 < 16 && high11 < 16 && high12 < 16 && low12 < 8 && |more| == 3 && |rest| == 0x1C
    }
  }

  function Written(r: Race, x: Extra): Header
    requires r.Fits() && x.Fits()
  {
    [0x52, 0x4B, 0x47, 0x44] + TimeBytes(r.times[0])
    + [4 * r.course + x.low7, 4 * r.vehicle + r.character / 16, r.character % 16 * 16 + x.low9, x.date,
       16 * x.high11 + r.controller, 16 * x.high12 + (if r.compressed then 8 else 0) + x.low12]
    + x.more + [r.laps]
    + TimeBytes(r.times[1]) + TimeBytes(r.times[2]) + TimeBytes(r.times[3])
    + TimeBytes(r.times[4]) + TimeBytes(r.times[5]) + x.rest
  }

  lemma {:induction false} TimeBytesReadBack(t: LapTime, a: byte, b: byte, c: byte)
    requires t.Fits() && [a, b, c] == TimeBytes(t)
    ensures a / 2 == t.minutes && a as int % 2 * 64 + b / 4 == t.seconds && b as int % 4 * 0x100 + c == t.milliseconds
  {
    assert a == [a, b, c][0] && b == [a, b, c][1] && c == [a, b, c][2];
  }

  /** The three bytes of every time are where the header is read. */
  lemma {:induction false} TimesWritten(r: Race, x: Extra, lap: nat)
    requires r.Fits() && x.Fits() && lap <= 5
    ensures var h, at := Written(r, x), LapByte(lap); [h[at], h[at + 1], h[at + 2]] == TimeBytes(r.times[lap])
  {
  }

  lemma {:induction false} TimeReadsBack(r: Race, x: Extra, lap: nat)
    requires r.Fits() && x.Fits() && lap <= 5
    ensures var h, t := Written(r, x), r.times[lap];
            Minutes(h, lap) == t.minutes && Seconds(h, lap) == t.seconds && Milliseconds(h, lap) == t.milliseconds
  {
    var h, at := Written(r, x), LapByte(lap);
    TimesWritten(r, x, lap);
    assert r.times[lap] in r.times;
    TimeBytesReadBack(r.times[lap], h[at], h[at + 1], h[at + 2]);
    TimeReads(h, lap);
  }

  /** Such a header passes the race check exactly within these limits. */
  lemma {:induction false} RaceAccepted(r: Race, x: Extra, score: int)
    requires r.Fits() && x.Fits()
    ensures var t, sum := r.times, r.times[1].Total() + r.times[2].Total() + r.times[3].Total();
            RaceOk(Written(r, x), score) <==>
              && r.laps == 3
              && t[0].InRange() && t[1].InRange() && t[2].InRange() && t[3].InRange()
              && (score == -1 || t[0].Total() == score)
              && -1 <= t[0].Total() - sum <= 1
  {
    var h := Written(r, x);
    LapCountReads(h, 8);
    TimeReadsBack(r, x, 0);
    TimeReadsBack(r, x, 1);
    TimeReadsBack(r, x, 2);
    TimeReadsBack(r, x, 3);
    assert h[0x10] == r.laps;
    FourTimes(h);
    ThreeLaps(h);
  }

  lemma {:induction false} FourTimes(h: Header)
    ensures TimesOk(h, LAPS) <==> TimeOk(h, 0) && TimeOk(h, 1) && TimeOk(h, 2) && TimeOk(h, 3)
  {
  }

  lemma {:induction false} ThreeLaps(h: Header)
    ensures LapSum(h, LAPS) == Time(h, 1) + Time(h, 2) + Time(h, 3)
  {
    assert LapSum(h, 1) == Time(h, 1);
  }

  /** Such a header passes the setup check exactly within these limits. */
  lemma {:induction false} SetupAccepted(r: Race, x: Extra, course: int)
    requires r.Fits() && x.Fits()
    ensures SetupOk(Written(r, x), course) <==>
              && (course == -1 || r.course == course) && r.course <= 0x1F
              && r.character <= 0x27 && r.character !in [0x1C, 0x1D, 0x22, 0x23]
              && r.vehicle <= 0x23 && r.controller <= 3 && r.compressed
  {
    var h := Written(r, x);
    SetupReads(h, course);
    SetupWritten(r, x);
    CharacterReadsBack(h[0x08], h[0x09], r, x);
    FlagReadsBack(h[0x0B], h[0x0C], r, x);
  }

  lemma {:induction false} SetupWritten(r: Race, x: Extra)
    requires r.Fits() && x.Fits()
    ensures var h := Written(r, x);
            && h[0x07] as int == 4 * r.course + x.low7
            && h[0x08] as int == 4 * r.vehicle + r.character / 16
            && h[0x09] as int == r.character % 16 * 16 + x.low9
            && h[0x0B] as int == 16 * x.high11 + r.controller
            && h[0x0C] as int == 16 * x.high12 + (if r.compressed then 8 else 0) + x.low12
  {
  }

  lemma {:induction false} CharacterReadsBack(b8: byte, b9: byte, r: Race, x: Extra)
    requires r.Fits() && x.Fits()
    requires b8 as int == 4 * r.vehicle + r.character / 16 && b9 as int == r.character % 16 * 16 + x.low9
    ensures b8 / 4 == r.vehicle && b8 as int % 4 * 16 + b9 / 16 == r.character
  {
  }

  lemma {:induction false} FlagReadsBack(b11: byte, b12: byte, r: Race, x: Extra)
    requires r.Fits() && x.Fits()
    requires b11 as int == 16 * x.high11 + r.controller
    requires b12 as int == 16 * x.high12 + (if r.compressed then 8 else 0) + x.low12
    ensures b11 % 16 == r.controller && (b12 / 8 % 2 == 1 <==> r.compressed)
  {
  }

  // ----- The file around the header -----

  /** A file is accepted exactly when its sizes, magic words and checksums are these, and its parts pass. */
  lemma {:induction false} FileAccepted(h: Header, mii: Mii.RawMii, size: seq<byte>, szs: seq<byte>, sum: uint32,
                                        crc32: seq<byte> -> uint32, course: int, score: int)
    requires |size| == 4
    ensures var body := h + mii + size + szs;
            Accepted(body + PutUint32(sum), crc32, course, score) <==>
              && 0x10 <= |szs| <= 0x2770
              && h[..4] == [0x52, 0x4B, 0x47, 0x44]
              && sum == crc32(body)
              && RaceOk(h, score) && SetupOk(h, course)
              && Mii.Crc(mii) == 0
              && szs[..4] == [0x59, 0x61, 0x7A, 0x31]
              && var v := Yaz1.VerifyGroups(szs[0x10..], Uint32(szs[4..8]), 0, 0, false);
                 v.valid && |szs| <= v.consumed + 0x13
  {
    var body := h + mii + size + szs;
    var f := body + PutUint32(sum);
    assert f[..|f| - 4] == body && f[|f| - 4..] == PutUint32(sum);
    Uint32OfPut(sum);
    if SizeOk(f) { PartsOf(h, mii, size, szs, PutUint32(sum)); }
  }

  lemma {:induction false} PartsOf(h: Header, mii: Mii.RawMii, size: seq<byte>, szs: seq<byte>, end: seq<byte>)
    requires |size| == 4 && |end| == 4
    ensures var f := h + mii + size + szs + end;
            f[..HEADER_SIZE] == h && f[HEADER_SIZE..MII_END] == mii && f[0x8C..|f| - 4] == szs && f[..4] == h[..4]
  {
  }
}
