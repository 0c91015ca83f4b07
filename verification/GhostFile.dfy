/**
  Mario Kart Wii ghost files: bit fields of the header, the validity check on upload, and the
  sanitising that follows it, which must leave a valid file valid.
 */
module GhostFile {
  import opened Bytes
  import opened Mii
  import Yaz1

  const MIN_SIZE := 0x88 + 0x14 + 0x04
  const MAX_SIZE := 0x2800
  const HEADER_SIZE := 0x3C
  const MII_END := 0x88

  // ----- Bit fields -----

  function ShiftRight(a: nat, n: nat): nat {
    if n == 0 then a else ShiftRight(a / 2, n - 1)
  }

  function ShiftLeft(a: nat, n: nat): nat {
    if n == 0 then a else 2 * ShiftLeft(a, n - 1)
  }

  function LowBits(a: nat, n: nat): (x: nat)
    ensures x < Pow2(n)
  {
    if n == 0 then 0 else a % 2 + 2 * LowBits(a / 2, n - 1)
  }

  /** Bit `k` of the file, counting from the high bit of the first byte. */
  function Bit(f: seq<byte>, k: nat): nat
    requires k / 8 < |f|
  {
    ShiftRight(f[k / 8], 7 - k % 8) % 2
  }

  /** The number spelled by `length` bits from bit `start` on. */
  function BitField(f: seq<byte>, start: nat, length: nat): (x: nat)
    requires start + length <= 8 * |f|
    ensures x < Pow2(length)
  {
    if length == 0 then 0 else 2 * BitField(f, start, length - 1) + Bit(f, start + length - 1)
  }

  lemma {:induction false} FieldPrefix(f: seq<byte>, start: nat, length: nat, drop: nat)
    requires start + length + drop <= 8 * |f|
    ensures ShiftRight(BitField(f, start, length + drop), drop) == BitField(f, start, length)
    decreases drop
  {
    if drop > 0 {
      assert BitField(f, start, length + drop) / 2 == BitField(f, start, length + drop - 1);
      FieldPrefix(f, start, length, drop - 1);
    }
  }

  lemma {:induction false} FieldSuffix(f: seq<byte>, start: nat, skip: nat, length: nat)
    requires start + skip + length <= 8 * |f|
    ensures LowBits(BitField(f, start, skip + length), length) == BitField(f, start + skip, length)
    decreases length
  {
    if length > 0 {
      assert BitField(f, start, skip + length) / 2 == BitField(f, start, skip + length - 1);
      FieldSuffix(f, start, skip, length - 1);
    }
  }

  lemma {:induction false} FieldAppend(f: seq<byte>, start: nat, a: nat, b: nat)
    requires start + a + b <= 8 * |f|
    ensures BitField(f, start, a + b) == ShiftLeft(BitField(f, start, a), b) + BitField(f, start + a, b)
    decreases b
  {
    if b > 0 { FieldAppend(f, start, a, b - 1); }
  }

  /** Two files agree on two adjacent fields exactly when they agree on the field that spans both. */
  lemma {:induction false} FieldsDetermine(f: seq<byte>, g: seq<byte>, start: nat, a: nat, b: nat)
    requires start + a + b <= 8 * |f| && |f| == |g|
    ensures BitField(f, start, a + b) == BitField(g, start, a + b) <==>
            BitField(f, start, a) == BitField(g, start, a) && BitField(f, start + a, b) == BitField(g, start + a, b)
  {
    FieldAppend(f, start, a, b);
    FieldAppend(g, start, a, b);
    FieldPrefix(f, start, a, b);
    FieldPrefix(g, start, a, b);
    FieldSuffix(f, start, a, b);
    FieldSuffix(g, start, a, b);
  }

  lemma {:induction false} ShiftRightHalf(a: nat, n: nat)
    ensures ShiftRight(a, n + 1) == ShiftRight(a, n) / 2
  {
    if n > 0 { ShiftRightHalf(a / 2, n - 1); }
  }

  lemma {:induction false} ShiftRightAll(a: nat, n: nat)
    requires a < Pow2(n)
    ensures ShiftRight(a, n) == 0
  {
    if n > 0 { ShiftRightAll(a / 2, n - 1); }
  }

  /** A whole byte as a field. */
  lemma {:induction false} ByteField(f: seq<byte>, index: nat, n: nat)
    requires index < |f| && n <= 8
    ensures BitField(f, 8 * index, n) == ShiftRight(f[index], 8 - n)
  {
    if n == 0 {
      WordSizes();
      ShiftRightAll(f[index], 8);
    } else {
      ByteField(f, index, n - 1);
      var k := 8 * index + n - 1;
      assert k / 8 == index && k % 8 == n - 1;
      ShiftRightHalf(f[index], 8 - n);
    }
  }

  // ----- Words built by or-ing shifted bytes -----

  lemma {:induction false} OrZero(a: nat, width: nat)
    requires a < Pow2(width)
    ensures Or(a, 0, width) == a
  {
    if width > 0 { OrZero(a / 2, width - 1); }
  }

  lemma {:induction false} OrDisjoint(h: nat, low: nat, k: nat, width: nat)
    requires low < Pow2(k) && ShiftLeft(h, k) + low < Pow2(width)
    ensures Or(ShiftLeft(h, k), low, width) == ShiftLeft(h, k) + low
  {
    if k == 0 {
      OrZero(h, width);
    } else if width > 0 {
      OrDisjoint(h, low / 2, k - 1, width - 1);
    }
  }

  lemma {:induction false} OrShifted(a: nat, b: nat, k: nat, width: nat)
    ensures Or(ShiftLeft(a, k), ShiftLeft(b, k), width + k) == ShiftLeft(Or(a, b, width), k)
  {
    if k > 0 { OrShifted(a, b, k - 1, width); }
  }

  lemma {:induction false} ShiftLeftTwice(a: nat, m: nat, n: nat)
    ensures ShiftLeft(ShiftLeft(a, m), n) == ShiftLeft(a, m + n)
  {
    if n > 0 { ShiftLeftTwice(a, m, n - 1); }
  }

  lemma {:induction false} AndMask(a: nat, length: nat, width: nat)
    requires length <= width
    ensures And(a, Pow2(length) - 1, width) == LowBits(a, length)
  {
    if length == 0 {
      AndZero(a, width);
    } else {
      var m, mask := Pow2(length - 1), Pow2(length) - 1;
      assert mask % 2 == 1 && mask / 2 == m - 1;
      AndMask(a / 2, length - 1, width - 1);
    }
  }

  lemma {:induction false} AndZero(a: nat, width: nat)
    ensures And(a, 0, width) == 0
  {
    if width > 0 { AndZero(a / 2, width - 1); }
  }

  lemma {:induction false} Pow2Grows(a: nat, b: nat)
    requires a <= b
    ensures Pow2(a) <= Pow2(b)
  {
    if a < b { Pow2Grows(a, b - 1); }
  }

  lemma {:induction false} OrAppended(field: nat, b: nat, e: nat, k: nat, width: nat)
    requires b < Pow2(e) && ShiftLeft(field, e) + b < Pow2(width)
    ensures Or(ShiftLeft(field, e + k), ShiftLeft(b, k), width + k) == ShiftLeft(ShiftLeft(field, e) + b, k)
  {
    OrDisjoint(field, b, e, width);
    ShiftLeftTwice(field, e, k);
    OrShifted(ShiftLeft(field, e), b, k, width);
  }

  lemma {:induction false} FieldAppendByte(f: seq<byte>, start: nat, at: nat, length: nat, e: nat)
    requires e == 8 && at < |f| && start + length == 8 * at
    ensures BitField(f, start, length + e) == ShiftLeft(BitField(f, start, length), e) + f[at] && f[at] < Pow2(e)
  {
    ByteField(f, at, e);
    WordSizes();
    FieldAppend(f, start, length, e);
  }

  /** Or-ing in the byte that ends `k` bits before the end of the word. */
  lemma {:induction false} OrNextByte(f: seq<byte>, start: nat, at: nat, length: nat, e: nat, k: nat, width: nat)
    requires e == 8 && at < |f| && start + length == 8 * at && length + e + k <= width
    ensures Or(ShiftLeft(BitField(f, start, length), e + k), ShiftLeft(f[at], k), width)
         == ShiftLeft(BitField(f, start, length + e), k)
  {
    FieldAppendByte(f, start, at, length, e);
    Pow2Grows(length + e, width - k);
    OrAppended(BitField(f, start, length), f[at], e, k, width - k);
  }

  lemma {:induction false} ShiftLeftZero(n: nat)
    ensures ShiftLeft(0, n) == 0
  {
    if n > 0 { ShiftLeftZero(n - 1); }
  }

  /** Shifting out the low bits and masking off the high ones leaves the middle. */
  lemma {:induction false} TrimField(f: seq<byte>, start: nat, skip: nat, length: nat, drop: nat, all: nat, width: nat)
    requires all == skip + length + drop && start + all <= 8 * |f| && length <= width
    ensures And(ShiftRight(BitField(f, start, all), drop), Pow2(length) - 1, width) == BitField(f, start + skip, length)
  {
    FieldPrefix(f, start, skip + length, drop);
    FieldSuffix(f, start, skip, length);
    AndMask(BitField(f, start, skip + length), length, width);
  }

  /** The first `byteCount` bytes from `byteIndex` on, or-ed together into a word of `width` bits. */
  method GatherBytes(f: seq<byte>, byteIndex: nat, byteCount: nat, width: nat) returns (value: nat)
    requires byteIndex + byteCount <= |f| && 8 * byteCount <= width
    ensures value == BitField(f, 8 * byteIndex, 8 * byteCount)
  {
    value := 0;
    ShiftLeftZero(8 * byteCount);
    for i := 0 to byteCount
      invariant value == ShiftLeft(BitField(f, 8 * byteIndex, 8 * i), 8 * (byteCount - i))
    {
      var shift := 8 * (byteCount - i - 1);
      OrNextByte(f, 8 * byteIndex, byteIndex + i, 8 * i, 8, shift, width);
      value := Or(value, ShiftLeft(f[byteIndex + i], shift), width);
    }
  }

  /** The bytes a bit field touches: `drop` bits follow it in the last one. */
  lemma {:induction false} FieldSpan(bitOffset: nat, bitLength: nat, byteIndex: nat, byteCount: nat, drop: nat)
    requires byteIndex == bitOffset / 8 && byteCount == (bitLength + bitOffset % 8 + 7) / 8
    requires drop == (8 - (bitOffset % 8 + bitLength) % 8) % 8
    ensures 8 * byteIndex + bitOffset % 8 == bitOffset
    ensures 8 * byteCount == bitOffset % 8 + bitLength + drop && drop < 8
  {
  }

  /** Gathers the bytes of a field and cuts off what is around it. */
  method ReadField(f: seq<byte>, byteIndex: nat, bitIndex: nat, bitLength: nat, byteCount: nat, drop: nat, width: nat)
    returns (value: nat)
    requires byteIndex + byteCount <= |f| && bitIndex + bitLength + drop == 8 * byteCount <= width
    ensures value == BitField(f, 8 * byteIndex + bitIndex, bitLength)
  {
    value := GatherBytes(f, byteIndex, byteCount, width);
    TrimField(f, 8 * byteIndex, bitIndex, bitLength, drop, 8 * byteCount, width);
    value := ShiftRight(value, drop);
    value := And(value, Pow2(bitLength) - 1, width);
  }

  /** Reads a big-endian bit field that spans at most four bytes. */
  method GetBits(f: seq<byte>, byteOffset: nat, bitOffset: nat, bitLength: nat, width: nat := 32) returns (value: nat)
    requires 8 * byteOffset + bitOffset + bitLength <= 8 * |f| && width % 8 == 0 && bitOffset % 8 + bitLength <= width
    ensures value == BitField(f, 8 * byteOffset + bitOffset, bitLength)
  {
    if bitLength == 0 {
      return 0;
    }
    var byteIndex, bitIndex := byteOffset + bitOffset / 8, bitOffset % 8;
    var byteCount := (bitLength + bitIndex + 7) / 8;
    var endBitIndex := (bitIndex + bitLength) % 8;
    var drop := (8 - endBitIndex) % 8;
    FieldSpan(bitOffset, bitLength, bitOffset / 8, byteCount, drop);
    value := ReadField(f, byteIndex, bitIndex, bitLength, byteCount, drop, width);
  }

  // ----- The header -----

  type Header = s: seq<byte> | |s| == HEADER_SIZE witness seq(HEADER_SIZE, _ => 0)

  /** Where the time of a lap starts, in bits; lap 0 is the whole race. */
  function LapStart(lap: nat): nat
    requires lap <= 5
  {
    if lap == 0 then 8 * 0x04 else 8 * (0x11 + (lap - 1) * 3)
  }

  function Minutes(h: Header, lap: nat): nat {
    if lap <= 5 then BitField(h, LapStart(lap), 7) else 0
  }

  function Seconds(h: Header, lap: nat): nat {
    if lap <= 5 then BitField(h, LapStart(lap) + 7, 7) else 0
  }

  function Milliseconds(h: Header, lap: nat): nat {
    if lap <= 5 then BitField(h, LapStart(lap) + 14, 10) else 0
  }

  function Time(h: Header, lap: nat): nat {
    Minutes(h, lap) * 60000 + Seconds(h, lap) * 1000 + Milliseconds(h, lap)
  }

  /** Two headers agree on a lap's 24 bits exactly when they agree on its three parts. */
  lemma {:induction false} LapFieldsDetermine(h: Header, g: Header, lap: nat, s: nat, e: nat)
    requires lap <= 5 && e == 10 && s == 7
    ensures BitField(h, LapStart(lap), s + s + e) == BitField(g, LapStart(lap), s + s + e) <==>
            Minutes(h, lap) == Minutes(g, lap) && Seconds(h, lap) == Seconds(g, lap) && Milliseconds(h, lap) == Milliseconds(g, lap)
  {
    FieldsDetermine(h, g, LapStart(lap), s, s);
    FieldsDetermine(h, g, LapStart(lap), s + s, e);
  }

  method GetMinutes(h: Header, lap: nat) returns (r: nat)
    ensures r == Minutes(h, lap)
  {
    if lap == 0 {
      r := GetBits(h, 0x04, 0, 7);
    } else if lap > 5 {
      r := 0;
    } else {
      r := GetBits(h, 0x11 + (lap - 1) * 3, 0, 7);
    }
  }

  method GetSeconds(h: Header, lap: nat) returns (r: nat)
    ensures r == Seconds(h, lap)
  {
    if lap == 0 {
      r := GetBits(h, 0x04, 7, 7);
    } else if lap > 5 {
      r := 0;
    } else {
      r := GetBits(h, 0x11 + (lap - 1) * 3, 7, 7);
    }
  }

  method GetMilliseconds(h: Header, lap: nat) returns (r: nat)
    ensures r == Milliseconds(h, lap)
  {
    if lap == 0 {
      r := GetBits(h, 0x05, 6, 10);
    } else if lap > 5 {
      r := 0;
    } else {
      r := GetBits(h, 0x11 + (lap - 1) * 3, 14, 10);
    }
  }

  method GetTime(h: Header, lap: nat) returns (r: nat)
    ensures r == Time(h, lap)
  {
    var minutes := GetMinutes(h, lap);
    var seconds := GetSeconds(h, lap);
    var milliseconds := GetMilliseconds(h, lap);
    r := minutes * 60000 + seconds * 1000 + milliseconds;
  }

  predicate TimeOk(h: Header, lap: nat) {
    Time(h, lap) != 0 && Minutes(h, lap) <= 5 && Seconds(h, lap) <= 59 && Milliseconds(h, lap) <= 999
  }

  predicate TimesOk(h: Header, lapCount: nat) {
    forall lap {:trigger TimeOk(h, lap)} :: 0 <= lap <= lapCount ==> TimeOk(h, lap)
  }

  function LapSum(h: Header, laps: nat): nat {
    if laps == 0 then 0 else LapSum(h, laps - 1) + Time(h, laps)
  }

  const LAPS: nat := 3

  method CheckTime(h: Header, lap: nat) returns (ok: bool)
    ensures ok == TimeOk(h, lap)
  {
    var time := GetTime(h, lap);
    if time == 0 {
      return false;
    }
    var minutes := GetMinutes(h, lap);
    var seconds := GetSeconds(h, lap);
    var milliseconds := GetMilliseconds(h, lap);
    ok := !(minutes > 5 || seconds > 59 || milliseconds > 999);
  }

  /** The lap loop: every time is in range, and `sum` adds up laps 1 to `lapCount`. */
  method CheckLaps(h: Header, lapCount: nat) returns (ok: bool, sum: nat)
    ensures ok == TimesOk(h, lapCount)
    ensures ok ==> sum == LapSum(h, lapCount)
  {
    sum := 0;
    for lap: nat := 0 to lapCount + 1
      invariant forall k {:trigger TimeOk(h, k)} :: 0 <= k < lap ==> TimeOk(h, k)
      invariant sum == if lap == 0 then 0 else LapSum(h, lap - 1)
    {
      ok := CheckTime(h, lap);
      if !ok {
        return false, sum;
      }
      if lap > 0 {
        var time := GetTime(h, lap);
        sum := sum + time;
      }
    }
    ok := true;
  }

  predicate ScoreOk(h: Header, expected: int) {
    var total, sum := Time(h, 0), LapSum(h, LAPS);
    (expected == -1 || total == expected) && sum - 1 <= total <= sum + 1
  }

  predicate CourseOk(course: nat, expected: int) {
    (expected == -1 || course == expected) && course <= 0x1F
  }

  predicate EntryOk(character: nat, vehicle: nat, controller: nat) {
    && character <= 0x27 && character !in {0x1C, 0x1D, 0x22, 0x23}
    && vehicle <= 0x23
    && controller <= 3
  }

  predicate RaceOk(h: Header, score: int) {
    BitField(h, 8 * 0x10, 8) == LAPS && TimesOk(h, LAPS) && ScoreOk(h, score)
  }

  predicate SetupOk(h: Header, course: int) {
    && CourseOk(BitField(h, 8 * 0x07, 6), course)
    && EntryOk(BitField(h, 8 * 0x08 + 6, 6), BitField(h, 8 * 0x08, 6), BitField(h, 8 * 0x0B + 4, 4))
    && BitField(h, 8 * 0x0C + 4, 1) == 1
  }

  method CheckRace(h: Header, score: int) returns (ok: bool)
    ensures ok == RaceOk(h, score)
  {
    var lapCount := GetBits(h, 0x10, 0, 8);
    if lapCount != LAPS {
      return false;
    }
    var timesOk, lapScore := CheckLaps(h, LAPS);
    if !timesOk {
      return false;
    }
    var totalScore := GetTime(h, 0);
    if score != -1 && totalScore != score {
      return false;
    }
    ok := !(lapScore + 1 < totalScore || lapScore > totalScore + 1);
  }

  method CheckSetup(h: Header, course: int) returns (ok: bool)
    ensures ok == SetupOk(h, course)
  {
    var ghostCourse := GetBits(h, 0x07, 0, 6);
    if (course != -1 && ghostCourse != course) || ghostCourse > 0x1F {
      return false;
    }
    var character := GetBits(h, 0x08, 6, 6);
    if character in {0x1C, 0x1D, 0x22, 0x23} || character > 0x27 {
      return false;
    }
    var vehicle := GetBits(h, 0x08, 0, 6);
    if vehicle > 0x23 {
      return false;
    }
    var controller := GetBits(h, 0x0B, 4, 4);
    if controller > 3 {
      return false;
    }
    var compressed := GetBits(h, 0x0C, 4, 1);
    ok := compressed == 1;
  }

  // ----- The whole file -----

  const GHOST_MAGIC: seq<byte> := [0x52, 0x4B, 0x47, 0x44]
  const YAZ1_MAGIC: seq<byte> := [0x59, 0x61, 0x7A, 0x31]

  /** `szs` starts with the Yaz1 header, and its stream verifies with at most three bytes left over. */
  predicate StreamOk(szs: seq<byte>)
    requires |szs| >= 0x10
  {
    var v := Yaz1.VerifyGroups(szs[0x10..], Uint32(szs[4..8]), 0, 0, false);
    szs[..4] == YAZ1_MAGIC && v.valid && |szs| - 0x10 <= v.consumed + 3
  }

  predicate SizeOk(f: seq<byte>) {
    MIN_SIZE <= |f| <= MAX_SIZE
  }

  predicate Accepted(f: seq<byte>, crc32: seq<byte> -> uint32, course: int, score: int) {
    && SizeOk(f)
    && f[..4] == GHOST_MAGIC
    && Uint32(f[|f| - 4..]) == crc32(f[..|f| - 4])
    && RaceOk(f[..HEADER_SIZE], score)
    && SetupOk(f[..HEADER_SIZE], course)
    && Crc(f[HEADER_SIZE..MII_END]) == 0
    && StreamOk(f[0x8C..|f| - 4])
  }

  method IsRKGDFileValid(f: seq<byte>, crc32: seq<byte> -> uint32, course: int, score: int) returns (valid: bool)
    ensures valid == Accepted(f, crc32, course, score)
  {
    if |f| < MIN_SIZE || |f| > MAX_SIZE {
      return false;
    }
    if f[..4] != GHOST_MAGIC || crc32(f[..|f| - 4]) != Uint32(f[|f| - 4..]) {
      return false;
    }
    var raceOk := CheckRace(f[..HEADER_SIZE], score);
    if !raceOk {
      return false;
    }
    var setupOk := CheckSetup(f[..HEADER_SIZE], course);
    if !setupOk {
      return false;
    }
    var crc := CalculateMiiCRC(f[HEADER_SIZE..MII_END]);
    if crc != 0 {
      return false;
    }
    var szs := f[0x8C..|f| - 4];
    if szs[..4] != YAZ1_MAGIC {
      return false;
    }
    var ok, consumed := Yaz1.VerifyYaz1Data(szs[0x10..], Uint32(szs[4..8]), 0);
    if !ok || consumed + 3 < |szs| - 0x10 {
      return false;
    }
    valid := true;
  }

  /** The stream decompresses to exactly the announced size, whole, with at most three bytes left over. */
  predicate UnpacksWhole(szs: seq<byte>)
    requires |szs| >= 0x10
  {
    var size := Uint32(szs[4..8]);
    var u := Yaz1.Unpack(szs[0x10..], size, 0, 0, 0, [], false);
    u.Some? && !u.value.cut && |u.value.output| == size && |szs| - 0x10 <= u.value.consumed + 3
  }

  /** An accepted file decompresses so exactly when no run length wrapped on the way. */
  lemma {:induction false} AcceptedUnpacksIff(f: seq<byte>, crc32: seq<byte> -> uint32, course: int, score: int)
    requires Accepted(f, crc32, course, score)
    ensures var szs := f[0x8C..|f| - 4];
            UnpacksWhole(szs) <==> !Yaz1.VerifyGroups(szs[0x10..], Uint32(szs[4..8]), 0, 0, false).wrapped
  {
    var szs := f[0x8C..|f| - 4];
    Yaz1.VerifierMeetsFormat(szs[0x10..], Uint32(szs[4..8]));
  }

  // ----- Clearing the Mii of an uploaded ghost -----

  function WithMii(f: seq<byte>, m: RawMii): (g: seq<byte>)
    requires SizeOk(f)
    ensures |g| == |f|
  {
    f[..HEADER_SIZE] + m + f[MII_END..]
  }

  function WithChecksum(f: seq<byte>, crc32: seq<byte> -> uint32): (g: seq<byte>)
    requires |f| >= 4
    ensures |g| == |f|
  {
    f[..|f| - 4] + PutUint32(crc32(f[..|f| - 4]))
  }

  function Sanitized(f: seq<byte>, crc32: seq<byte> -> uint32): (g: seq<byte>)
    requires SizeOk(f)
    ensures |g| == |f|
  {
    WithChecksum(WithMii(f, Clear(f[HEADER_SIZE..MII_END])), crc32)
  }

  method SetMiiData(f: array<byte>, m: RawMii)
    requires SizeOk(f[..])
    modifies f
    ensures f[..] == WithMii(old(f[..]), m)
  {
    forall k | HEADER_SIZE <= k < MII_END {
      f[k] := m[k - HEADER_SIZE];
    }
  }

  method RecalculateCRC(f: array<byte>, crc32: seq<byte> -> uint32)
    requires f.Length >= 4
    modifies f
    ensures f[..] == WithChecksum(old(f[..]), crc32)
  {
    var crc := PutUint32(crc32(f[..f.Length - 4]));
    forall k | f.Length - 4 <= k < f.Length {
      f[k] := crc[k - (f.Length - 4)];
    }
  }

  /** What the upload handler does with an accepted file. */
  method Sanitize(f: array<byte>, crc32: seq<byte> -> uint32)
    requires SizeOk(f[..])
    modifies f
    ensures f[..] == Sanitized(old(f[..]), crc32)
  {
    var mii := ClearMiiInfo(f[HEADER_SIZE..MII_END]);
    SetMiiData(f, mii);
    RecalculateCRC(f, crc32);
  }

  lemma {:induction false} SanitizedParts(f: seq<byte>, crc32: seq<byte> -> uint32)
    requires SizeOk(f)
    ensures var g, e := Sanitized(f, crc32), |f| - 4;
            && g[..HEADER_SIZE] == f[..HEADER_SIZE]
            && g[HEADER_SIZE..MII_END] == Clear(f[HEADER_SIZE..MII_END])
            && g[MII_END..e] == f[MII_END..e]
            && Uint32(g[e..]) == crc32(g[..e])
  {
    var w := WithMii(f, Clear(f[HEADER_SIZE..MII_END]));
    var g, e := Sanitized(f, crc32), |f| - 4;
    assert g[..e] == w[..e];
    assert g[e..] == PutUint32(crc32(w[..e]));
    Uint32OfPut(crc32(w[..e]));
  }

  /** A file accepted on upload is still accepted once its Mii is cleared and its checksum redone. */
  lemma {:induction false} SanitizedStaysAccepted(f: seq<byte>, crc32: seq<byte> -> uint32, course: int, score: int)
    requires Accepted(f, crc32, course, score)
    ensures Accepted(Sanitized(f, crc32), crc32, course, score)
  {
    var g, e := Sanitized(f, crc32), |f| - 4;
    var mii := f[HEADER_SIZE..MII_END];
    SanitizedParts(f, crc32);
    assert g[..4] == g[..HEADER_SIZE][..4] == f[..4];
    assert g[0x8C..e] == g[MII_END..e][4..] == f[0x8C..e];
    if !IsOfficial(mii) {
      ClearedCrcIsZero(mii);
    }
  }

  /** Sanitising again changes nothing. */
  lemma {:induction false} SanitizeIdempotent(f: seq<byte>, crc32: seq<byte> -> uint32)
    requires SizeOk(f)
    ensures Sanitized(Sanitized(f, crc32), crc32) == Sanitized(f, crc32)
  {
    var g, e := Sanitized(f, crc32), |f| - 4;
    var mii := g[HEADER_SIZE..MII_END];
    SanitizedParts(f, crc32);
    ClearIdempotent(f[HEADER_SIZE..MII_END]);
    assert WithMii(g, mii) == g;
    var w := WithMii(f, Clear(f[HEADER_SIZE..MII_END]));
    assert g[..e] == w[..e];
  }
}
