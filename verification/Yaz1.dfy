/**
  The Yaz1 verifier for ghost files, which only counts the bytes a stream would unpack to, against a
  decompressor that unpacks the stream bit by bit.
 */
module Yaz1 {
  import opened Bytes

  // ----- The format: a decompressor that keeps to its input, its output and the expected size -----

  /** `cut` tells that a group of eight literals was ended early by the expected size. */
  datatype Decoded = Decoded(output: seq<byte>, consumed: nat, cut: bool)

  /** Copies byte by byte, so a run may overlap the bytes it produces. */
  function Repeat(output: seq<byte>, distance: nat, length: nat): (r: seq<byte>)
    requires 0 < distance <= |output|
    ensures |r| == |output| + length
    decreases length
  {
    if length == 0 then output else Repeat(output + [output[|output| - distance]], distance, length - 1)
  }

  function Distance(data: seq<byte>, i: nat): nat
    requires i + 1 < |data|
  {
    (data[i] as int) % 16 * 256 + data[i + 1] as int + 1
  }

  /** Unpacks from byte `i` with `bits` flags of the current group left. */
  function Unpack(data: seq<byte>, expected: nat, i: nat, flags: byte, bits: nat, output: seq<byte>, cut: bool): (r: Option<Decoded>)
    ensures r.Some? ==> |r.value.output| == expected && i <= r.value.consumed
    ensures r.Some? && i <= |data| ==> r.value.consumed <= |data|
    decreases |data| - i, bits
  {
    if |output| > expected then None
    else if |output| == expected then Some(Decoded(output, i, cut))
    else if i >= |data| then None
    else if bits == 0 then
      Unpack(data, expected, i + 1, data[i], 8, output, data[i] == 0xFF && expected - |output| < 8)
    else if flags >= 0x80 then
      Unpack(data, expected, i + 1, (flags as int) * 2 % 256, bits - 1, output + [data[i]], cut)
    else if i + 1 >= |data| || Distance(data, i) > |output| then None
    else if data[i] / 16 != 0 then
      Unpack(data, expected, i + 2, (flags as int) * 2 % 256, bits - 1, Repeat(output, Distance(data, i), data[i] / 16 + 2), cut)
    else if i + 2 >= |data| then None
    else
      Unpack(data, expected, i + 3, (flags as int) * 2 % 256, bits - 1, Repeat(output, Distance(data, i), data[i + 2] as int + 0x12), cut)
  }

  // ----- The verifier -----

  /** `wrapped` tells that a long-run byte above 0xED was read, whose length overflows a byte. */
  datatype Verdict = Verdict(valid: bool, consumed: nat, wrapped: bool)

  function Left(data: seq<byte>, i: nat): nat {
    if i < |data| then |data| - i else 0
  }

  function VerifyGroups(data: seq<byte>, expected: nat, i: nat, decoded: nat, wrapped: bool): (r: Verdict)
    ensures i <= r.consumed && (r.valid ==> r.consumed <= |data|) && (wrapped ==> r.wrapped)
    ensures r.valid && decoded < expected ==> i < r.consumed
    decreases Left(data, i), 0
  {
    if decoded >= expected then Verdict(decoded == expected && i <= |data|, i, wrapped)
    else if i >= |data| then Verdict(false, i, wrapped)
    else if data[i] == 0xFF then VerifyGroups(data, expected, i + 9, decoded + 8, wrapped)
    else VerifyBits(data, expected, i + 1, decoded, data[i], 8, wrapped)
  }

  function VerifyBits(data: seq<byte>, expected: nat, i: nat, decoded: nat, flags: byte, bits: nat, wrapped: bool): (r: Verdict)
    requires decoded < expected
    ensures i <= r.consumed && (r.valid ==> r.consumed <= |data|) && (wrapped ==> r.wrapped)
    ensures r.valid && decoded < expected ==> i < r.consumed
    decreases Left(data, i), 2 * bits + 1
  {
    if bits == 0 then VerifyGroups(data, expected, i, decoded, wrapped)
    else if flags >= 0x80 then
      VerifyRest(data, expected, i + 1, decoded + 1, flags, bits, wrapped)
    else if i + 1 >= |data| then Verdict(false, i, wrapped)
    else if Distance(data, i) > decoded then Verdict(false, i + 2, wrapped)
    else if data[i] / 16 != 0 then
      VerifyRest(data, expected, i + 2, decoded + (data[i] / 16 + 2), flags, bits, wrapped)
    else if i + 2 >= |data| then Verdict(false, i + 2, wrapped)
    else
      VerifyRest(data, expected, i + 3, decoded + (data[i + 2] as int + 0x12) % 256, flags, bits, wrapped || data[i + 2] > 0xED)
  }

  /** After one flag: the group ends early once enough has been counted. */
  function VerifyRest(data: seq<byte>, expected: nat, i: nat, decoded: nat, flags: byte, bits: nat, wrapped: bool): (r: Verdict)
    requires bits > 0
    ensures i <= r.consumed && (r.valid ==> r.consumed <= |data|) && (wrapped ==> r.wrapped)
    ensures r.valid && decoded < expected ==> i < r.consumed
    decreases Left(data, i), 2 * bits
  {
    if decoded >= expected then VerifyGroups(data, expected, i, decoded, wrapped)
    else VerifyBits(data, expected, i, decoded, (flags as int) * 2 % 256, bits - 1, wrapped)
  }

  /** A group that is not all literals, from behind its flags. */
  method VerifyGroup(data: seq<byte>, expectedDecompSize: nat, start: nat, before: nat, groupFlags: byte, ghost wrappedBefore: bool)
    returns (ok: bool, i: nat, decoded: nat, ghost wrapped: bool)
    requires before < expectedDecompSize
    ensures start <= i
    ensures VerifyBits(data, expectedDecompSize, start, before, groupFlags, 8, wrappedBefore)
         == if ok then VerifyGroups(data, expectedDecompSize, i, decoded, wrapped) else Verdict(false, i, wrapped)
  {
    var flags: byte := groupFlags;
    ok, i, decoded, wrapped := true, start, before, wrappedBefore;
    ghost var v := VerifyBits(data, expectedDecompSize, start, before, flags, 8, wrapped);
    for bits := 8 downto 0
      invariant start <= i && decoded < expectedDecompSize
      invariant v == VerifyBits(data, expectedDecompSize, i, decoded, flags, bits, wrapped)
    {
      if flags < 0x80 {
        if i + 1 >= |data| {
          return false, i, decoded, wrapped;
        }
        var copyLen: byte := data[i] / 16 + 2;
        var copySrc := decoded - ((data[i] as int) % 16 * 256 + data[i + 1] as int) - 1;
        i := i + 2;
        if copySrc < 0 {
          return false, i, decoded, wrapped;
        }
        if copyLen == 2 {
          if i >= |data| {
            return false, i, decoded, wrapped;
          }
          copyLen := (data[i] as int + 0x12) % 256;
          wrapped := wrapped || data[i] > 0xED;
          i := i + 1;
        }
        decoded := decoded + copyLen;
      } else {
        decoded := decoded + 1;
        i := i + 1;
      }
      assert v == VerifyRest(data, expectedDecompSize, i, decoded, flags, bits + 1, wrapped);
      if decoded >= expectedDecompSize {
        return true, i, decoded, wrapped;
      }
      flags := (flags as int) * 2 % 256;
    }
  }

  method VerifyYaz1Data(data: seq<byte>, expectedDecompSize: nat, start: nat) returns (valid: bool, consumed: nat)
    ensures var v := VerifyGroups(data, expectedDecompSize, 0, start, false); valid == v.valid && consumed == v.consumed
  {
    var i: nat, decoded: nat := 0, start;
    ghost var wrapped := false;
    ghost var v := VerifyGroups(data, expectedDecompSize, 0, start, false);
    while decoded < expectedDecompSize
      invariant v == VerifyGroups(data, expectedDecompSize, i, decoded, wrapped)
      decreases decoded < expectedDecompSize, Left(data, i)
    {
      if i >= |data| {
        return false, i;
      }
      var flags: byte := data[i];
      i := i + 1;
      if flags == 0xFF {
        decoded := decoded + 8;
        i := i + 8;
        continue;
      }
      var ok;
      ok, i, decoded, wrapped := VerifyGroup(data, expectedDecompSize, i, decoded, flags, wrapped);
      if !ok {
        return false, i;
      }
    }
    if decoded > expectedDecompSize || i > |data| {
      return false, i;
    }
    return true, i;
  }

  // ----- A group of eight literals -----

  /** The flag byte 0xFF after `8 - bits` shifts. */
  function Ones(bits: nat): byte
    requires bits <= 8
  {
    [0, 0x80, 0xC0, 0xE0, 0xF0, 0xF8, 0xFC, 0xFE, 0xFF][bits]
  }

  /** What is left of an all-literal group is copied, or cut where the expected size is reached. */
  lemma {:induction false} LiteralsUnpack(data: seq<byte>, expected: nat, i: nat, bits: nat, output: seq<byte>, cut: bool)
    requires bits <= 8 && |output| < expected
    ensures var r := Unpack(data, expected, i, Ones(bits), bits, output, cut);
            if |output| + bits > expected || i + bits > |data| then
              r.None? || (|output| + bits > expected && r.value.cut == cut && r.value.consumed < i + bits)
            else r == Unpack(data, expected, i + bits, 0, 0, output + data[i..i + bits], cut)
    decreases bits
  {
    if bits == 0 {
      if i <= |data| { assert output + data[i..i] == output; }
    } else if i < |data| {
      var longer := output + [data[i]];
      assert (Ones(bits) as int) * 2 % 256 == Ones(bits - 1);
      if |longer| < expected {
        LiteralsUnpack(data, expected, i + 1, bits - 1, longer, cut);
        if i + bits <= |data| { assert output + data[i..i + bits] == longer + data[i + 1..i + bits]; }
      } else if bits == 1 {
        assert output + data[i..i + 1] == longer;
      }
    }
  }

  // ----- Once a length has wrapped, the verifier is behind for good -----

  /** The decompressor fails, or stops at least four bytes before the verifier does. */
  ghost predicate Apart(v: Verdict, u: Option<Decoded>) {
    v.valid ==> u.None? || u.value.consumed + 4 <= v.consumed
  }

  /** No way of counting gets more than 85 bytes out of one byte read. */
  ghost predicate Bounded(v: Verdict, expected: nat, i: nat, decoded: nat) {
    v.valid ==> decoded <= expected && expected - decoded <= 85 * (v.consumed - i)
  }

  lemma {:induction false} GroupsBounded(data: seq<byte>, expected: nat, i: nat, decoded: nat, wrapped: bool)
    ensures Bounded(VerifyGroups(data, expected, i, decoded, wrapped), expected, i, decoded)
    decreases Left(data, i), 0
  {
    if decoded < expected && i < |data| {
      if data[i] == 0xFF {
        GroupsBounded(data, expected, i + 9, decoded + 8, wrapped);
      } else {
        BitsBounded(data, expected, i + 1, decoded, data[i], 8, wrapped);
      }
    }
  }

  lemma {:induction false} BitsBounded(data: seq<byte>, expected: nat, i: nat, decoded: nat, flags: byte, bits: nat, wrapped: bool)
    requires decoded < expected
    ensures Bounded(VerifyBits(data, expected, i, decoded, flags, bits, wrapped), expected, i, decoded)
    decreases Left(data, i), 2 * bits + 1
  {
    if bits == 0 {
      GroupsBounded(data, expected, i, decoded, wrapped);
    } else if flags >= 0x80 {
      RestBounded(data, expected, i + 1, decoded + 1, flags, bits, wrapped);
    } else if i + 1 < |data| && Distance(data, i) <= decoded {
      if data[i] / 16 != 0 {
        RestBounded(data, expected, i + 2, decoded + (data[i] / 16 + 2), flags, bits, wrapped);
      } else if i + 2 < |data| {
        RestBounded(data, expected, i + 3, decoded + (data[i + 2] as int + 0x12) % 256, flags, bits, wrapped || data[i + 2] > 0xED);
      }
    }
  }

  lemma {:induction false} RestBounded(data: seq<byte>, expected: nat, i: nat, decoded: nat, flags: byte, bits: nat, wrapped: bool)
    requires bits > 0
    ensures Bounded(VerifyRest(data, expected, i, decoded, flags, bits, wrapped), expected, i, decoded)
    decreases Left(data, i), 2 * bits
  {
    if decoded >= expected {
      GroupsBounded(data, expected, i, decoded, wrapped);
    } else {
      BitsBounded(data, expected, i, decoded, (flags as int) * 2 % 256, bits - 1, wrapped);
    }
  }

  lemma {:induction false} GroupsBehind(data: seq<byte>, expected: nat, i: nat, decoded: nat, flags: byte, output: seq<byte>, cut: bool, wrapped: bool)
    requires decoded + 256 <= |output| && i <= |data|
    ensures Apart(VerifyGroups(data, expected, i, decoded, wrapped), Unpack(data, expected, i, flags, 0, output, cut))
    decreases Left(data, i), 0
  {
    GroupsBounded(data, expected, i, decoded, wrapped);
    if |output| < expected && i < |data| {
      if data[i] == 0xFF {
        GroupsBounded(data, expected, i + 9, decoded + 8, wrapped);
        var cut' := expected - |output| < 8;
        LiteralsUnpack(data, expected, i + 1, 8, output, cut');
        if i + 9 <= |data| && |output| + 8 <= expected {
          GroupsBehind(data, expected, i + 9, decoded + 8, 0, output + data[i + 1..i + 9], cut', wrapped);
        }
      } else {
        BitsBehind(data, expected, i + 1, decoded, data[i], 8, output, false, wrapped);
      }
    }
  }

  lemma {:induction false} BitsBehind(data: seq<byte>, expected: nat, i: nat, decoded: nat, flags: byte, bits: nat, output: seq<byte>, cut: bool, wrapped: bool)
    requires decoded + 256 <= |output| && i <= |data| && decoded < expected
    ensures Apart(VerifyBits(data, expected, i, decoded, flags, bits, wrapped), Unpack(data, expected, i, flags, bits, output, cut))
    decreases Left(data, i), 2 * bits + 1
  {
    BitsBounded(data, expected, i, decoded, flags, bits, wrapped);
    if |output| < expected && i < |data| {
      if bits == 0 {
        GroupsBehind(data, expected, i, decoded, flags, output, cut, wrapped);
      } else if flags >= 0x80 {
        RestBehind(data, expected, i + 1, decoded + 1, flags, bits, output + [data[i]], cut, wrapped);
      } else if i + 1 < |data| && Distance(data, i) <= decoded {
        if data[i] / 16 != 0 {
          var length := data[i] / 16 + 2;
          RestBehind(data, expected, i + 2, decoded + length, flags, bits, Repeat(output, Distance(data, i), length), cut, wrapped);
        } else if i + 2 < |data| {
          var length := data[i + 2] as int + 0x12;
          RestBehind(data, expected, i + 3, decoded + length % 256, flags, bits, Repeat(output, Distance(data, i), length), cut,
                     wrapped || data[i + 2] > 0xED);
        }
      }
    }
  }

  lemma {:induction false} RestBehind(data: seq<byte>, expected: nat, i: nat, decoded: nat, flags: byte, bits: nat, output: seq<byte>, cut: bool, wrapped: bool)
    requires decoded + 256 <= |output| && i <= |data| && bits > 0
    ensures Apart(VerifyRest(data, expected, i, decoded, flags, bits, wrapped),
                  Unpack(data, expected, i, (flags as int) * 2 % 256, bits - 1, output, cut))
    decreases Left(data, i), 2 * bits
  {
    if decoded < expected { BitsBehind(data, expected, i, decoded, (flags as int) * 2 % 256, bits - 1, output, cut, wrapped); }
  }

  // ----- Up to then they go in step -----

  /** Accepted by both with the same bytes consumed, or by neither; apart once a length wrapped. */
  ghost predicate InStep(v: Verdict, u: Option<Decoded>) {
    if v.wrapped then Apart(v, u)
    else (v.valid <==> u.Some? && !u.value.cut) && (v.valid ==> u.value.consumed == v.consumed)
  }

  lemma {:induction false} GroupsInStep(data: seq<byte>, expected: nat, i: nat, flags: byte, output: seq<byte>)
    requires i <= |data|
    ensures InStep(VerifyGroups(data, expected, i, |output|, false), Unpack(data, expected, i, flags, 0, output, false))
    decreases Left(data, i), 0
  {
    if |output| < expected && i < |data| {
      if data[i] == 0xFF {
        LiteralsUnpack(data, expected, i + 1, 8, output, expected - |output| < 8);
        if i + 9 <= |data| && |output| + 8 <= expected {
          GroupsInStep(data, expected, i + 9, 0, output + data[i + 1..i + 9]);
        }
      } else {
        BitsInStep(data, expected, i + 1, data[i], 8, output);
      }
    }
  }

  lemma {:induction false} BitsInStep(data: seq<byte>, expected: nat, i: nat, flags: byte, bits: nat, output: seq<byte>)
    requires i <= |data| && |output| < expected
    ensures InStep(VerifyBits(data, expected, i, |output|, flags, bits, false), Unpack(data, expected, i, flags, bits, output, false))
    decreases Left(data, i), 2 * bits + 1
  {
    if bits == 0 {
      GroupsInStep(data, expected, i, flags, output);
    } else if i < |data| {
      if flags >= 0x80 {
        RestInStep(data, expected, i + 1, flags, bits, output + [data[i]]);
      } else if i + 1 < |data| && Distance(data, i) <= |output| {
        if data[i] / 16 != 0 {
          RestInStep(data, expected, i + 2, flags, bits, Repeat(output, Distance(data, i), data[i] / 16 + 2));
        } else if i + 2 < |data| {
          LongRunInStep(data, expected, i, flags, bits, output);
        }
      }
    }
  }

  /** A long run keeps in step up to byte 0xED and falls 256 behind above it. */
  lemma {:induction false} LongRunInStep(data: seq<byte>, expected: nat, i: nat, flags: byte, bits: nat, output: seq<byte>)
    requires i + 2 < |data| && |output| < expected && bits > 0 && flags < 0x80 && data[i] / 16 == 0 && Distance(data, i) <= |output|
    ensures InStep(VerifyBits(data, expected, i, |output|, flags, bits, false), Unpack(data, expected, i, flags, bits, output, false))
    decreases Left(data, i), 2 * bits
  {
    var length := data[i + 2] as int + 0x12;
    var longer := Repeat(output, Distance(data, i), length);
    if data[i + 2] > 0xED {
      RestBehind(data, expected, i + 3, |output| + length % 256, flags, bits, longer, false, true);
    } else {
      RestInStep(data, expected, i + 3, flags, bits, longer);
    }
  }

  lemma {:induction false} RestInStep(data: seq<byte>, expected: nat, i: nat, flags: byte, bits: nat, output: seq<byte>)
    requires i <= |data| && bits > 0
    ensures InStep(VerifyRest(data, expected, i, |output|, flags, bits, false),
                   Unpack(data, expected, i, (flags as int) * 2 % 256, bits - 1, output, false))
    decreases Left(data, i), 2 * bits
  {
    if |output| < expected { BitsInStep(data, expected, i, (flags as int) * 2 % 256, bits - 1, output); }
  }

  /** Started at 0, the verifier accepts a stream and the decompressor unpacks it to exactly the
      expected size with the same bytes consumed and no literal group cut short, exactly when no
      long-run byte above 0xED is read; with one, whatever it accepts either does not unpack or is
      done at least four bytes earlier. */
  lemma {:induction false} VerifierMeetsFormat(data: seq<byte>, expected: nat)
    ensures var v := VerifyGroups(data, expected, 0, 0, false);
            var u := Unpack(data, expected, 0, 0, 0, [], false);
            && (!v.wrapped ==> (v.valid <==> u.Some? && !u.value.cut))
            && (v.valid ==>
                  (u.Some? && !u.value.cut && u.value.consumed == v.consumed && |u.value.output| == expected <==> !v.wrapped))
            && (v.valid && v.wrapped && u.Some? ==> u.value.consumed + 4 <= v.consumed)
  {
    GroupsInStep(data, expected, 0, 0, []);
  }

  /** A stream whose long run wraps to length 0: accepted for 4 bytes, while it unpacks to more. */
  lemma {:induction false} WrappedLengthAccepted()
    ensures var data: seq<byte> := [0x80, 0x41, 0x00, 0x00, 0xEE, 0x10, 0x00];
            && VerifyGroups(data, 4, 0, 0, false) == Verdict(true, 7, true)
            && Unpack(data, 4, 0, 0, 0, [], false).None?
  {
    var data: seq<byte> := [0x80, 0x41, 0x00, 0x00, 0xEE, 0x10, 0x00];
    assert VerifyBits(data, 4, 5, 1, 0, 6, true) == Verdict(true, 7, true);
    assert VerifyBits(data, 4, 2, 1, 0, 7, false) == Verdict(true, 7, true);
    assert Unpack(data, 4, 2, 0, 7, [0x41], false).None?;
    assert [] + [data[1]] == [0x41];
  }
}
