/**
  A packer for Yaz1 streams, written byte by byte: what it packs, the decompressor unpacks and the
  verifier accepts, exactly when no run starts before the output.
 */
module Yaz1Pack {
  import opened Bytes
  import opened Yaz1

  /** A run copies `length` bytes from `distance` bytes back. */
  datatype Op = Literal(b: byte) | Run(distance: nat, length: nat)

  predicate Packable(op: Op) {
    op.Run? ==> 1 <= op.distance <= 0x1000 && 3 <= op.length <= 0x111
  }

  /** The lengths that the verifier counts without wrapping. */
  predicate Counted(op: Op) {
    Packable(op) && (op.Run? ==> op.length <= 0xFF)
  }

  ghost predicate AllCounted(ops: seq<Op>) {
    forall op :: op in ops ==> Counted(op)
  }

  ghost predicate AllPackable(ops: seq<Op>) {
    forall op :: op in ops ==> Packable(op)
  }

  // ----- What the operations mean -----

  function Size(op: Op): nat {
    if op.Literal? then 1 else op.length
  }

  function Total(ops: seq<Op>): nat {
    if ops == [] then 0 else Size(ops[0]) + Total(ops[1..])
  }

  /** No run starts before the `n` bytes that precede the operations. */
  predicate Grounded(ops: seq<Op>, n: nat)
    decreases |ops|
  {
    ops == [] || ((ops[0].Run? ==> ops[0].distance <= n) && Grounded(ops[1..], n + Size(ops[0])))
  }

  /** The last `distance` bytes, over and over. */
  function Copied(output: seq<byte>, distance: nat, length: nat): (r: seq<byte>)
    requires 1 <= distance <= |output|
    ensures |r| == |output| + length
  {
    output + seq(length, i requires 0 <= i < length => output[Source(|output|, distance, i)])
  }

  /** Where the `i`-th byte of a run comes from, with `n` bytes before the run. */
  function Source(n: nat, distance: nat, i: nat): (at: nat)
    requires 1 <= distance <= n
    ensures at < n
  {
    n - distance + i % distance
  }

  function Done(output: seq<byte>, op: Op): (r: seq<byte>)
    requires Packable(op) && (op.Run? ==> op.distance <= |output|)
    ensures |r| == |output| + Size(op)
  {
    if op.Literal? then output + [op.b] else Copied(output, op.distance, op.length)
  }

  ghost function Expand(output: seq<byte>, ops: seq<Op>): (r: seq<byte>)
    requires AllPackable(ops) && Grounded(ops, |output|)
    ensures |r| == |output| + Total(ops)
    decreases |ops|
  {
    if ops == [] then output else Expand(Done(output, ops[0]), ops[1..])
  }

  /** The first bytes come from right before the run, and then each from one copied before. */
  lemma {:induction false} SourceAround(n: nat, distance: nat, i: nat)
    requires 1 <= distance <= n
    ensures i < distance ==> Source(n, distance, i) == n - distance + i
    ensures i >= distance ==> Source(n, distance, i) == Source(n, distance, i - distance)
  {
    if i < distance {
      ModuloUnique(i, distance, 0, i);
    } else {
      var q, r := DivMod(i - distance, distance);
      assert i == distance * (q + 1) + r;
      ModuloUnique(i, distance, q + 1, r);
    }
  }

  lemma {:induction false} CopiedAt(output: seq<byte>, distance: nat, length: nat, i: nat)
    requires 1 <= distance <= |output| && i < length
    ensures Copied(output, distance, length)[|output| + i] == output[Source(|output|, distance, i)]
  {
  }

  lemma {:induction false} CopiedMore(output: seq<byte>, distance: nat, done: nat)
    requires 1 <= distance <= |output|
    ensures Copied(output, distance, done + 1) == Copied(output, distance, done) + [output[Source(|output|, distance, done)]]
  {
  }

  lemma {:induction false} CopiedOnce(output: seq<byte>, distance: nat, done: nat)
    requires 1 <= distance <= |output|
    ensures var r := Copied(output, distance, done);
            r + [r[|r| - distance]] == Copied(output, distance, done + 1)
  {
    var r := Copied(output, distance, done);
    SourceAround(|output|, distance, done);
    if done >= distance { CopiedAt(output, distance, done, done - distance); }
    CopiedMore(output, distance, done);
  }

  /** Copying byte by byte, overlapping or not. */
  lemma {:induction false} RepeatCopies(output: seq<byte>, distance: nat, done: nat, length: nat)
    requires 1 <= distance <= |output|
    ensures Repeat(Copied(output, distance, done), distance, length) == Copied(output, distance, done + length)
    decreases length
  {
    if length > 0 {
      CopiedOnce(output, distance, done);
      RepeatCopies(output, distance, done + 1, length - 1);
    }
  }

  lemma {:induction false} RepeatIsCopied(output: seq<byte>, distance: nat, length: nat)
    requires 1 <= distance <= |output|
    ensures Repeat(output, distance, length) == Copied(output, distance, length)
  {
    assert Copied(output, distance, 0) == output;
    RepeatCopies(output, distance, 0, length);
  }

  // ----- The bytes -----

  /** A short run takes two bytes, a long one three; the high half of the first byte is the length less two. */
  function Body(op: Op): (r: seq<byte>)
    requires Packable(op)
  {
    if op.Literal? then [op.b]
    else
      var back := op.distance - 1;
      if op.length < 0x12 then [16 * (op.length - 2) + back / 256, back % 256]
      else [back / 256, back % 256, op.length - 0x12]
  }

  function Bodies(ops: seq<Op>): seq<byte>
    requires AllPackable(ops)
  {
    if ops == [] then [] else Body(ops[0]) + Bodies(ops[1..])
  }

  function Weight(ops: seq<Op>, k: nat, weight: byte): byte {
    if k < |ops| && ops[k].Literal? then weight else 0
  }

  /** One bit an operation, the first highest: 1 for a literal. */
  function Flags(ops: seq<Op>): byte
    requires |ops| <= 8
  {
    Weight(ops, 0, 0x80) as int + Weight(ops, 1, 0x40) + Weight(ops, 2, 0x20) + Weight(ops, 3, 0x10)
    + Weight(ops, 4, 8) + Weight(ops, 5, 4) + Weight(ops, 6, 2) + Weight(ops, 7, 1)
  }

  ghost function Pack(ops: seq<Op>): seq<byte>
    requires AllPackable(ops)
    decreases |ops|
  {
    if ops == [] then []
    else
      var n := if |ops| < 8 then |ops| else 8;
      [Flags(ops[..n])] + Bodies(ops[..n]) + Pack(ops[n..])
  }

  /** The bytes written for a distance read back as it. */
  lemma {:induction false} DistanceReadsBack(op: Op, data: seq<byte>, i: nat)
    requires Packable(op) && op.Run? && i + |Body(op)| <= |data| && data[i..i + |Body(op)|] == Body(op)
    ensures i + 1 < |data| && Distance(data, i) == op.distance
    ensures if op.length < 0x12 then data[i] / 16 == op.length - 2 else data[i] / 16 == 0 && i + 2 < |data| && data[i + 2] == op.length - 0x12
  {
    var back := op.distance - 1;
    var part := data[i..i + |Body(op)|];
    assert data[i] == part[0] && data[i + 1] == part[1];
    assert back / 256 < 16 && back == 256 * (back / 256) + back % 256;
    if op.length >= 0x12 { assert data[i + 2] == part[2]; }
  }

  lemma {:induction false} FlagsShift(ops: seq<Op>)
    requires 1 <= |ops| <= 8
    ensures Flags(ops) >= 0x80 <==> ops[0].Literal?
    ensures (Flags(ops) as int) * 2 % 256 == Flags(ops[1..])
  {
    var rest := ops[1..];
    assert Weight(rest, 0, 0x80) as int == 2 * Weight(ops, 1, 0x40) && Weight(rest, 1, 0x40) as int == 2 * Weight(ops, 2, 0x20);
    assert Weight(rest, 2, 0x20) as int == 2 * Weight(ops, 3, 0x10) && Weight(rest, 3, 0x10) as int == 2 * Weight(ops, 4, 8);
    assert Weight(rest, 4, 8) as int == 2 * Weight(ops, 5, 4) && Weight(rest, 5, 4) as int == 2 * Weight(ops, 6, 2);
    assert Weight(rest, 6, 2) as int == 2 * Weight(ops, 7, 1) && Weight(rest, 7, 1) == 0;
  }

  lemma {:induction false} FlagsFull(ops: seq<Op>)
    requires |ops| <= 8
    ensures Flags(ops) == 0xFF <==> |ops| == 8 && forall k :: 0 <= k < 8 ==> ops[k].Literal?
  {
  }

  // ----- Reading operation by operation -----

  lemma {:induction false} TailAfter(data: seq<byte>, i: nat, part: seq<byte>, tail: seq<byte>)
    requires i <= |data| && data[i..] == part + tail
    ensures i + |part| <= |data| && data[i..i + |part|] == part && data[i + |part|..] == tail
  {
    assert data[i..][..|part|] == part && data[i..][|part|..] == tail;
  }

  lemma {:induction false} PackableRest(g: seq<Op>)
    requires AllPackable(g) && g != []
    ensures Packable(g[0]) && AllPackable(g[1..]) && Bodies(g) == Body(g[0]) + Bodies(g[1..])
  {
    assert forall op :: op in g[1..] ==> op in g;
  }

  lemma {:induction false} Regrouped(a: seq<byte>, b: seq<byte>, c: seq<byte>)
    ensures a + b + c == a + (b + c)
  {
  }

  lemma {:induction false} BodiesFirst(data: seq<byte>, i: nat, g: seq<Op>, tail: seq<byte>)
    requires AllPackable(g) && g != [] && i <= |data| && data[i..] == Bodies(g) + tail
    ensures Packable(g[0]) && AllPackable(g[1..])
    ensures var n := |Body(g[0])|;
            i + n <= |data| && data[i..i + n] == Body(g[0]) && data[i + n..] == Bodies(g[1..]) + tail
  {
    PackableRest(g);
    Regrouped(Body(g[0]), Bodies(g[1..]), tail);
    TailAfter(data, i, Body(g[0]), Bodies(g[1..]) + tail);
  }

  lemma {:induction false} TotalAppend(a: seq<Op>, b: seq<Op>)
    ensures Total(a + b) == Total(a) + Total(b)
    decreases |a|
  {
    if a == [] {
      assert a + b == b;
    } else {
      assert (a + b)[1..] == a[1..] + b;
      TotalAppend(a[1..], b);
    }
  }

  lemma {:induction false} TotalPositive(ops: seq<Op>)
    requires AllPackable(ops) && ops != []
    ensures Total(ops) >= 1
  {
    assert Packable(ops[0]);
  }

  /** What the decompressor must give back. */
  ghost function Answer(output: seq<byte>, ops: seq<Op>, consumed: nat): Option<Decoded>
    requires AllPackable(ops)
  {
    if Grounded(ops, |output|) then Some(Decoded(Expand(output, ops), consumed, false)) else None
  }

  lemma {:induction false} AnswerFirst(output: seq<byte>, op: Op, ops: seq<Op>, consumed: nat)
    requires AllPackable([op] + ops)
    ensures AllPackable(ops) && Packable(op)
    ensures Answer(output, [op] + ops, consumed)
         == if op.Run? && op.distance > |output| then None else Answer(Done(output, op), ops, consumed)
  {
    assert ([op] + ops)[0] == op && ([op] + ops)[1..] == ops;
    assert forall o :: o in ops ==> o in [op] + ops;
  }

  /** One operation read by the decompressor. */
  lemma {:induction false} UnpacksOp(data: seq<byte>, expected: nat, i: nat, flags: byte, bits: nat, op: Op, output: seq<byte>)
    requires Packable(op) && bits > 0 && |output| < expected && i + |Body(op)| <= |data| && data[i..i + |Body(op)|] == Body(op)
    requires flags >= 0x80 <==> op.Literal?
    ensures Unpack(data, expected, i, flags, bits, output, false)
         == if op.Run? && op.distance > |output| then None
            else Unpack(data, expected, i + |Body(op)|, (flags as int) * 2 % 256, bits - 1, Done(output, op), false)
  {
    if op.Literal? {
      assert data[i] == data[i..i + 1][0] == op.b;
    } else {
      DistanceReadsBack(op, data, i);
      if op.distance <= |output| {
        RepeatIsCopied(output, op.distance, op.length);
      }
    }
  }

  lemma {:induction false} FirstGroup(ops: seq<Op>, data: seq<byte>, i: nat)
    requires AllPackable(ops) && ops != [] && i <= |data| && data[i..] == Pack(ops)
    ensures var n := if |ops| < 8 then |ops| else 8;
            && AllPackable(ops[..n]) && AllPackable(ops[n..]) && ops == ops[..n] + ops[n..]
            && i < |data| && data[i] == Flags(ops[..n]) && data[i + 1..] == Bodies(ops[..n]) + Pack(ops[n..])
            && Total(ops) == Total(ops[..n]) + Total(ops[n..])
  {
    var n := if |ops| < 8 then |ops| else 8;
    var flags, rest := Flags(ops[..n]), Bodies(ops[..n]) + Pack(ops[n..]);
    assert Pack(ops) == [flags] + rest;
    TailAfter(data, i, [flags], rest);
    assert ops == ops[..n] + ops[n..];
    TotalAppend(ops[..n], ops[n..]);
  }

  /** A group whose flags are all set holds eight bytes, so it is not cut. */
  lemma {:induction false} FullGroupFits(ops: seq<Op>)
    requires |ops| <= 8 && AllPackable(ops) && Flags(ops) == 0xFF
    ensures Total(ops) == 8 && |Bodies(ops)| == 8 && |ops| == 8
  {
    FlagsFull(ops);
    AllLiteral(ops);
  }

  lemma {:induction false} AllLiteral(ops: seq<Op>)
    requires AllPackable(ops) && forall k :: 0 <= k < |ops| ==> ops[k].Literal?
    ensures Total(ops) == |ops| == |Bodies(ops)|
    decreases |ops|
  {
    if ops != [] { AllLiteral(ops[1..]); }
  }

  lemma {:induction false} AllPackableBoth(a: seq<Op>, b: seq<Op>)
    requires AllPackable(a) && AllPackable(b)
    ensures AllPackable(a + b)
  {
  }

  /** The first operation of a group read: the rest of the group is left, behind what it produces. */
  lemma {:induction false} FirstRead(data: seq<byte>, expected: nat, i: nat, g: seq<Op>, tail: seq<byte>, bits: nat, output: seq<byte>) returns (n: nat)
    requires AllPackable(g) && 1 <= |g| <= bits <= 8 && |output| < expected
    requires i <= |data| && data[i..] == Bodies(g) + tail
    ensures Packable(g[0]) && AllPackable(g[1..]) && i + n <= |data| && data[i + n..] == Bodies(g[1..]) + tail
    ensures Unpack(data, expected, i, Flags(g), bits, output, false)
         == if g[0].Run? && g[0].distance > |output| then None
            else Unpack(data, expected, i + n, Flags(g[1..]), bits - 1, Done(output, g[0]), false)
  {
    n := |Body(g[0])|;
    BodiesFirst(data, i, g, tail);
    FlagsShift(g);
    UnpacksOp(data, expected, i, Flags(g), bits, g[0], output);
  }

  lemma {:induction false} FirstAnswered(g: seq<Op>, rest: seq<Op>, output: seq<byte>, consumed: nat)
    requires AllPackable(g) && AllPackable(rest) && g != []
    ensures Packable(g[0]) && AllPackable(g[1..]) && AllPackable(g + rest) && AllPackable(g[1..] + rest)
    ensures Answer(output, g + rest, consumed)
         == if g[0].Run? && g[0].distance > |output| then None else Answer(Done(output, g[0]), g[1..] + rest, consumed)
  {
    AllPackableBoth(g, rest);
    assert g + rest == [g[0]] + (g[1..] + rest);
    AnswerFirst(output, g[0], g[1..] + rest, consumed);
  }

  lemma {:induction false} UnpacksRest(data: seq<byte>, expected: nat, i: nat, g: seq<Op>, rest: seq<Op>, bits: nat, output: seq<byte>)
    requires AllPackable(g) && AllPackable(rest) && |g| <= bits <= 8 && (rest != [] ==> bits == |g|)
    requires i <= |data| && data[i..] == Bodies(g) + Pack(rest) && expected == |output| + Total(g) + Total(rest)
    ensures AllPackable(g + rest)
    ensures Unpack(data, expected, i, Flags(g), bits, output, false) == Answer(output, g + rest, |data|)
    decreases |g| + |rest|, |rest|, 1
  {
    if g != [] {
      TotalPositive(g);
      var n := FirstRead(data, expected, i, g, Pack(rest), bits, output);
      FirstAnswered(g, rest, output, |data|);
      if !(g[0].Run? && g[0].distance > |output|) {
        UnpacksRest(data, expected, i + n, g[1..], rest, bits - 1, Done(output, g[0]));
      }
    } else {
      assert g + rest == rest;
      NextGroup(data, expected, i, rest, bits, output);
    }
  }

  lemma {:induction false} NextGroup(data: seq<byte>, expected: nat, i: nat, ops: seq<Op>, bits: nat, output: seq<byte>)
    requires AllPackable(ops) && (ops != [] ==> bits == 0)
    requires i <= |data| && data[i..] == Pack(ops) && expected == |output| + Total(ops)
    ensures Unpack(data, expected, i, 0, bits, output, false) == Answer(output, ops, |data|)
    decreases |ops|, |ops|, 0
  {
    if ops != [] {
      var n := if |ops| < 8 then |ops| else 8;
      TotalPositive(ops);
      FirstGroup(ops, data, i);
      if data[i] == 0xFF { FullGroupFits(ops[..n]); }
      UnpacksRest(data, expected, i + 1, ops[..n], ops[n..], 8, output);
    }
  }

  /** Every packed stream unpacks to what its operations mean, or not at all. */
  lemma {:induction false} Unpacks(ops: seq<Op>)
    requires AllPackable(ops)
    ensures var u := Unpack(Pack(ops), Total(ops), 0, 0, 0, [], false);
            if Grounded(ops, 0) then u == Some(Decoded(Expand([], ops), |Pack(ops)|, false)) else u.None?
  {
    var data := Pack(ops);
    assert data[0..] == data;
    NextGroup(data, Total(ops), 0, ops, 0, []);
  }

  // ----- Reading operation by operation in the verifier -----

  lemma {:induction false} CountedPackable(ops: seq<Op>)
    requires AllCounted(ops)
    ensures AllPackable(ops)
  {
    assert forall op :: op in ops ==> Counted(op);
  }

  lemma {:induction false} CountedParts(ops: seq<Op>, n: nat)
    requires AllCounted(ops) && n <= |ops|
    ensures AllCounted(ops[..n]) && AllCounted(ops[n..])
  {
    assert forall op :: op in ops[..n] || op in ops[n..] ==> op in ops;
  }

  /** One operation read by the verifier. */
  lemma {:induction false} CountsOp(data: seq<byte>, expected: nat, i: nat, flags: byte, bits: nat, op: Op, decoded: nat)
    requires Counted(op) && bits > 0 && decoded < expected && i + |Body(op)| <= |data| && data[i..i + |Body(op)|] == Body(op)
    requires flags >= 0x80 <==> op.Literal?
    ensures var v := VerifyBits(data, expected, i, decoded, flags, bits, false);
            if op.Run? && op.distance > decoded then v == Verdict(false, i + 2, false)
            else v == VerifyRest(data, expected, i + |Body(op)|, decoded + Size(op), flags, bits, false)
  {
    if op.Run? {
      DistanceReadsBack(op, data, i);
    }
  }

  lemma {:induction false} GroupsCount(data: seq<byte>, expected: nat, i: nat, ops: seq<Op>, decoded: nat)
    requires AllCounted(ops) && AllPackable(ops) && i <= |data| && data[i..] == Pack(ops) && expected == decoded + Total(ops)
    ensures !VerifyGroups(data, expected, i, decoded, false).wrapped
    decreases |ops|, 0, 0
  {
    if ops != [] {
      var n := if |ops| < 8 then |ops| else 8;
      TotalPositive(ops);
      FirstGroup(ops, data, i);
      CountedParts(ops, n);
      if data[i] == 0xFF {
        FullGroupFits(ops[..n]);
        TailAfter(data, i + 1, Bodies(ops[..n]), Pack(ops[n..]));
        GroupsCount(data, expected, i + 9, ops[n..], decoded + 8);
      } else {
        BitsCount(data, expected, i + 1, ops[..n], ops[n..], 8, decoded);
      }
    }
  }

  lemma {:induction false} BitsCount(data: seq<byte>, expected: nat, i: nat, g: seq<Op>, rest: seq<Op>, bits: nat, decoded: nat)
    requires AllCounted(g) && AllCounted(rest) && AllPackable(g) && AllPackable(rest)
    requires 1 <= |g| <= bits <= 8 && (rest != [] ==> bits == |g|)
    requires i <= |data| && data[i..] == Bodies(g) + Pack(rest) && decoded < expected == decoded + Total(g) + Total(rest)
    ensures !VerifyBits(data, expected, i, decoded, Flags(g), bits, false).wrapped
    decreases |rest|, 1, |g|
  {
    var op, n := g[0], |Body(g[0])|;
    CountedParts(g, 1);
    assert Counted(op);
    BodiesFirst(data, i, g, Pack(rest));
    FlagsShift(g);
    CountsOp(data, expected, i, Flags(g), bits, op, decoded);
    if !(op.Run? && op.distance > decoded) {
      RestCounts(data, expected, i + n, g, rest, bits, decoded + Size(op));
    }
  }

  lemma {:induction false} RestCounts(data: seq<byte>, expected: nat, i: nat, g: seq<Op>, rest: seq<Op>, bits: nat, decoded: nat)
    requires 1 <= |g| <= bits <= 8 && (rest != [] ==> bits == |g|)
    requires AllCounted(g[1..]) && AllCounted(rest) && AllPackable(g[1..]) && AllPackable(rest)
    requires i <= |data| && data[i..] == Bodies(g[1..]) + Pack(rest) && expected == decoded + Total(g[1..]) + Total(rest)
    ensures !VerifyRest(data, expected, i, decoded, Flags(g), bits, false).wrapped
    decreases |rest|, 1, |g|, 0
  {
    FlagsShift(g);
    if g[1..] != [] {
      TotalPositive(g[1..]);
      BitsCount(data, expected, i, g[1..], rest, bits - 1, decoded);
    } else if rest != [] {
      TotalPositive(rest);
      GroupsCount(data, expected, i, rest, decoded);
    }
  }

  /** The verifier accepts a packed stream exactly when no run starts before the output, and takes it whole. */
  lemma {:induction false} Verifies(ops: seq<Op>)
    requires AllCounted(ops)
    ensures AllPackable(ops)
    ensures var v := VerifyGroups(Pack(ops), Total(ops), 0, 0, false);
            && !v.wrapped && (v.valid <==> Grounded(ops, 0)) && (v.valid ==> v.consumed == |Pack(ops)|)
  {
    var data := Pack(ops);
    CountedPackable(ops);
    assert data[0..] == data;
    GroupsCount(data, Total(ops), 0, ops, 0);
    Unpacks(ops);
    GroupsInStep(data, Total(ops), 0, 0, []);
  }

  /** A run that starts before the output is rejected: 0xF01 bytes back behind one byte. */
  lemma {:induction false} EarlyRunRejected()
    ensures !VerifyGroups([0x80, 0x41, 0x1F, 0x00], 4, 0, 0, false).valid
  {
    var data: seq<byte> := [0x80, 0x41, 0x1F, 0x00];
    assert VerifyBits(data, 4, 2, 1, 0, 7, false) == Verdict(false, 4, false);
  }
}
