/**
  The Mii CRC as a remainder: a record passes exactly when its bits, read as a polynomial over GF(2)
  with the highest power first, are a multiple of x^16 + x^12 + x^5 + 1.
 */
module MiiPolynomial {
  import opened Bytes
  import opened Mii

  type Bits = seq<bool>

  /** The bits of the bytes, in order, the high bit of each first. */
  function BitsOf(data: seq<byte>): (r: Bits)
    ensures |r| == 8 * |data|
  {
    seq(8 * |data|, k requires 0 <= k < 8 * |data| => BitOf(data[k / 8], 7 - k % 8))
  }

  /** A coefficient, which is zero beyond both ends. */
  function At(q: Bits, k: int): bool {
    0 <= k < |q| && q[k]
  }

  /** The product with the generator: each power of it adds a copy of `q`, moved by 0, 4, 11 or 16 places. */
  function Multiple(q: Bits): (r: Bits)
    ensures |r| == |q| + 16
  {
    seq(|q| + 16, k requires 0 <= k < |q| + 16 => (At(q, k) != At(q, k - 4)) != (At(q, k - 11) != At(q, k - 16)))
  }

  /** Some product, with as many leading zeros as the length leaves. */
  ghost predicate IsMultiple(bits: Bits) {
    exists q :: |q| == |bits| && Multiple(q) == Zeros(16) + bits
  }

  function Zeros(n: nat): (r: Bits)
    ensures |r| == n
  {
    seq(n, _ => false)
  }

  // ----- The register bit by bit -----

  /** Bit `j` of the register, the high one first. */
  function Register(crc: uint16, j: nat): bool
    requires j < 16
  {
    BitOf(crc, 15 - j)
  }

  lemma {:induction false} NoBits(i: nat)
    ensures !BitOf(0, i)
  {
    if i > 0 { NoBits(i - 1); }
  }

  lemma {:induction false} OneBit(one: nat, i: nat)
    requires one == 1
    ensures BitOf(one, i) <==> i == 0
  {
    if i > 0 { NoBits(i - 1); }
  }

  lemma {:induction false} ShiftedBits(a: nat, p: nat, n: nat, i: nat)
    requires p == Pow2(n)
    ensures BitOf(p * a, i) <==> i >= n && BitOf(a, i - n)
    decreases n
  {
    if n > 0 {
      var half := Pow2(n - 1);
      TwiceProduct(half, a);
      if i > 0 { ShiftedBits(a, half, n - 1, i - 1); }
    }
  }

  lemma {:induction false} TwiceProduct(half: nat, a: nat)
    ensures 2 * half * a % 2 == 0 && 2 * half * a / 2 == half * a && (1 + 2 * half * a) % 2 == 1 && (1 + 2 * half * a) / 2 == half * a
  {
    var h := half * a;
    assert 2 * half * a == 2 * h;
  }

  lemma {:induction false} BitsAbove(a: nat, p: nat, n: nat, i: nat)
    requires n > 0 && p == Pow2(n)
    ensures BitOf(1 + p * a, i) <==> i == 0 || (i >= n && BitOf(a, i - n))
  {
    TwiceProduct(Pow2(n - 1), a);
    if i > 0 { ShiftedBits(a, Pow2(n - 1), n - 1, i - 1); }
  }

  /** 0x1021 is x^12 + x^5 + 1. */
  lemma {:induction false} GeneratorBits(j: nat)
    requires j < 16
    ensures Register(0x1021, j) <==> j == 3 || j == 10 || j == 15
    ensures Register(1, j) <==> j == 15
  {
    var one, i := 1, 15 - j;
    assert Pow2(5) == 32 && Pow2(7) == 128;
    BitsAbove(1 + 128 * one, 32, 5, i);
    if i >= 5 {
      BitsAbove(one, 128, 7, i - 5);
      if i >= 12 { OneBit(one, i - 12); }
    }
    OneBit(one, i);
  }

  lemma {:induction false} BitOfDouble(a: nat, m: nat, n: nat, i: nat)
    requires m == Pow2(n) && i < n
    ensures BitOf(2 * a % m, i) <==> i > 0 && BitOf(a, i - 1)
    decreases i
  {
    LowBitsStay(2 * a, m, n, i);
    assert 2 * a / 2 == a;
  }

  lemma {:induction false} LowBitsStay(a: nat, m: nat, n: nat, i: nat)
    requires m == Pow2(n) && i < n
    ensures BitOf(a % m, i) == BitOf(a, i)
    decreases i
  {
    HalfOfModulo(a, m / 2, m);
    if i > 0 { LowBitsStay(a / 2, m / 2, n - 1, i - 1); }
  }

  lemma {:induction false} TopBit(a: nat, m: nat, n: nat)
    requires m == Pow2(n) && a < 2 * m
    ensures BitOf(a, n) <==> a >= m
    decreases n
  {
    if n > 0 { TopBit(a / 2, m / 2, n - 1); }
  }

  /** Xor16 bit by bit. */
  lemma {:induction false} RegisterXor(a: uint16, b: uint16, j: nat, width: nat)
    requires j < 16 && width == 16
    ensures Register(Xor16(a, b), j) <==> Register(a, j) != Register(b, j)
  {
    BitsAlone(a, b, width, 15 - j);
  }

  lemma {:induction false} RegisterShift(crc: uint16, d: uint16, j: nat, width: nat)
    requires j < 16 && width == 16 && d == (crc as int) * 2 % 0x1_0000
    ensures Register(d, j) <==> j < 15 && Register(crc, j + 1)
    ensures Register(crc, 0) <==> crc >= 0x8000
  {
    WordSizes();
    BitOfDouble(crc, 0x1_0000, width, 15 - j);
    assert Pow2(15) == 0x8000;
    TopBit(crc, 0x8000, width - 1);
  }

  /** What one step of the register does to each of its bits. */
  lemma {:induction false} RegisterSteps(crc: uint16, bit: bool, j: nat, width: nat)
    requires j < 16 && width == 16
    ensures var top := Register(crc, 0);
            Register(ShiftIn(crc, bit), j) <==>
            ((j < 15 && Register(crc, j + 1)) != (top && (j == 3 || j == 10 || j == 15))) != (bit && j == 15)
  {
    var d: uint16 := crc * 2 % 0x1_0000;
    RegisterShift(crc, d, j, width);
    GeneratorBits(j);
    RegisterXor(d, 0x1021, j, width);
    var e := if crc >= 0x8000 then Xor16(d, 0x1021) else d;
    RegisterXor(e, 1, j, width);
  }

  // ----- Long division -----

  /** The bits read so far are a multiple, plus the register at their end. */
  ghost predicate Divides(bits: Bits, q: Bits, crc: uint16) {
    && |q| == |bits|
    && (forall k :: 0 <= k < |bits| ==> Multiple(q)[k] == At(Zeros(16) + bits, k))
    && (forall j :: 0 <= j < 16 ==> (Multiple(q)[|bits| + j] != Register(crc, j)) == At(Zeros(16) + bits, |bits| + j))
  }

  lemma {:induction false} MultipleMore(q: Bits, b: bool, k: nat)
    requires k < |q| + 17
    ensures Multiple(q + [b])[k] <==> (k < |q| + 16 && Multiple(q)[k]) != (b && (k - |q|) in [0, 4, 11, 16])
  {
    var m := q + [b];
    assert forall i: int :: At(m, i) == (if i == |q| then b else At(q, i));
  }

  lemma {:induction false} PaddedMore(bits: Bits, bit: bool, k: nat)
    ensures At(Zeros(16) + (bits + [bit]), k) == if k == 16 + |bits| then bit else At(Zeros(16) + bits, k)
  {
  }

  lemma {:induction false} FrontMore(bits: Bits, q: Bits, crc: uint16, bit: bool, k: nat)
    requires Divides(bits, q, crc) && k <= |bits|
    ensures Multiple(q + [Register(crc, 0)])[k] == At(Zeros(16) + (bits + [bit]), k)
  {
    MultipleMore(q, Register(crc, 0), k);
    PaddedMore(bits, bit, k);
    if k == |bits| {
      var zero: nat := 0;
      assert (Multiple(q)[|bits| + zero] != Register(crc, zero)) == At(Zeros(16) + bits, |bits| + zero);
    }
  }

  lemma {:induction false} RegisterMore(bits: Bits, q: Bits, crc: uint16, bit: bool, j: nat, width: nat)
    requires Divides(bits, q, crc) && j < 16 == width
    ensures (Multiple(q + [Register(crc, 0)])[|bits| + 1 + j] != Register(ShiftIn(crc, bit), j))
         == At(Zeros(16) + (bits + [bit]), |bits| + 1 + j)
  {
    var n := |bits|;
    MultipleMore(q, Register(crc, 0), n + 1 + j);
    RegisterSteps(crc, bit, j, width);
    PaddedMore(bits, bit, n + 1 + j);
    if j < 15 {
      assert (Multiple(q)[n + (j + 1)] != Register(crc, j + 1)) == At(Zeros(16) + bits, n + (j + 1));
    }
  }

  lemma {:induction false} DividesMore(bits: Bits, q: Bits, crc: uint16, bit: bool, width: nat)
    requires Divides(bits, q, crc) && width == 16
    ensures Divides(bits + [bit], q + [Register(crc, 0)], ShiftIn(crc, bit))
  {
    var q', padded' := q + [Register(crc, 0)], Zeros(16) + (bits + [bit]);
    forall k | 0 <= k < |bits| + 1
      ensures Multiple(q')[k] == At(padded', k)
    {
      FrontMore(bits, q, crc, bit, k);
    }
    forall j | 0 <= j < 16
      ensures (Multiple(q')[|bits| + 1 + j] != Register(ShiftIn(crc, bit), j)) == At(padded', |bits| + 1 + j)
    {
      RegisterMore(bits, q, crc, bit, j, width);
    }
  }

  /** The `n` high bits of a byte. */
  function Tops(val: byte, n: nat): (r: Bits)
    requires n <= 8
    ensures |r| == n
  {
    seq(n, k requires 0 <= k < n => BitOf(val, 7 - k))
  }

  lemma {:induction false} TopsFirst(val: byte, n: nat, width: nat)
    requires 1 <= n <= 8 && width == 8
    ensures Tops(val, n) == [val >= 0x80] + Tops((val as int) * 2 % 256, n - 1)
  {
    var rest := (val as int) * 2 % 256;
    var all := [val >= 0x80] + Tops(rest, n - 1);
    forall k | 0 <= k < n
      ensures Tops(val, n)[k] == all[k]
    {
      TopsAt(val, rest, k, width);
    }
  }

  lemma {:induction false} TopsAt(val: byte, rest: byte, k: nat, width: nat)
    requires k < 8 == width && rest == (val as int) * 2 % 256
    ensures BitOf(val, 7 - k) == if k == 0 then val >= 0x80 else BitOf(rest, 8 - k)
  {
    WordSizes();
    if k == 0 {
      assert Pow2(7) == 0x80;
      TopBit(val, 0x80, width - 1);
    } else {
      BitOfDouble(val, 0x100, width, 8 - k);
    }
  }

  lemma {:induction false} ByteDivides(bits: Bits, q: Bits, crc: uint16, val: byte, n: nat, width: nat) returns (longer: Bits)
    requires Divides(bits, q, crc) && n <= 8 == width
    ensures Divides(bits + Tops(val, n), longer, FeedBits(crc, val, n))
    decreases n
  {
    if n == 0 {
      assert bits + Tops(val, n) == bits;
      longer := q;
    } else {
      var bit, rest := val >= 0x80, (val as int) * 2 % 256;
      DividesMore(bits, q, crc, bit, 2 * width);
      longer := ByteDivides(bits + [bit], q + [Register(crc, 0)], ShiftIn(crc, bit), rest, n - 1, width);
      TopsFirst(val, n, width);
      assert bits + Tops(val, n) == bits + [bit] + Tops(rest, n - 1);
    }
  }

  lemma {:induction false} BitsOfSnoc(data: seq<byte>, val: byte, width: nat)
    requires width == 8
    ensures BitsOf(data + [val]) == BitsOf(data) + Tops(val, width)
  {
  }

  /** Feeding a message divides its bits by the generator; the register is the remainder. */
  lemma {:induction false} CrcDivides(data: seq<byte>) returns (q: Bits)
    ensures Divides(BitsOf(data), q, Crc(data))
  {
    if data == [] {
      q := [];
      assert forall k: int :: !At(q, k);
      forall j: nat | j < 16
        ensures !Register(Crc(data), j)
      {
        NoBits(15 - j);
      }
    } else {
      var front, val := data[..|data| - 1], data[|data| - 1];
      var before := CrcDivides(front);
      q := ByteDivides(BitsOf(front), before, Crc(front), val, 8, 8);
      BitsOfSnoc(front, val, 8);
      assert data == front + [val];
    }
  }

  lemma {:induction false} AllBitsZero(a: nat, n: nat)
    requires a < Pow2(n) && forall i :: 0 <= i < n ==> !BitOf(a, i)
    ensures a == 0
  {
    if n > 0 {
      assert !BitOf(a, 0);
      forall i | 0 <= i < n - 1
        ensures !BitOf(a / 2, i)
      {
        assert !BitOf(a, i + 1);
      }
      AllBitsZero(a / 2, n - 1);
    }
  }

  /** Products that agree on the first places have the same first factor there. */
  lemma {:induction false} FactorUnique(p: Bits, q: Bits, k: nat)
    requires |p| == |q| && k <= |p| && forall i :: 0 <= i < |p| ==> Multiple(p)[i] == Multiple(q)[i]
    ensures forall i :: 0 <= i < k ==> p[i] == q[i]
    decreases k
  {
    if k > 0 {
      FactorUnique(p, q, k - 1);
      assert forall i: int :: i < k - 1 ==> At(p, i) == At(q, i);
      assert Multiple(p)[k - 1] == Multiple(q)[k - 1];
      assert At(p, k - 1) == At(q, k - 1);
    }
  }

  lemma {:induction false} RegisterZero(crc: uint16, width: nat)
    requires width == 16 && forall j :: 0 <= j < 16 ==> !Register(crc, j)
    ensures crc == 0
  {
    WordSizes();
    forall i | 0 <= i < width
      ensures !BitOf(crc, i)
    {
      assert !Register(crc, 15 - i);
    }
    AllBitsZero(crc, width);
  }

  /** A message has CRC zero exactly when its polynomial is a multiple of the generator. */
  lemma {:induction false} ZeroIffMultiple(data: seq<byte>)
    ensures Crc(data) == 0 <==> IsMultiple(BitsOf(data))
  {
    var bits := BitsOf(data);
    var q := CrcDivides(data);
    var padded, n := Zeros(16) + bits, |bits|;
    if Crc(data) == 0 {
      forall k: nat | k < n + 16
        ensures Multiple(q)[k] == padded[k]
      {
        if k >= n {
          NoBits(15 - (k - n));
          assert (Multiple(q)[n + (k - n)] != Register(Crc(data), k - n)) == At(padded, n + (k - n));
        }
      }
      assert Multiple(q) == padded;
    }
    forall p | |p| == n && Multiple(p) == padded
      ensures Crc(data) == 0
    {
      FactorUnique(p, q, n);
      assert p == q;
      forall j: nat | j < 16
        ensures !Register(Crc(data), j)
      {
        assert (Multiple(q)[n + j] != Register(Crc(data), j)) == At(padded, n + j);
      }
      RegisterZero(Crc(data), 16);
    }
  }

  /** The generator itself, 0x11021, passes. */
  lemma {:induction false} GeneratorPasses()
    ensures Crc([0x01, 0x10, 0x21]) == 0
  {
    var data: seq<byte> := [0x01, 0x10, 0x21];
    var q := Zeros(23) + [true];
    GeneratorBytes(data);
    assert forall i: int :: At(q, i) <==> i == 23;
    assert Multiple(q) == Zeros(16) + BitsOf(data);
    ZeroIffMultiple(data);
  }

  lemma {:induction false} GeneratorBytes(data: seq<byte>)
    requires data == [0x01, 0x10, 0x21]
    ensures forall k :: 0 <= k < 24 ==> (BitsOf(data)[k] <==> k in [7, 11, 18, 23])
  {
    ByteBits(0x01);
    ByteBits(0x10);
    ByteBits(0x21);
    var t: Bits := Tops(0x01, 8) + Tops(0x10, 8) + Tops(0x21, 8);
    assert BitsOf(data) == t;
  }

  lemma {:induction false} ByteBits(val: byte)
    requires val in [0x01, 0x10, 0x21]
    ensures Tops(val, 8) == [false, false, val == 0x21, val == 0x10, false, false, false, val != 0x10]
  {
    assert BitOf(val, 0) == (val % 2 == 1) && BitOf(val, 1) == (val / 2 % 2 == 1) && BitOf(val, 2) == (val / 4 % 2 == 1);
    assert BitOf(val, 3) == (val / 8 % 2 == 1) && BitOf(val, 4) == (val / 16 % 2 == 1) && BitOf(val, 5) == (val / 32 % 2 == 1);
    assert BitOf(val, 6) == (val / 64 % 2 == 1) && BitOf(val, 7) == (val / 128 % 2 == 1);
  }
}
