/** Bytes, machine words and bitwise operations on them, shared by the component models. */
module Bytes {

  type byte = x: int | 0 <= x < 256

  type uint16 = x: int | 0 <= x < 0x1_0000

  type uint32 = x: int | 0 <= x < 0x1_0000_0000

  datatype Option<+T> = None | Some(value: T)

  function Pow2(n: nat): (p: nat)
    ensures p >= 1
  {
    if n == 0 then 1 else 2 * Pow2(n - 1)
  }

  /** Exclusive or of the low `width` bits of `a` and `b`. */
  function Xor(a: nat, b: nat, width: nat): (x: nat)
    ensures x < Pow2(width)
  {
    if width == 0 then 0
    else (if a % 2 == b % 2 then 0 else 1) + 2 * Xor(a / 2, b / 2, width - 1)
  }

  /** Conjunction of the low `width` bits of `a` and `b`. */
  function And(a: nat, b: nat, width: nat): (x: nat)
    ensures x < Pow2(width)
  {
    if width == 0 then 0
    else (if a % 2 == 1 && b % 2 == 1 then 1 else 0) + 2 * And(a / 2, b / 2, width - 1)
  }

  /** Disjunction of the low `width` bits of `a` and `b`. */
  function Or(a: nat, b: nat, width: nat): (x: nat)
    ensures x < Pow2(width)
  {
    if width == 0 then 0
    else (if a % 2 == 1 || b % 2 == 1 then 1 else 0) + 2 * Or(a / 2, b / 2, width - 1)
  }

  /** Bit `i` of a number, the lowest first. */
  function BitOf(a: nat, i: nat): bool {
    if i == 0 then a % 2 == 1 else BitOf(a / 2, i - 1)
  }

  lemma {:induction false} AndBit(a: nat, b: nat, width: nat, i: nat)
    requires i < width
    ensures BitOf(And(a, b, width), i) <==> BitOf(a, i) && BitOf(b, i)
    decreases width
  {
    assert And(a, b, width) / 2 == And(a / 2, b / 2, width - 1);
    if i > 0 { AndBit(a / 2, b / 2, width - 1, i - 1); }
  }

  lemma {:induction false} OrBit(a: nat, b: nat, width: nat, i: nat)
    requires i < width
    ensures BitOf(Or(a, b, width), i) <==> BitOf(a, i) || BitOf(b, i)
    decreases width
  {
    assert Or(a, b, width) / 2 == Or(a / 2, b / 2, width - 1);
    if i > 0 { OrBit(a / 2, b / 2, width - 1, i - 1); }
  }

  lemma {:induction false} XorBit(a: nat, b: nat, width: nat, i: nat)
    requires i < width
    ensures BitOf(Xor(a, b, width), i) <==> BitOf(a, i) != BitOf(b, i)
    decreases width
  {
    XorHalves(a, b, width);
    if i > 0 { XorBit(a / 2, b / 2, width - 1, i - 1); }
  }

  /** The operations work on every bit alone. */
  lemma {:induction false} BitsAlone(a: nat, b: nat, width: nat, i: nat)
    requires i < width
    ensures BitOf(And(a, b, width), i) <==> BitOf(a, i) && BitOf(b, i)
    ensures BitOf(Or(a, b, width), i) <==> BitOf(a, i) || BitOf(b, i)
    ensures BitOf(Xor(a, b, width), i) <==> BitOf(a, i) != BitOf(b, i)
  {
    AndBit(a, b, width, i);
    OrBit(a, b, width, i);
    XorBit(a, b, width, i);
  }

  lemma {:induction false} WordSizes()
    ensures Pow2(8) == 0x100 && Pow2(16) == 0x1_0000 && Pow2(32) == 0x1_0000_0000
  {
    assert Pow2(4) == 16;
    assert Pow2(8) == 0x100;
    assert Pow2(12) == 0x1000;
    assert Pow2(16) == 0x1_0000;
    assert Pow2(20) == 0x10_0000;
    assert Pow2(24) == 0x100_0000;
    assert Pow2(28) == 0x1000_0000;
    assert Pow2(32) == 0x1_0000_0000;
  }

  function Xor8(a: byte, b: byte): byte {
    WordSizes();
    Xor(a, b, 8)
  }

  function Xor16(a: uint16, b: uint16): uint16 {
    WordSizes();
    Xor(a, b, 16)
  }

  function Xor32(a: uint32, b: uint32): uint32 {
    WordSizes();
    Xor(a, b, 32)
  }

  lemma {:induction false} Xor8Cancel(a: byte, b: byte)
    ensures Xor8(Xor8(a, b), b) == a
  {
    WordSizes();
    XorCancel(a, b, 8);
  }

  lemma {:induction false} Xor32Cancel(a: uint32, b: uint32)
    ensures Xor32(Xor32(a, b), b) == a
  {
    WordSizes();
    XorCancel(a, b, 32);
  }

  /** Masking twice with the same word restores the original. */
  lemma {:induction false} XorCancel(a: nat, b: nat, width: nat)
    requires a < Pow2(width)
    ensures Xor(Xor(a, b, width), b, width) == a
  {
    if width > 0 {
      XorCancel(a / 2, b / 2, width - 1);
      var x := Xor(a, b, width);
      assert x / 2 == Xor(a / 2, b / 2, width - 1);
    }
  }

  lemma {:induction false} XorZero(a: nat, width: nat)
    requires a < Pow2(width)
    ensures Xor(a, 0, width) == a && Xor(0, a, width) == a
  {
    if width > 0 { XorZero(a / 2, width - 1); }
  }

  lemma {:induction false} XorSelf(a: nat, width: nat)
    ensures Xor(a, a, width) == 0
  {
    if width > 0 { XorSelf(a / 2, width - 1); }
  }

  lemma {:induction false} XorHalves(a: nat, b: nat, width: nat)
    requires width > 0
    ensures Xor(a, b, width) % 2 == (if a % 2 == b % 2 then 0 else 1)
    ensures Xor(a, b, width) / 2 == Xor(a / 2, b / 2, width - 1)
  {
  }

  /** Regrouping an exclusive or of four words. */
  lemma {:induction false} XorExchange(a: nat, b: nat, c: nat, d: nat, width: nat)
    ensures Xor(Xor(a, b, width), Xor(c, d, width), width) == Xor(Xor(a, c, width), Xor(b, d, width), width)
  {
    if width > 0 {
      XorHalves(a, b, width);
      XorHalves(c, d, width);
      XorHalves(a, c, width);
      XorHalves(b, d, width);
      XorExchange(a / 2, b / 2, c / 2, d / 2, width - 1);
      XorHalves(Xor(a, b, width), Xor(c, d, width), width);
      XorHalves(Xor(a, c, width), Xor(b, d, width), width);
    }
  }

  /** The top bit of an exclusive or. */
  lemma {:induction false} XorTop(a: nat, b: nat, width: nat)
    requires a < Pow2(width + 1) && b < Pow2(width + 1)
    ensures Xor(a, b, width + 1) >= Pow2(width) <==> (a >= Pow2(width)) != (b >= Pow2(width))
  {
    if width > 0 { XorTop(a / 2, b / 2, width - 1); }
  }

  /** Shifting left drops the top bit on both sides alike. */
  lemma {:induction false} XorModulo(a: nat, b: nat, width: nat)
    ensures Xor(a % Pow2(width), b % Pow2(width), width) == Xor(a, b, width)
  {
    if width > 0 {
      var m := Pow2(width - 1);
      HalfOfModulo(a, m, Pow2(width));
      HalfOfModulo(b, m, Pow2(width));
      XorModulo(a / 2, b / 2, width - 1);
    }
  }

  lemma {:induction false} XorTruncate(a: nat, b: nat, width: nat)
    ensures Xor(a, b, width) == Xor(a, b, width + 1) % Pow2(width)
  {
    if width > 0 {
      XorTruncate(a / 2, b / 2, width - 1);
      XorHalves(a, b, width + 1);
      HalfOfModulo(Xor(a, b, width + 1), Pow2(width - 1), Pow2(width));
    }
  }

  /** Doubling both words doubles their exclusive or. */
  lemma {:induction false} XorDouble(a: nat, b: nat, width: nat)
    requires width > 0
    ensures Xor(2 * a, 2 * b, width) == 2 * Xor(a, b, width) % Pow2(width)
  {
    XorTruncate(a, b, width - 1);
    DoubleModulo(Xor(a, b, width), Pow2(width - 1), Pow2(width));
    assert 2 * a / 2 == a && 2 * b / 2 == b;
  }

  lemma {:induction false} DoubleModulo(x: nat, m: nat, n: nat)
    requires m > 0 && n == 2 * m
    ensures 2 * x % n == 2 * (x % m)
  {
    var q, r := DivMod(x, m);
    MulDouble(m, n, q);
    ModuloUnique(2 * x, n, q, 2 * r);
  }

  lemma {:induction false} DivMod(a: nat, n: nat) returns (q: nat, r: nat)
    requires n > 0
    ensures a == n * q + r && r < n && r == a % n
  {
    q, r := a / n, a % n;
  }

  lemma {:induction false} MulDouble(m: nat, n: nat, q: nat)
    requires n == 2 * m
    ensures n * q == 2 * (m * q)
  {
  }

  lemma {:induction false} HalfOf(a: nat, t: nat, r: nat)
    requires a == 2 * t + r
    ensures a / 2 == t + r / 2 && a % 2 == r % 2
  {
  }

  lemma {:induction false} HalfParts(a: nat, m: nat, n: nat, q: nat, r: nat)
    requires n == 2 * m && a == n * q + r && r < n
    ensures a % 2 == r % 2 && a / 2 % m == r / 2
  {
    MulDouble(m, n, q);
    HalfOf(a, m * q, r);
    ModuloUnique(a / 2, m, q, r / 2);
  }

  lemma {:induction false} HalfOfModulo(a: nat, m: nat, n: nat)
    requires m > 0 && n == 2 * m
    ensures a % n % 2 == a % 2 && a % n / 2 == a / 2 % m
  {
    var q, r := DivMod(a, n);
    HalfParts(a, m, n, q, r);
  }

  lemma {:induction false} ModuloUnique(x: nat, m: nat, q: nat, r: nat)
    requires x == m * q + r && r < m
    ensures x % m == r
  {
    MulGap(m, q, x / m);
    MulGap(m, x / m, q);
  }

  lemma {:induction false} MulGap(m: nat, a: int, b: int)
    ensures a < b ==> m * a + m <= m * b
  {
    if a < b {
      var e: nat := b - a - 1;
      assert m * b == m * (a + (1 + e)) == m * a + m * (1 + e);
      assert m * (1 + e) == m + m * e;
    }
  }

  // ----- Low bits -----

  lemma {:induction false} AndOnes(a: nat, m: nat, width: nat)
    requires m >= 1 && width > 0
    ensures And(a, 2 * m - 1, width) == a % 2 + 2 * And(a / 2, m - 1, width - 1)
  {
    assert (2 * m - 1) % 2 == 1 && (2 * m - 1) / 2 == m - 1;
  }

  lemma {:induction false} Halves(x: nat)
    ensures x == x % 2 + 2 * (x / 2)
  {
  }

  lemma {:induction false} ModuloHalves(a: nat, m: nat, n: nat)
    requires m > 0 && n == 2 * m
    ensures a % n == a % 2 + 2 * (a / 2 % m)
  {
    HalfOfModulo(a, m, n);
    Halves(a % n);
  }

  lemma {:induction false} AndModuloStep(a: nat, m: nat, width: nat)
    requires m >= 1 && width > 0 && And(a / 2, m - 1, width - 1) == a / 2 % m
    ensures And(a, 2 * m - 1, width) == a % (2 * m)
  {
    ModuloHalves(a, m, 2 * m);
    AndOnes(a, m, width);
  }

  lemma {:induction false} AndModulo(a: nat, k: nat, width: nat)
    requires k <= width
    ensures And(a, Pow2(k) - 1, width) == a % Pow2(k)
  {
    if k == 0 {
      NothingKept(a, width);
    } else {
      AndModulo(a / 2, k - 1, width - 1);
      AndModuloStep(a, Pow2(k - 1), width);
    }
  }

  lemma {:induction false} NothingKept(a: nat, width: nat)
    ensures And(a, 0, width) == 0
  {
    if width > 0 { NothingKept(a / 2, width - 1); }
  }

  lemma {:induction false} OrNothing(a: nat, width: nat)
    requires a < Pow2(width)
    ensures Or(0, a, width) == a
  {
    if width > 0 { OrNothing(a / 2, width - 1); }
  }

  lemma {:induction false} EvenProduct(p: nat, h: nat)
    ensures h * (2 * p) % 2 == 0 && h * (2 * p) / 2 == h * p
  {
    var q := h * p;
    assert h * (2 * p) == 2 * q;
  }

  /** Or-ing a number above the bits of another adds them. */
  lemma {:induction false} OrAdds(low: nat, h: nat, p: nat, k: nat, width: nat)
    requires p == Pow2(k) && low < p && h * p + low < Pow2(width)
    ensures Or(low, h * p, width) == h * p + low
    decreases k
  {
    if k == 0 {
      OrNothing(h, width);
    } else {
      var half := Pow2(k - 1);
      EvenProduct(half, h);
      if width > 0 { OrAdds(low / 2, h, half, k - 1, width - 1); }
    }
  }

  // ----- Words as bytes, most significant first -----

  function Uint32(s: seq<byte>): uint32
    requires |s| == 4
  {
    (((s[0] as int) * 0x100 + s[1]) * 0x100 + s[2]) * 0x100 + s[3]
  }

  function PutUint32(c: uint32): (s: seq<byte>)
    ensures |s| == 4
  {
    [c / 0x100_0000, c / 0x1_0000 % 0x100, c / 0x100 % 0x100, c % 0x100]
  }

  lemma {:induction false} Quotients(x: nat, q: nat)
    requires q == x / 0x100
    ensures 0x100 * q + x % 0x100 == x && x / 0x1_0000 == q / 0x100 && x / 0x100_0000 == q / 0x1_0000
  {
  }

  /** The first byte counts most. */
  lemma {:induction false} Uint32Means(s: seq<byte>)
    requires |s| == 4
    ensures Uint32(s) as int == s[0] as int * 0x100_0000 + s[1] as int * 0x1_0000 + s[2] as int * 0x100 + s[3]
  {
  }

  lemma {:induction false} Uint32OfPut(c: uint32)
    ensures Uint32(PutUint32(c)) == c
  {
    var a: nat, b: nat := c / 0x100, c / 0x1_0000;
    Quotients(c, a);
    Quotients(a, b);
    Quotients(b, c / 0x100_0000);
  }

  lemma {:induction false} PutOfUint32(s: seq<byte>)
    requires |s| == 4
    ensures PutUint32(Uint32(s)) == s
  {
    var h := (s[0] as int) * 0x100 + s[1];
    var m := h * 0x100 + s[2];
    var c := Uint32(s);
    assert c == m * 0x100 + s[3];
    assert c / 0x100 == m && c % 0x100 == s[3];
    assert m / 0x100 == h && m % 0x100 == s[2];
    assert c / 0x1_0000 == c / 0x100 / 0x100 && c / 0x100_0000 == c / 0x1_0000 / 0x100;
  }
}
