/**
  The numbers, texts and operators that filters are made of, in closed form: the place value of a
  decimal text, arithmetic modulo 2^64, bits, and the table of operators.
 */
module FilterBasics {
  import opened Bytes
  import opened FilterGrammar
  import opened FilterValue

  // ----- Decimal texts -----

  function Pow10(n: nat): nat {
    if n == 0 then 1 else 10 * Pow10(n - 1)
  }

  predicate AllDigits(s: string) {
    forall i :: 0 <= i < |s| ==> '0' <= s[i] <= '9'
  }

  /** The digits from the i-th on, the first of them highest. */
  function PlaceSum(s: string, i: nat): nat
    requires AllDigits(s) && i <= |s|
    decreases |s| - i
  {
    if i == |s| then 0 else (s[i] - '0') as int * Pow10(|s| - 1 - i) + PlaceSum(s, i + 1)
  }

  lemma {:induction false} PlaceSumSnoc(s: string, c: char, i: nat)
    requires AllDigits(s) && '0' <= c <= '9' && i <= |s|
    ensures AllDigits(s + [c]) && PlaceSum(s + [c], i) == 10 * PlaceSum(s, i) + (c - '0') as int
    decreases |s| - i
  {
    if i < |s| {
      PlaceSumSnoc(s, c, i + 1);
      TenTimes((s[i] - '0') as int, Pow10(|s| - 1 - i));
      assert (s + [c])[i] == s[i];
    } else {
      assert PlaceSum(s + [c], i + 1) == 0 && (s + [c])[i] == c && Pow10(0) == 1;
    }
  }

  lemma {:induction false} TenTimes(d: nat, p: nat)
    ensures d * (10 * p) == 10 * (d * p)
  {
  }

  /** Exactly the texts of digits have a value, which is the sum of their digits by place. */
  lemma {:induction false} DigitsValueIsPlaceSum(s: string)
    ensures DigitsValue(s) == if AllDigits(s) then Some(PlaceSum(s, 0)) else None
  {
    if s != [] {
      DigitsValueIsPlaceSum(Front(s));
      assert s == Front(s) + [Last(s)];
      if AllDigits(Front(s)) && '0' <= Last(s) <= '9' {
        PlaceSumSnoc(Front(s), Last(s), 0);
      }
    }
  }

  lemma {:induction false} OneDigit(k: nat)
    requires k < 10
    ensures '0' <= DIGITS[k] <= '9' && (DIGITS[k] - '0') as int == k
  {
  }

  lemma {:induction false} MoreDigits(s: string, n: nat, k: nat)
    requires AllDigits(s) && DigitsValue(s) == Some(n) && k < 10
    ensures AllDigits(s + [DIGITS[k]]) && DigitsValue(s + [DIGITS[k]]) == Some(10 * n + k)
  {
    OneDigit(k);
    var longer := s + [DIGITS[k]];
    assert Front(longer) == s && Last(longer) == DIGITS[k];
  }

  lemma {:induction false} DigitsAreDigits(n: nat)
    ensures AllDigits(Digits(n)) && Digits(n) != "" && DigitsValue(Digits(n)) == Some(n)
    ensures Digits(n)[0] == '0' <==> n == 0
  {
    if n < 10 {
      OneDigit(n);
      MoreDigits("", 0, n);
      assert "" + [DIGITS[n]] == Digits(n);
    } else {
      DigitsAreDigits(n / 10);
      MoreDigits(Digits(n / 10), n / 10, n % 10);
    }
  }

  /** An optional sign and at least one digit. */
  ghost predicate Spells(s: string, sign: string, digits: string, x: int) {
    && s == sign + digits && sign in ["", "+", "-"] && digits != "" && AllDigits(digits)
    && x == if sign == "-" then 0 - PlaceSum(digits, 0) else PlaceSum(digits, 0)
  }

  /** Where the sign of a text ends. */
  function Sign(s: string): string {
    if s != [] && (s[0] == '-' || s[0] == '+') then s[..1] else ""
  }

  lemma {:induction false} SignSplits(s: string)
    ensures s == Sign(s) + s[|Sign(s)|..] && Sign(s) in ["", "+", "-"] && (Sign(s) == "-" <==> s != [] && s[0] == '-')
    ensures s[|Sign(s)|..] == if s != [] && (s[0] == '-' || s[0] == '+') then s[1..] else s
  {
    if Sign(s) != "" { assert Sign(s) == [s[0]]; }
  }

  lemma {:induction false} ParsesSpelled(s: string, x: int)
    ensures ParseInt(s) == Ok(x) <==>
            -0x8000_0000_0000_0000 <= x < 0x8000_0000_0000_0000 && Spells(s, Sign(s), s[|Sign(s)|..], x)
  {
    SignSplits(s);
    DigitsValueIsPlaceSum(s[|Sign(s)|..]);
  }

  /** A text parses exactly when it spells a 64-bit integer. */
  lemma {:induction false} ParsesIff(s: string, x: int)
    ensures ParseInt(s) == Ok(x) <==>
            -0x8000_0000_0000_0000 <= x < 0x8000_0000_0000_0000 && exists sign, digits :: Spells(s, sign, digits, x)
    ensures ParseInt(s) == Escape || ParseInt(s).Ok?
  {
    ParsesSpelled(s, x);
    forall sign, digits | Spells(s, sign, digits, x)
      ensures sign == Sign(s) && digits == s[|Sign(s)|..]
    {
      SignIsFirst(s, sign, digits, x);
    }
  }

  lemma {:induction false} SignIsFirst(s: string, sign: string, digits: string, x: int)
    requires Spells(s, sign, digits, x)
    ensures sign == Sign(s) && digits == s[|Sign(s)|..]
  {
    if sign == "" {
      assert s[0] == digits[0];
    } else {
      assert s[0] == sign[0] && s[..1] == sign && s[1..] == digits;
    }
  }

  /** The text of a 64-bit integer parses to it, without a plus sign or leading zeros. */
  lemma {:induction false} FormatParses(x: int)
    requires -0x8000_0000_0000_0000 <= x < 0x8000_0000_0000_0000
    ensures ParseInt(FormatInt(x)) == Ok(x)
    ensures FormatInt(x)[0] != '+' && (FormatInt(x)[0] == '0' <==> x == 0) && (FormatInt(x)[0] == '-' <==> x < 0)
  {
    var n: nat := if x < 0 then -x else x;
    var s, sign := Digits(n), if x < 0 then "-" else "";
    DigitsAreDigits(n);
    DigitsValueIsPlaceSum(s);
    assert FormatInt(x) == sign + s;
    assert Spells(FormatInt(x), sign, s, x);
    ParsesIff(FormatInt(x), x);
  }

  // ----- Arithmetic -----

  /** The one 64-bit integer that differs by a multiple of 2^64. */
  lemma {:induction false} WrapMeans(x: int)
    ensures -0x8000_0000_0000_0000 <= Wrap(x) < 0x8000_0000_0000_0000
    ensures exists k: int :: Wrap(x) == x + k * 0x1_0000_0000_0000_0000
  {
    var k := (x + TWO63) / TWO64;
    assert Wrap(x) == x + (-k) * 0x1_0000_0000_0000_0000;
  }

  lemma {:induction false} SumsWrap(x: int, y: int)
    ensures MathOp("+", x, y) == Wrap(x + y) && MathOp("-", x, y) == Wrap(x - y)
    ensures -0x8000_0000_0000_0000 <= x + y < 0x8000_0000_0000_0000 ==> MathOp("+", x, y) == x + y
    ensures -0x8000_0000_0000_0000 <= x - y < 0x8000_0000_0000_0000 ==> MathOp("-", x, y) == x - y
  {
  }

  lemma {:induction false} Compares(x: int, y: int)
    ensures MathOp(">", x, y) == 1 <==> x > y
    ensures MathOp("<", x, y) == 1 <==> x < y
    ensures MathOp(">=", x, y) == 1 <==> x >= y
    ensures MathOp("<=", x, y) == 1 <==> x <= y
    ensures forall op :: op in [">", "<", ">=", "<="] ==> MathOp(op, x, y) in [0, 1]
  {
  }

  lemma {:induction false} TwosComplement(n: nat)
    requires n < TWO64
    ensures Unsigned(Wrap(n)) == n
  {
  }

  /** Bit `i` of the two's complement of a 64-bit integer. */
  function SignedBit(x: int, i: nat): bool {
    BitOf(if x < 0 then (x + 0x1_0000_0000_0000_0000) % 0x1_0000_0000_0000_0000 else x, i)
  }

  lemma {:induction false} SignedBits(z: int, i: nat)
    requires -TWO63 <= z < TWO63
    ensures SignedBit(z, i) == BitOf(Unsigned(z), i)
  {
  }

  lemma {:induction false} WrappedBits(n: nat, i: nat)
    requires n < TWO64
    ensures SignedBit(Wrap(n), i) == BitOf(n, i)
  {
    TwosComplement(n);
    SignedBits(Wrap(n), i);
  }

  /** The bitwise operators work on each of the 64 bits alone. */
  lemma {:induction false} Bitwise(x: int, y: int, i: nat, width: nat)
    requires -TWO63 <= x < TWO63 && -TWO63 <= y < TWO63 && i < width == 64
    ensures SignedBit(MathOp("&", x, y), i) <==> SignedBit(x, i) && SignedBit(y, i)
    ensures SignedBit(MathOp("|", x, y), i) <==> SignedBit(x, i) || SignedBit(y, i)
    ensures SignedBit(MathOp("^", x, y), i) <==> SignedBit(x, i) != SignedBit(y, i)
  {
    var a, b := Unsigned(x), Unsigned(y);
    Pow64();
    SignedBits(x, i);
    SignedBits(y, i);
    BitsAlone(a, b, width, i);
    WrappedBits(And(a, b, width), i);
    WrappedBits(Or(a, b, width), i);
    WrappedBits(Xor(a, b, width), i);
  }

  lemma {:induction false} Pow64()
    ensures Pow2(64) == TWO64
  {
    WordSizes();
    assert Pow2(40) == 0x100 * Pow2(32);
    assert Pow2(48) == 0x100 * Pow2(40);
    assert Pow2(56) == 0x100 * Pow2(48);
    assert Pow2(64) == 0x100 * Pow2(56);
  }

  // ----- Operators and overrides -----

  /** From tightest to loosest; letters of either case; anything else is no operator. */
  lemma {:induction false} OperatorTable(op: string)
    ensures Level(op) == 5 <==> Lower(op) in ["*", "/", "%"]
    ensures Level(op) == 4 <==> Lower(op) in ["+", "-", "&", "^", "|"]
    ensures Level(op) == 3 <==> Lower(op) in ["=", "==", "!=", "<", ">", "<=", ">="]
    ensures Level(op) == 2 <==> Lower(op) in ["and", "&&"]
    ensures Level(op) == 1 <==> Lower(op) in ["or", "||", "like"]
    ensures Level(op) < 0 || 1 <= Level(op) <= 5
  {
  }

  lemma {:induction false} LowerLetters(op: string, i: nat)
    requires i < |op|
    ensures Lower("AND") == "and" && Lower("Or") == "or" && Lower("liKe") == "like"
    ensures !('A' <= op[i] <= 'Z') ==> Lower(op)[i] == op[i]
  {
  }

  /** Exactly the regions 0 to 5 are dropped, behind vs_ and bt_ only. */
  lemma {:induction false} RegionFreeMeans(s: string)
    ensures RegionFree(s) == "vs" <==> s == "vs" || exists d :: d in "012345" && s == "vs_" + [d]
    ensures RegionFree(s) == "bt" <==> s == "bt" || exists d :: d in "012345" && s == "bt_" + [d]
    ensures RegionFree(s) in ["vs", "bt"] || RegionFree(s) == s
  {
    forall d | d in "012345"
      ensures RegionFree("vs_" + [d]) == "vs" && RegionFree("bt_" + [d]) == "bt"
    {
      assert ("vs_" + [d])[..3] == "vs_" && ("bt_" + [d])[..3] == "bt_";
      assert ("vs_" + [d])[..2] == "vs" && ("bt_" + [d])[..2] == "bt";
    }
    if RegionFree(s) != s {
      var d := s[3];
      assert d in "012345" by { FewRegions(d); }
      assert s == s[..3] + [d] && s[..2] == s[..3][..2];
    }
  }

  lemma {:induction false} FewRegions(d: char)
    requires '0' <= d < '6'
    ensures d in "012345"
  {
    var k := (d - '0') as int;
    assert "012345"[k] == d;
  }

  // ----- Operands and operators, one at a time -----

  function Leaf(atom: Atom): Tree {
    Node(Operand(atom), [])
  }

  /** Numbers, names and texts as operands; a name without a value reads as the empty text. */
  lemma {:induction false} OperandsRead(env: Env, x: int, name: string, text: string)
    ensures GetString(env, Leaf(Number(x))) == Ok(FormatInt(x)) && GetNumber(env, Leaf(Number(x))) == Ok(x)
    ensures GetString(env, Leaf(Text(text))) == Ok(text) && GetNumber(env, Leaf(Text(text))) == ParseInt(text)
    ensures name in env.context ==>
              GetString(env, Leaf(Identity(name))) == Ok(env.context[name]) && GetNumber(env, Leaf(Identity(name))) == ParseInt(env.context[name])
    ensures name !in env.context ==>
              GetString(env, Leaf(Identity(name))) == Ok("") && GetNumber(env, Leaf(Identity(name))) == Escape
  {
    assert ParseInt("") == Escape;
  }

  /** Operators and groups as operands read as their value. */
  lemma {:induction false} NestedRead(env: Env, t: Tree, x: int)
    requires if t.kind.Operator? then SwitchFunction(env, t) == Ok(x) else t.kind.Group? && Eval(env, t) == Ok(x)
    ensures GetString(env, t) == Ok(FormatInt(x)) && GetNumber(env, t) == Ok(x)
  {
  }

  const ARITHMETIC := [">", "<", ">=", "<=", "+", "-", "&", "|", "^"]

  predicate Rating(env: Env, t: Tree) {
    env.queryGame == "mariokartwii" && t.kind.Operand? && t.kind.atom in [Identity("ev"), Identity("eb")]
  }

  /** Two operands of an arithmetic operator: a rating of Mario Kart Wii passes, anything else is calculated. */
  lemma {:induction false} Calculates(env: Env, op: string, left: Tree, right: Tree)
    requires Lower(op) in ARITHMETIC
    ensures var value := SwitchFunction(env, Node(Operator(op), [left, right]));
            var a, b := GetNumber(env, left), GetNumber(env, right);
            value == if Rating(env, left) then Ok(1)
                     else if !a.Ok? then a
                     else if !b.Ok? then b
                     else Ok(MathOp(Lower(op), a.value, b.value))
  {
    var t := Node(Operator(op), [left, right]);
    assert t.items[0] == left && t.items[1] == right;
    assert IsMath(Lower(op)) && Lower(op) !in ["=", "==", "!="];
    assert Rating(env, left) <==> IsIdentity(left, ["ev", "eb"]) && env.queryGame == MARIO_KART_WII;
    var a, b := GetNumber(env, left), GetNumber(env, right);
    if a.Ok? && b.Ok? {
      assert FoldMath(env, t, Lower(op), MathOp(Lower(op), a.value, b.value), 2) == Ok(MathOp(Lower(op), a.value, b.value));
    }
  }

  /** Two operands of an equality: the region of Mario Kart Wii is widened on both sides. */
  lemma {:induction false} Equates(env: Env, op: string, left: Tree, right: Tree, a: string, b: string)
    requires Lower(op) in ["=", "=="] && GetString(env, left) == Ok(a) && GetString(env, right) == Ok(b)
    ensures var region := env.queryGame == "mariokartwii" && left.kind == Operand(Identity("rk"));
            SwitchFunction(env, Node(Operator(op), [left, right]))
              == Ok(if (if region then RegionFree(a) == RegionFree(b) else a == b) then 1 else 0)
  {
    var t := Node(Operator(op), [left, right]);
    assert t.items[0] == left && t.items[1] == right;
    if !(env.queryGame == "mariokartwii" && left.kind == Operand(Identity("rk"))) {
      assert AllCompare(env, t, a, true, 2) == Ok(1);
    }
  }

  lemma {:induction false} Likens(env: Env, op: string, left: Tree, right: Tree, a: string, b: string)
    requires Lower(op) == "like" && GetString(env, left) == Ok(a) && GetString(env, right) == Ok(b)
    ensures SwitchFunction(env, Node(Operator(op), [left, right])) == env.like(a, b)
  {
    var t := Node(Operator(op), [left, right]);
    assert t.items[0] == left && t.items[1] == right;
  }

  /** What is no function of the evaluator: too few operands, products, and more than two alike. */
  lemma {:induction false} Faults(env: Env, t: Tree)
    requires t.kind.Operator?
    requires |t.items| < 2 || Level(t.kind.op) < 0 || Level(t.kind.op) == 5 || (Lower(t.kind.op) == "like" && |t.items| > 2)
    ensures SwitchFunction(env, t) == Fault
  {
    OperatorTable(t.kind.op);
  }

  /** A root or a group counts by its first child; an empty one is a fault. */
  lemma {:induction false} FirstCounts(env: Env, t: Tree)
    ensures t.items == [] ==> Eval(env, t) == Fault
    ensures t.items != [] && t.items[0].kind.Operand? ==> Eval(env, t) == GetNumber(env, t.items[0])
    ensures t.items != [] && t.items[0].kind.Operator? ==> Eval(env, t) == SwitchFunction(env, t.items[0])
    ensures t.items != [] && t.items[0].kind.Group? ==> Eval(env, t) == Eval(env, t.items[0])
  {
  }
}
