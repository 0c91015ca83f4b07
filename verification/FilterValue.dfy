/** The meaning of a filter tree over one server's values. */
module FilterValue {
  import opened Bytes
  import opened FilterGrammar

  /**
    Panics end the evaluation. `Fault` is a panic with a text, which the evaluator reports as an
    error; `Escape` is the panic of a failed number conversion, whose value is no text, so that the
    recovery panics again and the caller sees it.
   */
  datatype Outcome<+T> = Ok(value: T) | Fault | Escape {
    predicate IsFailure() { !Ok? }
    function PropagateFailure<U>(): Outcome<U>
      requires !Ok?
    {
      if Fault? then Fault else Escape
    }
    function Extract(): T
      requires Ok?
    {
      value
    }
  }

  /** `like` stands for the pattern matcher, which is not part of this model. */
  datatype Env = Env(context: map<string, string>, queryGame: string, like: (string, string) -> Outcome<int>) {
    function Get(name: string): string {
      if name in context then context[name] else ""
    }
  }

  const MARIO_KART_WII := "mariokartwii"

  // ----- 64-bit integers and their decimal text -----

  const TWO63: int := 0x8000_0000_0000_0000
  const TWO64: int := 0x1_0000_0000_0000_0000

  function Wrap(x: int): int {
    (x + TWO63) % TWO64 - TWO63
  }

  function Unsigned(x: int): nat {
    x % TWO64
  }

  const DIGITS := "0123456789"

  function Digits(n: nat): string {
    if n < 10 then [DIGITS[n]] else Digits(n / 10) + [DIGITS[n % 10]]
  }

  function FormatInt(x: int): string {
    if x < 0 then "-" + Digits(-x) else Digits(x)
  }

  function DigitsValue(s: string): Option<nat> {
    if s == [] then Some(0)
    else if '0' <= Last(s) <= '9' then
      match DigitsValue(Front(s))
      case None => None
      case Some(rest) => Some(10 * rest + (Last(s) - '0') as int)
    else None
  }

  function ParseInt(s: string): Outcome<int> {
    var negative := s != [] && s[0] == '-';
    var digits := if s != [] && (s[0] == '-' || s[0] == '+') then s[1..] else s;
    if digits == [] then Escape
    else
      match DigitsValue(digits)
      case None => Escape
      case Some(n) =>
        var x := if negative then 0 - n else n;
        if -TWO63 <= x < TWO63 then Ok(x) else Escape
  }

  // ----- Binary operators -----

  predicate IsMath(op: string) {
    op in [">", "<", ">=", "<=", "+", "-", "&", "|", "^"]
  }

  function Truth(b: bool): int {
    if b then 1 else 0
  }

  function MathOp(op: string, x: int, y: int): int {
    if op == ">" then Truth(x > y)
    else if op == "<" then Truth(x < y)
    else if op == ">=" then Truth(x >= y)
    else if op == "<=" then Truth(x <= y)
    else if op == "+" then Wrap(x + y)
    else if op == "-" then Wrap(x - y)
    else if op == "&" then Wrap(And(Unsigned(x), Unsigned(y), 64))
    else if op == "|" then Wrap(Or(Unsigned(x), Unsigned(y), 64))
    else Wrap(Xor(Unsigned(x), Unsigned(y), 64))
  }

  /** Region searches are widened: vs_0 to vs_5 and bt_0 to bt_5 stand for vs and bt. */
  function RegionFree(s: string): string {
    if |s| == 4 && (s[..3] == "vs_" || s[..3] == "bt_") && '0' <= s[3] < '6' then s[..2] else s
  }

  predicate IsIdentity(t: Tree, names: seq<string>) {
    t.kind.Operand? && t.kind.atom.Identity? && t.kind.atom.name in names
  }

  // ----- The meaning of a tree -----

  /** Only the first child of the root or of a group counts. */
  function Eval(env: Env, t: Tree): Outcome<int>
    decreases t, 0
  {
    if t.items == [] then Fault
    else
      match t.items[0].kind
      case Operator(_) => SwitchFunction(env, t.items[0])
      case Operand(_) => GetNumber(env, t.items[0])
      case Group => Eval(env, t.items[0])
      case Base => Fault
  }

  function GetString(env: Env, t: Tree): Outcome<string>
    decreases t, |t.items| + 3
  {
    match t.kind
    case Operand(Number(x)) => Ok(FormatInt(x))
    case Operand(Identity(name)) => Ok(env.Get(name))
    case Operand(Text(text)) => Ok(text)
    case Operator(_) => var x :- SwitchFunction(env, t); Ok(FormatInt(x))
    case Group => var x :- Eval(env, t); Ok(FormatInt(x))
    case Base => Fault
  }

  function GetNumber(env: Env, t: Tree): Outcome<int>
    decreases t, |t.items| + 3
  {
    match t.kind
    case Operand(Number(x)) => Ok(x)
    case Operand(Identity(name)) => ParseInt(env.Get(name))
    case Operand(Text(text)) => ParseInt(text)
    case Operator(_) => SwitchFunction(env, t)
    case Group => Eval(env, t)
    case Base => Fault
  }

  function SwitchFunction(env: Env, t: Tree): Outcome<int>
    requires t.kind.Operator?
    decreases t, |t.items| + 2
  {
    var op := Lower(t.kind.op);
    if |t.items| < 2 then Fault
    else if op == "=" || op == "==" then
      if |t.items| == 2 && IsIdentity(t.items[0], ["rk"]) && env.queryGame == MARIO_KART_WII then
        var value :- GetString(env, t.items[1]);
        Ok(Truth(RegionFree(env.Get("rk")) == RegionFree(value)))
      else
        var first :- GetString(env, t.items[0]);
        AllCompare(env, t, first, true, 1)
    else if op == "!=" then
      var first :- GetString(env, t.items[0]);
      AllCompare(env, t, first, false, 1)
    else if IsMath(op) then
      if |t.items| == 2 && IsIdentity(t.items[0], ["ev", "eb"]) && env.queryGame == MARIO_KART_WII then Ok(1)
      else
        var first :- GetNumber(env, t.items[0]);
        FoldMath(env, t, op, first, 1)
    else if op == "and" || op == "&&" then AllTrue(env, t, 0)
    else if op == "or" || op == "||" then AnyTrue(env, t, 0)
    else if op == "like" then
      if |t.items| > 2 then Fault
      else
        var left :- GetString(env, t.items[0]);
        var right :- GetString(env, t.items[1]);
        env.like(left, right)
    else Fault
  }

  /** 1 when each operand from the i-th on equals `first`, or with `equal` false when each differs. */
  function AllCompare(env: Env, t: Tree, first: string, equal: bool, i: nat): Outcome<int>
    decreases t, |t.items| - i
  {
    if i >= |t.items| then Ok(1)
    else
      var s :- GetString(env, t.items[i]);
      if (first == s) != equal then Ok(0) else AllCompare(env, t, first, equal, i + 1)
  }

  function FoldMath(env: Env, t: Tree, op: string, acc: int, i: nat): Outcome<int>
    decreases t, |t.items| - i
  {
    if i >= |t.items| then Ok(acc)
    else
      var x :- GetNumber(env, t.items[i]);
      FoldMath(env, t, op, MathOp(op, acc, x), i + 1)
  }

  function AllTrue(env: Env, t: Tree, i: nat): Outcome<int>
    decreases t, |t.items| - i
  {
    if i >= |t.items| then Ok(1)
    else
      var s :- GetString(env, t.items[i]);
      if s == "0" then Ok(0) else AllTrue(env, t, i + 1)
  }

  function AnyTrue(env: Env, t: Tree, i: nat): Outcome<int>
    decreases t, |t.items| - i
  {
    if i >= |t.items| then Ok(0)
    else
      var s :- GetString(env, t.items[i]);
      if s != "0" then Ok(1) else AnyTrue(env, t, i + 1)
  }

  // ----- What the loops decide, for any number of operands -----

  /** An operand has a text that passes the comparison with `first`. */
  predicate Passes(env: Env, t: Tree, first: string, equal: bool, i: nat)
    requires i < |t.items|
  {
    var s := GetString(env, t.items[i]);
    s.Ok? && (first == s.value) == equal
  }

  /** 1 exactly when every operand passes. */
  lemma {:induction false} AllCompareMeans(env: Env, t: Tree, first: string, equal: bool, i: nat)
    requires i <= |t.items|
    ensures AllCompare(env, t, first, equal, i) == Ok(1) <==> forall j :: i <= j < |t.items| ==> Passes(env, t, first, equal, j)
    decreases |t.items| - i
  {
    if i < |t.items| {
      AllCompareMeans(env, t, first, equal, i + 1);
      if Passes(env, t, first, equal, i) {
        assert AllCompare(env, t, first, equal, i) == AllCompare(env, t, first, equal, i + 1);
      }
    }
  }

  /** The first operand that does not pass decides: 0, or its failure. */
  lemma {:induction false} AllCompareFirst(env: Env, t: Tree, first: string, equal: bool, i: nat, k: nat)
    requires i <= k < |t.items| && !Passes(env, t, first, equal, k) && forall j :: i <= j < k ==> Passes(env, t, first, equal, j)
    ensures AllCompare(env, t, first, equal, i) == (var s :- GetString(env, t.items[k]); Ok(0))
    decreases |t.items| - i
  {
    if i < k {
      assert Passes(env, t, first, equal, i);
      AllCompareFirst(env, t, first, equal, i + 1, k);
    }
  }

  /** An operand has a text, and it is `0` or, with `zero` false, anything else. */
  predicate Reads(env: Env, t: Tree, zero: bool, i: nat)
    requires i < |t.items|
  {
    var s := GetString(env, t.items[i]);
    s.Ok? && (s.value == "0") == zero
  }

  /** 1 exactly when every operand reads other than 0. */
  lemma {:induction false} AllTrueMeans(env: Env, t: Tree, i: nat)
    requires i <= |t.items|
    ensures AllTrue(env, t, i) == Ok(1) <==> forall j :: i <= j < |t.items| ==> Reads(env, t, false, j)
    decreases |t.items| - i
  {
    if i < |t.items| {
      AllTrueMeans(env, t, i + 1);
      if Reads(env, t, false, i) {
        assert AllTrue(env, t, i) == AllTrue(env, t, i + 1);
      }
    }
  }

  /** The first operand that does not decides: 0, or its failure. */
  lemma {:induction false} AllTrueFirst(env: Env, t: Tree, i: nat, k: nat)
    requires i <= k < |t.items| && !Reads(env, t, false, k) && forall j :: i <= j < k ==> Reads(env, t, false, j)
    ensures AllTrue(env, t, i) == (var s :- GetString(env, t.items[k]); Ok(0))
    decreases |t.items| - i
  {
    if i < k {
      assert Reads(env, t, false, i);
      AllTrueFirst(env, t, i + 1, k);
    }
  }

  /** 0 exactly when every operand reads 0. */
  lemma {:induction false} AnyTrueMeans(env: Env, t: Tree, i: nat)
    requires i <= |t.items|
    ensures AnyTrue(env, t, i) == Ok(0) <==> forall j :: i <= j < |t.items| ==> Reads(env, t, true, j)
    decreases |t.items| - i
  {
    if i < |t.items| {
      AnyTrueMeans(env, t, i + 1);
      if Reads(env, t, true, i) {
        assert AnyTrue(env, t, i) == AnyTrue(env, t, i + 1);
      }
    }
  }

  /** The first operand that does not decides: 1, or its failure. */
  lemma {:induction false} AnyTrueFirst(env: Env, t: Tree, i: nat, k: nat)
    requires i <= k < |t.items| && !Reads(env, t, true, k) && forall j :: i <= j < k ==> Reads(env, t, true, j)
    ensures AnyTrue(env, t, i) == (var s :- GetString(env, t.items[k]); Ok(1))
    decreases |t.items| - i
  {
    if i < k {
      assert Reads(env, t, true, i);
      AnyTrueFirst(env, t, i + 1, k);
    }
  }

  /** Equality holds exactly when all operands have the first one's text, for any number of them. */
  lemma {:induction false} EqualsMeans(env: Env, t: Tree)
    requires t.kind.Operator? && |t.items| >= 2 && Lower(t.kind.op) in ["=", "=="]
    requires !(|t.items| == 2 && IsIdentity(t.items[0], ["rk"]) && env.queryGame == MARIO_KART_WII)
    ensures SwitchFunction(env, t) == Ok(1) <==>
            GetString(env, t.items[0]).Ok? && forall j :: 0 <= j < |t.items| ==> GetString(env, t.items[j]) == GetString(env, t.items[0])
  {
    var first := GetString(env, t.items[0]);
    if first.Ok? {
      AllCompareMeans(env, t, first.value, true, 1);
      assert forall j :: 0 <= j < |t.items| ==> (Passes(env, t, first.value, true, j) <==> GetString(env, t.items[j]) == first);
    }
  }

  /** Inequality holds exactly when no later operand has the first one's text and all have one. */
  lemma {:induction false} NotEqualsMeans(env: Env, t: Tree)
    requires t.kind.Operator? && |t.items| >= 2 && Lower(t.kind.op) == "!="
    ensures SwitchFunction(env, t) == Ok(1) <==>
            && GetString(env, t.items[0]).Ok?
            && forall j :: 1 <= j < |t.items| ==> GetString(env, t.items[j]).Ok? && GetString(env, t.items[j]) != GetString(env, t.items[0])
  {
    var first := GetString(env, t.items[0]);
    if first.Ok? {
      AllCompareMeans(env, t, first.value, false, 1);
      assert forall j :: 1 <= j < |t.items| ==>
        (Passes(env, t, first.value, false, j) <==> GetString(env, t.items[j]).Ok? && GetString(env, t.items[j]) != first);
    }
  }

  /** A conjunction holds exactly when every operand has a text other than 0. */
  lemma {:induction false} AndMeans(env: Env, t: Tree)
    requires t.kind.Operator? && |t.items| >= 2 && Lower(t.kind.op) in ["and", "&&"]
    ensures SwitchFunction(env, t) == Ok(1) <==> forall j :: 0 <= j < |t.items| ==> Reads(env, t, false, j)
  {
    AllTrueMeans(env, t, 0);
  }

  predicate FirstToHold(env: Env, t: Tree, k: nat)
    requires k < |t.items|
  {
    Reads(env, t, false, k) && forall j :: 0 <= j < k ==> Reads(env, t, true, j)
  }

  /** A disjunction holds exactly when some operand has a text other than 0 and all before it read 0. */
  lemma {:induction false} OrMeans(env: Env, t: Tree)
    requires t.kind.Operator? && |t.items| >= 2 && Lower(t.kind.op) in ["or", "||"]
    ensures SwitchFunction(env, t) == Ok(1) <==>
            exists k :: 0 <= k < |t.items| && FirstToHold(env, t, k)
  {
    AnyTrueMeans(env, t, 0);
    if forall j :: 0 <= j < |t.items| ==> Reads(env, t, true, j) {
      forall k | 0 <= k < |t.items|
        ensures !Reads(env, t, false, k)
      {
        assert Reads(env, t, true, k);
      }
    } else {
      var k := FirstNonzero(env, t);
      AnyTrueFirst(env, t, 0, k);
      assert Reads(env, t, false, k) ==> FirstToHold(env, t, k);
      forall m | 0 <= m < |t.items| && FirstToHold(env, t, m)
        ensures m == k
      {
        FirstIsUnique(env, t, m, k);
      }
    }
  }

  lemma {:induction false} FirstIsUnique(env: Env, t: Tree, m: nat, k: nat)
    requires m < |t.items| && k < |t.items| && FirstToHold(env, t, m)
    requires !Reads(env, t, true, k) && forall j :: 0 <= j < k ==> Reads(env, t, true, j)
    ensures m == k
  {
    ReadsOneWay(env, t, m);
  }

  lemma {:induction false} ReadsOneWay(env: Env, t: Tree, i: nat)
    requires i < |t.items|
    ensures !(Reads(env, t, true, i) && Reads(env, t, false, i))
  {
  }

  lemma {:induction false} FirstNonzero(env: Env, t: Tree) returns (k: nat)
    requires exists j :: 0 <= j < |t.items| && !Reads(env, t, true, j)
    ensures k < |t.items| && !Reads(env, t, true, k) && forall j :: 0 <= j < k ==> Reads(env, t, true, j)
  {
    k := 0;
    while Reads(env, t, true, k)
      invariant k < |t.items| && forall j :: 0 <= j < k ==> Reads(env, t, true, j)
      decreases |t.items| - k
    {
      k := k + 1;
    }
  }
}
