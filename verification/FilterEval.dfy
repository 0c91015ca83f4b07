/**
  The evaluator as it walks the nodes on the heap, with its loops, proved to give the meaning of the
  value tree that the nodes form.
 */
module FilterEval {
  import opened FilterGrammar
  import opened FilterParser
  import opened FilterValue

  class Expression {
    const env: Env
    ghost const finished: map<TreeNode, Tree>

    constructor (env: Env, ghost finished: map<TreeNode, Tree>)
      ensures this.env == env && this.finished == finished
    {
      this.env, this.finished := env, finished;
    }

    ghost predicate Holds(n: TreeNode)
      reads finished.Keys
    {
      n in finished && HeapTree(finished)
    }

    method Eval(n: TreeNode) returns (r: Outcome<int>)
      requires Holds(n)
      ensures r == FilterValue.Eval(env, finished[n])
      decreases finished[n], 0
    {
      if n.items == [] {
        return Fault;
      }
      var first := n.items[0];
      assert finished[first] == finished[n].items[0];
      match first.kind
      case Operator(_) => r := SwitchFunction(first);
      case Operand(_) => r := GetNumber(first);
      case Group => r := Eval(first);
      case Base => r := Fault;
    }

    method GetString(n: TreeNode) returns (r: Outcome<string>)
      requires Holds(n)
      ensures r == FilterValue.GetString(env, finished[n])
      decreases finished[n], |finished[n].items| + 3
    {
      match n.kind
      case Operand(Number(x)) => r := Ok(FormatInt(x));
      case Operand(Identity(name)) => r := Ok(env.Get(name));
      case Operand(Text(text)) => r := Ok(text);
      case Operator(_) => var x :- SwitchFunction(n); r := Ok(FormatInt(x));
      case Group => var x :- Eval(n); r := Ok(FormatInt(x));
      case Base => r := Fault;
    }

    method GetNumber(n: TreeNode) returns (r: Outcome<int>)
      requires Holds(n)
      ensures r == FilterValue.GetNumber(env, finished[n])
      decreases finished[n], |finished[n].items| + 3
    {
      match n.kind
      case Operand(Number(x)) => r := Ok(x);
      case Operand(Identity(name)) => r := ParseInt(env.Get(name));
      case Operand(Text(text)) => r := ParseInt(text);
      case Operator(_) => r := SwitchFunction(n);
      case Group => r := Eval(n);
      case Base => r := Fault;
    }

    method SwitchFunction(n: TreeNode) returns (r: Outcome<int>)
      requires Holds(n) && n.kind.Operator?
      ensures r == FilterValue.SwitchFunction(env, finished[n])
      decreases finished[n], |finished[n].items| + 2
    {
      var op := Lower(n.kind.op);
      if |n.items| < 2 {
        return Fault;
      }
      if op == "=" || op == "==" {
        r := EvalEquals(n);
      } else if op == "!=" {
        r := EvalNotEquals(n);
      } else if IsMath(op) {
        r := EvalMathOperator(n, op);
      } else if op == "and" || op == "&&" {
        r := EvalAnd(n);
      } else if op == "or" || op == "||" {
        r := EvalOr(n);
      } else if op == "like" {
        if |n.items| > 2 {
          return Fault;
        }
        assert finished[n.items[0]] == finished[n].items[0] && finished[n.items[1]] == finished[n].items[1];
        var left :- GetString(n.items[0]);
        var right :- GetString(n.items[1]);
        r := env.like(left, right);
      } else {
        r := Fault;
      }
    }

    predicate IsNamed(n: TreeNode, names: seq<string>) {
      n.kind.Operand? && n.kind.atom.Identity? && n.kind.atom.name in names
    }

    method EvalEquals(n: TreeNode) returns (r: Outcome<int>)
      requires Holds(n) && n.kind.Operator? && |n.items| >= 2 && Lower(n.kind.op) in ["=", "=="]
      ensures r == FilterValue.SwitchFunction(env, finished[n])
      decreases finished[n], |finished[n].items| + 1
    {
      if |n.items| == 2 && IsNamed(n.items[0], ["rk"]) && env.queryGame == MARIO_KART_WII {
        assert finished[n.items[1]] == finished[n].items[1];
        var value :- GetString(n.items[1]);
        return Ok(Truth(RegionFree(env.Get("rk")) == RegionFree(value)));
      }
      assert finished[n.items[0]] == finished[n].items[0];
      var arg :- GetString(n.items[0]);
      for i := 1 to |n.items|
        invariant AllCompare(env, finished[n], arg, true, 1) == AllCompare(env, finished[n], arg, true, i)
      {
        var s :- GetString(n.items[i]);
        if arg != s {
          return Ok(0);
        }
      }
      return Ok(1);
    }

    method EvalNotEquals(n: TreeNode) returns (r: Outcome<int>)
      requires Holds(n) && n.kind.Operator? && |n.items| >= 2 && Lower(n.kind.op) == "!="
      ensures r == FilterValue.SwitchFunction(env, finished[n])
      decreases finished[n], |finished[n].items| + 1
    {
      assert finished[n.items[0]] == finished[n].items[0];
      var arg :- GetString(n.items[0]);
      for i := 1 to |n.items|
        invariant AllCompare(env, finished[n], arg, false, 1) == AllCompare(env, finished[n], arg, false, i)
      {
        var s :- GetString(n.items[i]);
        if arg == s {
          return Ok(0);
        }
      }
      return Ok(1);
    }

    method EvalMathOperator(n: TreeNode, op: string) returns (r: Outcome<int>)
      requires Holds(n) && n.kind.Operator? && |n.items| >= 2 && op == Lower(n.kind.op) && IsMath(op)
      ensures r == FilterValue.SwitchFunction(env, finished[n])
      decreases finished[n], |finished[n].items| + 1
    {
      if |n.items| == 2 && IsNamed(n.items[0], ["ev", "eb"]) && env.queryGame == MARIO_KART_WII {
        return Ok(1);
      }
      assert finished[n.items[0]] == finished[n].items[0];
      var answ :- GetNumber(n.items[0]);
      ghost var first := answ;
      for i := 1 to |n.items|
        invariant FoldMath(env, finished[n], op, first, 1) == FoldMath(env, finished[n], op, answ, i)
      {
        var x :- GetNumber(n.items[i]);
        answ := MathOp(op, answ, x);
      }
      return Ok(answ);
    }

    method EvalAnd(n: TreeNode) returns (r: Outcome<int>)
      requires Holds(n) && n.kind.Operator? && |n.items| >= 2 && Lower(n.kind.op) in ["and", "&&"]
      ensures r == FilterValue.SwitchFunction(env, finished[n])
      decreases finished[n], |finished[n].items| + 1
    {
      for i := 0 to |n.items|
        invariant AllTrue(env, finished[n], 0) == AllTrue(env, finished[n], i)
      {
        var s :- GetString(n.items[i]);
        if s == "0" {
          return Ok(0);
        }
      }
      return Ok(1);
    }

    method EvalOr(n: TreeNode) returns (r: Outcome<int>)
      requires Holds(n) && n.kind.Operator? && |n.items| >= 2 && Lower(n.kind.op) in ["or", "||"]
      ensures r == FilterValue.SwitchFunction(env, finished[n])
      decreases finished[n], |finished[n].items| + 1
    {
      for i := 0 to |n.items|
        invariant AnyTrue(env, finished[n], 0) == AnyTrue(env, finished[n], i)
      {
        var s :- GetString(n.items[i]);
        if s != "0" {
          return Ok(1);
        }
      }
      return Ok(0);
    }
  }
}
