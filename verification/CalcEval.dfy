/** The postfix evaluator. The arithmetic itself is a parameter. */
module CalcEval {
  import opened Wrappers
  import opened CalcTokens
  import CalcShunt

  /** The operators and functions on numbers. */
  datatype Arith<!N> = Arith(op: (Operator, N, N) -> N, fun1: (string, N) -> N, fun2: (string, N, N) -> N)

  /** The result of a calculation: a number, a reported error, or a crash on a
      function that is in no table. */
  datatype Outcome<+N> = Answer(value: N) | SyntaxError | Crash

  /** What applying a token to the number stack leaves. */
  datatype Applied<+N> = Stack(items: seq<Token<N>>) | Wrong | Missing

  function ApplyOp<N>(ar: Arith<N>, op: Operator, items: seq<Token<N>>): Applied<N> {
    match TakeNums(items, 2)
    case (None, _) => Wrong
    case (Some(ns), rest) => Stack(rest + [Num(ar.op(op, ns[0], ns[1]))])
  }

  function ApplyFunc<N>(ar: Arith<N>, name: string, items: seq<Token<N>>): Applied<N> {
    if Arity(name) == 0 then Missing
    else
      match TakeNums(items, Arity(name))
      case (None, _) => Wrong
      case (Some(ns), rest) =>
        Stack(rest + [Num(if Arity(name) == 1 then ar.fun1(name, ns[0]) else ar.fun2(name, ns[0], ns[1]))])
  }

  /** Applies the tokens one after the other. */
  function Run<N>(ar: Arith<N>, ops: seq<Token<N>>, items: seq<Token<N>>): Applied<N>
    decreases |ops|
  {
    if ops == [] then Stack(items)
    else
      var next := match ops[0]
        case Num(_) => Stack(items + [ops[0]])
        case Op(op) => ApplyOp(ar, op, items)
        case Func(name, _) => ApplyFunc(ar, name, items)
        case _ => Wrong;
      match next
      case Stack(items') => Run(ar, ops[1..], items')
      case _ => next
  }

  function Evaluate<N>(ar: Arith<N>, ops: seq<Token<N>>): Outcome<N> {
    match Run(ar, ops, [])
    case Stack(items) => if |items| == 1 && items[0].Num? then Answer(items[0].value) else SyntaxError
    case Wrong => SyntaxError
    case Missing => Crash
  }

  /** Compiling and evaluating, as Calc does. */
  function Compute<N>(ar: Arith<N>, input: seq<Token<N>>): Outcome<N> {
    match CalcShunt.Shunt(input)
    case None => SyntaxError
    case Some(ops) => Evaluate(ar, ops)
  }

  predicate OnlyNums<N>(items: seq<Token<N>>) {
    forall k :: 0 <= k < |items| ==> items[k].Num?
  }

  /** Only numbers are ever pushed on the evaluation stack. */
  lemma TakeKeepsNums<N>(items: seq<Token<N>>, n: nat)
    requires OnlyNums(items)
    ensures OnlyNums(TakeNums(items, n).1)
  {
  }

  /** calc. */
  method Calc<N>(ar: Arith<N>, ops: seq<Token<N>>) returns (r: Outcome<N>)
    ensures r == Evaluate(ar, ops)
  {
    var stack := new TokenStack<N>();
    for i := 0 to |ops|
      invariant fresh(stack) && OnlyNums(stack.items)
      invariant Run(ar, ops, []) == Run(ar, ops[i..], stack.items)
    {
      var tok := ops[i];
      assert ops[i..][1..] == ops[i + 1..];
      TakeKeepsNums(stack.items, match tok case Func(name, _) => Arity(name) case _ => 2);
      match tok
      case Num(_) => stack.Push(tok);
      case Op(op) =>
        var ns := stack.GetNums(2);
        if ns.None? {
          return SyntaxError;
        }
        stack.Push(Num(ar.op(op, ns.value[0], ns.value[1])));
      case Func(name, _) =>
        if Arity(name) == 0 {
          return Crash;
        }
        var ns := stack.GetNums(Arity(name));
        if ns.None? {
          return SyntaxError;
        }
        stack.Push(Num(if Arity(name) == 1 then ar.fun1(name, ns.value[0]) else ar.fun2(name, ns.value[0], ns.value[1])));
      case _ => return SyntaxError;
    }
    assert ops[|ops|..] == [];
    if |stack.items| != 1 {
      return SyntaxError;
    }
    var ret := stack.Pop();
    r := Answer(ret.value.value);
  }

  /** Calc, on the tokens of its input. */
  method CalcTokenList<N>(ar: Arith<N>, input: seq<Token<N>>) returns (r: Outcome<N>)
    ensures r == Compute(ar, input)
  {
    var ops := CalcShunt.ShuntAll(input);
    if ops.None? {
      return SyntaxError;
    }
    r := Calc(ar, ops.value);
  }
}
