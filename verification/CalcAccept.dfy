/** Which token lists the calculator takes at all. */
module CalcAccept {
  import opened Wrappers
  import opened CalcTokens
  import opened CalcShunt
  import opened CalcEval
  import CalcConserve
  import CalcMeaning
  import CalcExact

  /** How many parentheses are open at the end; None for an unknown token, a
      closing parenthesis too many, or a comma outside parentheses. */
  function Open<N>(toks: seq<Token<N>>, depth: nat): Option<nat>
    decreases |toks|
  {
    if toks == [] then Some(depth)
    else
      match toks[0]
      case Nfi(_) => None
      case LPar => Open(toks[1..], depth + 1)
      case RPar => if depth == 0 then None else Open(toks[1..], depth - 1)
      case Comma => if depth == 0 then None else Open(toks[1..], depth)
      case _ => Open(toks[1..], depth)
  }

  function Parens<N>(stack: seq<Token<N>>): nat {
    if stack == [] then 0
    else Parens(stack[..|stack| - 1]) + if stack[|stack| - 1].LPar? then 1 else 0
  }

  predicate NoFunctions<N>(toks: seq<Token<N>>) {
    forall k :: 0 <= k < |toks| ==> !toks[k].Func?
  }

  lemma ParensPush<N>(stack: seq<Token<N>>, t: Token<N>)
    ensures Parens(stack + [t]) == Parens(stack) + if t.LPar? then 1 else 0
  {
    assert (stack + [t])[..|stack|] == stack;
  }

  lemma {:induction false} PopOperatorsParens<N>(op: Operator, stack: seq<Token<N>>, output: seq<Token<N>>)
    ensures Parens(PopOperators(op, stack, output).0) == Parens(stack)
    ensures NoFunctions(stack) ==> NoFunctions(PopOperators(op, stack, output).0)
    decreases |stack|
  {
    if stack != [] && stack[|stack| - 1].Op? && Precedence(op, stack[|stack| - 1].op) {
      PopOperatorsParens(op, stack[..|stack| - 1], output + [stack[|stack| - 1]]);
    }
  }

  lemma {:induction false} PopToParenParens<N>(stack: seq<Token<N>>, output: seq<Token<N>>)
    ensures PopToParen(stack, output).Some? <==> Parens(stack) > 0
    ensures PopToParen(stack, output).Some? ==> Parens(PopToParen(stack, output).value.0) == Parens(stack) - 1
    ensures PopToParen(stack, output).Some? && NoFunctions(stack) ==> NoFunctions(PopToParen(stack, output).value.0)
    decreases |stack|
  {
    if stack != [] && !stack[|stack| - 1].LPar? {
      PopToParenParens(stack[..|stack| - 1], output + [stack[|stack| - 1]]);
    }
  }

  /** One token changes the open parentheses as Open counts them. */
  lemma StepParens<N>(tok: Token<N>, st: State<N>)
    ensures Step(tok, st).Some? ==> Open([tok], Parens(st.stack)) == Some(Parens(Step(tok, st).value.stack))
    ensures !tok.Func? && NoFunctions(st.stack) ==>
      (Step(tok, st).Some? <==> Open([tok], Parens(st.stack)).Some?)
    ensures !tok.Func? && NoFunctions(st.stack) && Step(tok, st).Some? ==> NoFunctions(Step(tok, st).value.stack)
  {
    hide PopOperators, PopToParen, Parens, Arity;
    match tok
    case Nfi(_) =>
    case Num(_) =>
    case Op(op) =>
      PopOperatorsParens(op, st.stack, st.output);
      ParensPush(PopOperators(op, st.stack, st.output).0, tok);
    case Func(_, _) => ParensPush(st.stack, tok);
    case LPar => ParensPush(st.stack, tok);
    case RPar =>
      PopToParenParens(st.stack, st.output);
      if PopToParen(st.stack, st.output).Some? {
        CloseParens(State(PopToParen(st.stack, st.output).value.0, st.argcs, PopToParen(st.stack, st.output).value.1));
      }
    case Comma =>
      PopToParenParens(st.stack, st.output);
      if PopToParen(st.stack, st.output).Some? {
        ParensPush<N>(PopToParen(st.stack, st.output).value.0, LPar);
      }
  }

  lemma CloseParens<N>(st: State<N>)
    ensures CloseCall(st).Some? ==> Parens(CloseCall(st).value.stack) == Parens(st.stack)
    ensures NoFunctions(st.stack) ==> CloseCall(st) == Some(st)
  {
    hide Arity;
  }

  lemma OpenFirst<N>(toks: seq<Token<N>>, depth: nat)
    requires toks != []
    ensures Open(toks, depth) == match Open([toks[0]], depth) { case None => None case Some(d) => Open(toks[1..], d) }
  {
    assert [toks[0]][1..] == [];
  }

  lemma {:induction false} FeedParens<N>(toks: seq<Token<N>>, st: State<N>)
    ensures Feed(toks, st).Some? ==> Open(toks, Parens(st.stack)) == Some(Parens(Feed(toks, st).value.stack))
    ensures NoFunctions(toks) && NoFunctions(st.stack) ==> (Feed(toks, st).Some? <==> Open(toks, Parens(st.stack)).Some?)
    decreases |toks|
  {
    hide Step, Open, Parens, NoFunctions;
    if toks == [] {
      OpenNothing<N>(Parens(st.stack));
    } else {
      OpenFirst(toks, Parens(st.stack));
      StepParens(toks[0], st);
      NoneInTail(toks);
      if Step(toks[0], st).Some? {
        FeedParens(toks[1..], Step(toks[0], st).value);
      }
    }
  }

  lemma OpenNothing<N>(depth: nat)
    ensures Open<N>([], depth) == Some(depth)
  {
  }

  lemma NoneInTail<N>(toks: seq<Token<N>>)
    requires toks != []
    ensures NoFunctions(toks) ==> !toks[0].Func? && NoFunctions(toks[1..])
  {
  }

  lemma {:induction false} DrainIff<N>(stack: seq<Token<N>>, output: seq<Token<N>>)
    ensures Drain(stack, output).Some? <==> Parens(stack) == 0
    decreases |stack|
  {
    if stack != [] && !stack[|stack| - 1].LPar? {
      DrainIff(stack[..|stack| - 1], output + [stack[|stack| - 1]]);
    }
  }

  /** Whatever converts has known tokens, balanced parentheses, and commas inside
      of them alone; without function calls that is all it takes. */
  lemma ConvertsIff<N>(input: seq<Token<N>>)
    ensures Shunt(input).Some? ==> Open(input, 0) == Some(0)
    ensures NoFunctions(input) ==> (Shunt(input).Some? <==> Open(input, 0) == Some(0))
  {
    hide Feed, Drain, Open;
    var start: State<N> := State([], [], []);
    FeedParens(input, start);
    if Feed(input, start).Some? {
      DrainIff(Feed(input, start).value.stack, Feed(input, start).value.output);
    }
  }

  lemma {:induction false} NetOfSignificant<N>(toks: seq<Token<N>>)
    ensures CalcExact.Net(CalcConserve.Significant(toks)) == CalcExact.Net(toks)
    decreases |toks|
  {
    hide CalcExact.Net, CalcExact.Effect;
    if toks == [] {
    } else {
      var init, last := toks[..|toks| - 1], toks[|toks| - 1];
      NetOfSignificant(init);
      assert init + [last] == toks;
      CalcExact.NetAppend(init, [last]);
      CalcExact.NetOne(last);
      CalcExact.NetAppend(CalcConserve.Significant(init), [last]);
      EffectOfMark(last);
      assert CalcConserve.Significant(init) + [] == CalcConserve.Significant(init);
    }
  }

  lemma EffectOfMark<N>(t: Token<N>)
    ensures t.LPar? || t.RPar? || t.Comma? || t.Nfi? ==> CalcExact.Effect(t) == 0
  {
  }

  lemma TakeOut<T>(x: T, rest: seq<T>, left: seq<T>, right: seq<T>)
    requires multiset([x] + rest) == multiset(left + ([x] + right))
    ensures multiset(rest) == multiset(left + right)
  {
    assert multiset([x] + rest) == multiset{x} + multiset(rest);
    assert multiset([x] + right) == multiset{x} + multiset(right);
    assert multiset(left + ([x] + right)) == multiset(left) + multiset([x] + right);
    assert multiset(left + right) == multiset(left) + multiset(right);
    assert multiset(rest) == multiset([x] + rest) - multiset{x};
    assert multiset(left + right) == multiset(left + ([x] + right)) - multiset{x};
  }

  lemma FindIn<T>(x: T, b: seq<T>) returns (left: seq<T>, right: seq<T>)
    requires x in multiset(b)
    ensures b == left + ([x] + right)
  {
    var i :| 0 <= i < |b| && b[i] == x;
    left, right := b[..i], b[i + 1..];
  }

  /** The net effect does not depend on the order. */
  lemma {:induction false} NetOfPermutation<N>(a: seq<Token<N>>, b: seq<Token<N>>)
    requires multiset(a) == multiset(b)
    ensures CalcExact.Net(a) == CalcExact.Net(b)
    decreases |a|
  {
    hide CalcExact.Net, CalcExact.Effect;
    if a != [] {
      var x, rest := a[0], a[1..];
      assert a == [x] + rest && x in multiset(a);
      var left, right := FindIn(x, b);
      TakeOut(x, rest, left, right);
      NetOfPermutation(rest, left + right);
      CalcExact.NetAppend([x], rest);
      CalcExact.NetAppend(left, right);
      CalcExact.NetAppend(left, [x] + right);
      CalcExact.NetAppend([x], right);
    } else {
      EmptyBag(b);
    }
  }

  lemma EmptyBag<T>(b: seq<T>)
    requires multiset([]) == multiset(b)
    ensures b == []
  {
    assert |multiset(b)| == 0;
  }

  /** An answer comes only from as many numbers as its operators and functions
      use up, and one more. */
  lemma AnswerCounts<N>(ar: Arith<N>, input: seq<Token<N>>)
    requires Compute(ar, input).Answer?
    ensures CalcExact.Net(input) == 1
    ensures Open(input, 0) == Some(0)
  {
    hide Shunt, Run, Open, CalcExact.Net;
    CalcConserve.ShuntConserves(input);
    ConvertsIff(input);
    var ops := Shunt(input).value;
    CalcExact.RunNet(ar, ops, []);
    NetOfPermutation(ops, CalcConserve.Significant(input));
    NetOfSignificant(input);
  }

  /** The order is not looked at: numbers in front of their operator are taken, too. */
  lemma PostfixAccepted<N>(ar: Arith<N>, a: N, b: N, op: Operator)
    ensures Compute(ar, [Num(a), Num(b), Op(op)]) == Answer(ar.op(op, a, b))
  {
    var input, nums := [Num(a), Num(b), Op(op)], [Num(a), Num(b)];
    var st: State<N> := State([], [], []);
    var done := State([Op(op)], [], nums);
    assert input == [Num(a)] + ([Num(b)] + [Op(op)]);
    FeedAppend([Num(a)], [Num(b)] + [Op(op)], st);
    FeedAppend([Num(b)], [Op(op)], State([], [], [Num(a)]));
    FeedOne(Num(a), st);
    FeedOne(Num(b), State([], [], [Num(a)]));
    FeedOne(Op(op), State([], [], nums));
    assert [Num(a)] + [Num(b)] == nums && st.output + [Num(a)] == [Num(a)];
    assert Step(Num(a), st) == Some(State([], [], [Num(a)]));
    assert Step(Num(b), State([], [], [Num(a)])) == Some(State([], [], nums));
    assert st.stack + [Op(op)] == [Op(op)];
    assert Step(Op(op), State([], [], nums)) == Some(done);
    assert Feed(input, st) == Some(done);
    assert done.stack[..0] == [] && nums + [Op(op)] == input;
    hide Feed;
    assert Drain(done.stack, done.output) == Some(input);
    RunNumbers(ar, a, b, op);
  }

  lemma RunNumbers<N>(ar: Arith<N>, a: N, b: N, op: Operator)
    ensures Run(ar, [Num(a), Num(b), Op(op)], []) == Stack([Num(ar.op(op, a, b))])
  {
    var ops := [Num(a), Num(b), Op(op)];
    assert ops[1..] == [Num(b), Op(op)] && ops[1..][1..] == [Op(op)];
    var none: seq<Token<N>> := [];
    CalcMeaning.RunOperator(ar, op, a, b, none, none);
    assert [Op(op)] + none == [Op(op)] && none + [Num(a)] == [Num(a)] && none + [Num(ar.op(op, a, b))] == [Num(ar.op(op, a, b))];
  }
}
