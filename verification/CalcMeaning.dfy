/** Expression trees, and the theorem that compiling and running their infix form evaluates them. */
module CalcMeaning {
  import opened Wrappers
  import opened CalcTokens
  import opened CalcShunt
  import opened CalcEval

  datatype Expr<+N> =
    | Lit(value: N)
    | Bin(op: Operator, l: Expr<N>, r: Expr<N>)
    | Paren(e: Expr<N>)
    | Call(name: string, args: seq<Expr<N>>)

  /** Parentheses around a left operand: it must be taken off the stack when op arrives. */
  predicate WrapLeft<N>(op: Operator, l: Expr<N>) {
    l.Bin? && !Precedence(op, l.op)
  }

  /** Parentheses around a right operand: its operator must not take op off the stack. */
  predicate WrapRight<N>(op: Operator, r: Expr<N>) {
    r.Bin? && Precedence(r.op, op)
  }

  function Wrap<N>(needed: bool, toks: seq<Token<N>>): seq<Token<N>> {
    if needed then [LPar] + toks + [RPar] else toks
  }

  /** The infix form, with parentheses only where the tree has them or precedence demands them. */
  function Infix<N>(e: Expr<N>): seq<Token<N>>
    decreases e, 1
  {
    match e
    case Lit(v) => [Num(v)]
    case Bin(op, l, r) => Wrap(WrapLeft(op, l), Infix(l)) + ([Op(op)] + Wrap(WrapRight(op, r), Infix(r)))
    case Paren(e') => Wrap(true, Infix(e'))
    case Call(name, args) => [Func(name, 0)] + Wrap(true, InfixArgs(args))
  }

  /** Arguments separated by commas. */
  function InfixArgs<N>(args: seq<Expr<N>>): seq<Token<N>>
    decreases args, 0
  {
    if args == [] then []
    else if |args| == 1 then Infix(args[0])
    else Infix(args[0]) + ([Comma] + InfixArgs(args[1..]))
  }

  /** The postfix form. */
  function Postorder<N>(e: Expr<N>): seq<Token<N>>
    decreases e, 1
  {
    match e
    case Lit(v) => [Num(v)]
    case Bin(op, l, r) => Postorder(l) + Postorder(r) + [Op(op)]
    case Paren(e') => Postorder(e')
    case Call(name, args) => PostorderAll(args) + [Func(name, 0)]
  }

  function PostorderAll<N>(args: seq<Expr<N>>): seq<Token<N>>
    decreases args, 0
  {
    if args == [] then [] else Postorder(args[0]) + PostorderAll(args[1..])
  }

  /** Every call has as many arguments as its function takes; the counting of
      commas cannot tell no argument from one. */
  predicate CountsFit<N>(e: Expr<N>)
    decreases e, 1
  {
    match e
    case Lit(_) => true
    case Bin(_, l, r) => CountsFit(l) && CountsFit(r)
    case Paren(e') => CountsFit(e')
    case Call(name, args) => CountsFitAll(args) && Arity(name) == if args == [] then 1 else |args|
  }

  predicate CountsFitAll<N>(args: seq<Expr<N>>)
    decreases args, 0
  {
    args == [] || (CountsFit(args[0]) && CountsFitAll(args[1..]))
  }

  /** What is left on the operator stack when the last token of the infix form has been read. */
  function Pending<N>(e: Expr<N>): (p: seq<Token<N>>)
    ensures forall k :: 0 <= k < |p| ==> p[k].Op?
  {
    match e
    case Bin(op, _, r) => [Op(op)] + if WrapRight(op, r) then [] else Pending(r)
    case _ => []
  }

  /** What is in the output by then. */
  function Emitted<N>(e: Expr<N>): seq<Token<N>> {
    match e
    case Bin(op, l, r) => Postorder(l) + if WrapRight(op, r) then Postorder(r) else Emitted(r)
    case _ => Postorder(e)
  }

  function Reverse<T>(s: seq<T>): seq<T> {
    if s == [] then [] else [s[|s| - 1]] + Reverse(s[..|s| - 1])
  }

  lemma {:induction false} ReverseCons<T>(x: T, s: seq<T>)
    ensures Reverse([x] + s) == Reverse(s) + [x]
    decreases |s|
  {
    if s == [] {
      assert [x] + s == [x] && [x][..0] == [];
    } else {
      ReverseLast([x] + s[..|s| - 1], s[|s| - 1]);
      ReverseLast(s[..|s| - 1], s[|s| - 1]);
      assert s[..|s| - 1] + [s[|s| - 1]] == s;
      assert [x] + s[..|s| - 1] + [s[|s| - 1]] == [x] + s;
      ReverseCons(x, s[..|s| - 1]);
      hide Reverse;
      assert [s[|s| - 1]] + (Reverse(s[..|s| - 1]) + [x]) == [s[|s| - 1]] + Reverse(s[..|s| - 1]) + [x];
    }
  }

  lemma ReverseLast<T>(s: seq<T>, y: T)
    ensures Reverse(s + [y]) == [y] + Reverse(s)
  {
    assert (s + [y])[..|s|] == s;
  }

  /** Emitting what is pending completes the postfix form. */
  lemma {:induction false} EmittedThenPending<N>(e: Expr<N>)
    ensures Emitted(e) + Reverse(Pending(e)) == Postorder(e)
  {
    match e
    case Bin(op, l, r) =>
      var tail := if WrapRight(op, r) then [] else Pending(r);
      ReverseCons(Op(op), tail);
      if !WrapRight(op, r) {
        EmittedThenPending(r);
        assert Postorder(l) + Emitted(r) + (Reverse(tail) + [Op(op)]) == Postorder(l) + (Emitted(r) + Reverse(tail)) + [Op(op)];
      }
    case _ =>
  }

  /** The stack will keep its top until this expression's own operators are gone. */
  predicate Accepts<N>(stack: seq<Token<N>>, e: Expr<N>) {
    stack != [] ==>
      var top := stack[|stack| - 1];
      !top.Func? && (top.Op? && e.Bin? ==> !Precedence(e.op, top.op))
  }

  /** All pending operators of a left operand give way to op. */
  lemma {:induction false} PendingGivesWay<N>(op: Operator, e: Expr<N>)
    requires !WrapLeft(op, e)
    ensures forall k :: 0 <= k < |Pending(e)| ==> Precedence(op, Pending(e)[k].op)
  {
    match e
    case Bin(o, l, r) =>
      if !WrapRight(o, r) {
        PendingGivesWay(op, r);
      }
    case _ =>
  }

  lemma {:induction false} PopPending<N>(op: Operator, base: seq<Token<N>>, p: seq<Token<N>>, output: seq<Token<N>>)
    requires forall k :: 0 <= k < |p| ==> p[k].Op? && Precedence(op, p[k].op)
    requires base == [] || !base[|base| - 1].Op? || !Precedence(op, base[|base| - 1].op)
    ensures PopOperators(op, base + p, output) == (base, output + Reverse(p))
    decreases |p|
  {
    if p == [] {
      assert base + p == base && output + [] == output;
    } else {
      var init, top := p[..|p| - 1], p[|p| - 1];
      assert (base + p)[..|base + p| - 1] == base + init;
      PopPending(op, base, init, output + [top]);
      assert output + [top] + Reverse(init) == output + Reverse(p);
    }
  }

  lemma {:induction false} PopPendingToParen<N>(base: seq<Token<N>>, p: seq<Token<N>>, output: seq<Token<N>>)
    requires forall k :: 0 <= k < |p| ==> p[k].Op?
    ensures PopToParen(base + [LPar] + p, output) == Some((base, output + Reverse(p)))
    decreases |p|
  {
    var stack := base + [LPar] + p;
    if p == [] {
      assert stack == base + [LPar] && stack[..|base|] == base && output + [] == output;
    } else {
      var init, top := p[..|p| - 1], p[|p| - 1];
      assert stack[..|stack| - 1] == base + [LPar] + init;
      PopPendingToParen(base, init, output + [top]);
      assert output + [top] + Reverse(init) == output + Reverse(p);
    }
  }

  /** The state once the infix form has been read. */
  function After<N>(e: Expr<N>, st: State<N>): State<N> {
    State(st.stack + Pending(e), st.argcs, st.output + Emitted(e))
  }

  /** The state once an operand has been read, with or without parentheses. */
  function AfterOperand<N>(needed: bool, e: Expr<N>, st: State<N>): State<N> {
    if needed then st.(output := st.output + Postorder(e)) else After(e, st)
  }

  lemma FeedThree<N>(a: Token<N>, toks: seq<Token<N>>, b: Token<N>, st: State<N>)
    ensures Feed([a] + toks + [b], st) ==
      match Step(a, st)
      case None => None
      case Some(st1) =>
        match Feed(toks, st1)
        case None => None
        case Some(st2) => Step(b, st2)
  {
    assert [a] + toks + [b] == [a] + (toks + [b]);
    FeedAppend([a], toks + [b], st);
    match Step(a, st)
    case None =>
    case Some(st1) => FeedAppend(toks, [b], st1);
  }

  /** A parenthesised expression leaves the stack as it found it. */
  lemma {:induction false} FeedParen<N>(e: Expr<N>, st: State<N>)
    requires st.stack == [] || !st.stack[|st.stack| - 1].Func?
    ensures Feed(Wrap(true, Infix(e)), st) == if CountsFit(e) then Some(AfterOperand(true, e, st)) else None
    decreases e, 2
  {
    hide Step, PopToParen, Infix, Pending, Emitted, Postorder, CountsFit, Reverse, Feed;
    var inner := st.(stack := st.stack + [LPar]);
    StepParens(st);
    FeedThree(LPar, Infix(e), RPar, st);
    FeedExpr(e, inner);
    if CountsFit(e) {
      PopPendingToParen(st.stack, Pending(e), inner.output + Emitted(e));
      EmittedThenPending(e);
      assert st.output + Emitted(e) + Reverse(Pending(e)) == st.output + (Emitted(e) + Reverse(Pending(e)));
      StepRPar(After(e, inner));
    }
  }

  lemma StepParens<N>(st: State<N>)
    ensures Step(LPar, st) == Some(st.(stack := st.stack + [LPar]))
  {
  }

  lemma StepRPar<N>(st: State<N>)
    ensures Step(RPar, st) ==
      match PopToParen(st.stack, st.output)
      case None => None
      case Some((stack, output)) => CloseCall(State(stack, st.argcs, output))
  {
  }

  lemma {:induction false} FeedOperand<N>(needed: bool, e: Expr<N>, st: State<N>)
    requires if needed then st.stack == [] || !st.stack[|st.stack| - 1].Func? else Accepts(st.stack, e)
    ensures Feed(Wrap(needed, Infix(e)), st) == if CountsFit(e) then Some(AfterOperand(needed, e, st)) else None
    decreases e, 3
  {
    if needed {
      FeedParen(e, st);
    } else {
      FeedExpr(e, st);
    }
  }

  /** An operator after its left operand flushes exactly what that operand left behind. */
  lemma StepOperator<N>(op: Operator, l: Expr<N>, r: Expr<N>, st: State<N>)
    requires Accepts(st.stack, Bin(op, l, r))
    ensures Step(Op(op), AfterOperand(WrapLeft(op, l), l, st))
         == Some(State(st.stack + [Op(op)], st.argcs, st.output + Postorder(l)))
  {
    hide Postorder, Emitted, Pending, PopOperators;
    var mid := AfterOperand(WrapLeft(op, l), l, st);
    if WrapLeft(op, l) {
      PopPending(op, st.stack, [], mid.output);
      assert st.stack + [] == st.stack && mid.output + [] == mid.output;
    } else {
      PendingGivesWay(op, l);
      PopPending(op, st.stack, Pending(l), mid.output);
      EmittedThenPending(l);
      assert st.output + Emitted(l) + Reverse(Pending(l)) == st.output + (Emitted(l) + Reverse(Pending(l)));
    }
  }

  /** If op keeps the top of the stack, so does an operator that op may flush. */
  lemma LeftAccepts<N>(stack: seq<Token<N>>, op: Operator, l: Expr<N>, r: Expr<N>)
    requires Accepts(stack, Bin(op, l, r)) && !WrapLeft(op, l)
    ensures Accepts(stack, l)
  {
  }

  lemma {:induction false} FeedBin<N>(op: Operator, l: Expr<N>, r: Expr<N>, st: State<N>)
    requires Accepts(st.stack, Bin(op, l, r))
    ensures Feed(Infix(Bin(op, l, r)), st) ==
      if CountsFit(l) && CountsFit(r) then Some(After(Bin(op, l, r), st)) else None
    decreases Bin(op, l, r), 0
  {
    var wl, wr := WrapLeft(op, l), WrapRight(op, r);
    var left, right := Wrap(wl, Infix(l)), Wrap(wr, Infix(r));
    assert Infix(Bin(op, l, r)) == left + ([Op(op)] + right);
    hide Infix, Wrap, Feed, Step, Postorder, CountsFit;
    if !wl {
      LeftAccepts(st.stack, op, l, r);
    }
    FeedOperand(wl, l, st);
    FeedAppend(left, [Op(op)] + right, st);
    if CountsFit(l) {
      var mid := AfterOperand(wl, l, st);
      StepOperator(op, l, r, st);
      var next := State(st.stack + [Op(op)], st.argcs, st.output + Postorder(l));
      FeedOne<N>(Op(op), mid);
      FeedAppend([Op(op)], right, mid);
      FeedOperand(wr, r, next);
      if CountsFit(r) {
        AfterBin(op, l, r, st);
      }
    }
  }

  lemma AfterBin<N>(op: Operator, l: Expr<N>, r: Expr<N>, st: State<N>)
    ensures AfterOperand(WrapRight(op, r), r, State(st.stack + [Op(op)], st.argcs, st.output + Postorder(l)))
         == After(Bin(op, l, r), st)
  {
    var next := State(st.stack + [Op(op)], st.argcs, st.output + Postorder(l));
    if WrapRight(op, r) {
      assert st.output + Postorder(l) + Postorder(r) == st.output + (Postorder(l) + Postorder(r));
    } else {
      assert st.output + Postorder(l) + Emitted(r) == st.output + (Postorder(l) + Emitted(r));
      assert st.stack + [Op(op)] + Pending(r) == st.stack + ([Op(op)] + Pending(r));
    }
  }

  /** What the arguments leave on the stack and in the output. */
  function PendingArgs<N>(args: seq<Expr<N>>): (p: seq<Token<N>>)
    ensures forall k :: 0 <= k < |p| ==> p[k].Op?
  {
    if args == [] then [] else Pending(args[|args| - 1])
  }

  function EmittedArgs<N>(args: seq<Expr<N>>): seq<Token<N>> {
    if args == [] then []
    else if |args| == 1 then Emitted(args[0])
    else Postorder(args[0]) + EmittedArgs(args[1..])
  }

  lemma {:induction false} EmittedThenPendingArgs<N>(args: seq<Expr<N>>)
    ensures EmittedArgs(args) + Reverse(PendingArgs(args)) == PostorderAll(args)
    decreases |args|
  {
    if |args| == 1 {
      EmittedThenPending(args[0]);
      assert PostorderAll(args) == Postorder(args[0]) + [];
    } else if |args| > 1 {
      EmittedThenPendingArgs(args[1..]);
      assert Postorder(args[0]) + EmittedArgs(args[1..]) + Reverse(PendingArgs(args))
          == Postorder(args[0]) + (EmittedArgs(args[1..]) + Reverse(PendingArgs(args[1..])));
    }
  }

  /** The state once the arguments have been read; every comma was counted. */
  function AfterArgs<N>(args: seq<Expr<N>>, base: seq<Token<N>>, calls: seq<Token<N>>, name: string, count: int,
                        output: seq<Token<N>>): State<N>
  {
    State(base + [LPar] + PendingArgs(args),
          calls + [Func(name, count + if args == [] then 0 else |args| - 1)],
          output + EmittedArgs(args))
  }

  /** A comma flushes its argument and is counted for the innermost call. */
  lemma StepComma<N>(e: Expr<N>, base: seq<Token<N>>, calls: seq<Token<N>>, name: string, count: int, output: seq<Token<N>>)
    ensures Step(Comma, After(e, State(base + [LPar], calls + [Func(name, count)], output)))
         == Some(State(base + [LPar], calls + [Func(name, count + 1)], output + Postorder(e)))
  {
    hide Postorder, Emitted, Pending, PopToParen, Reverse;
    PopPendingToParen(base, Pending(e), output + Emitted(e));
    EmittedThenPending(e);
    assert output + Emitted(e) + Reverse(Pending(e)) == output + (Emitted(e) + Reverse(Pending(e)));
    var argcs := calls + [Func(name, count)];
    assert argcs[..|argcs| - 1] == calls;
  }

  lemma {:induction false} FeedArgs<N>(args: seq<Expr<N>>, base: seq<Token<N>>, calls: seq<Token<N>>, name: string, count: int,
                                       output: seq<Token<N>>)
    ensures Feed(InfixArgs(args), State(base + [LPar], calls + [Func(name, count)], output))
         == if CountsFitAll(args) then Some(AfterArgs(args, base, calls, name, count, output)) else None
    decreases args, 4
  {
    var st := State(base + [LPar], calls + [Func(name, count)], output);
    if args == [] {
      assert base + [LPar] + [] == base + [LPar] && output + [] == output;
    } else {
      FeedExpr(args[0], st);
      if |args| > 1 {
        FeedMoreArgs(args, base, calls, name, count, output);
      }
    }
  }

  lemma AfterMoreArgs<N>(args: seq<Expr<N>>, base: seq<Token<N>>, calls: seq<Token<N>>, name: string, count: int,
                         output: seq<Token<N>>)
    requires |args| > 1
    ensures AfterArgs(args[1..], base, calls, name, count + 1, output + Postorder(args[0]))
         == AfterArgs(args, base, calls, name, count, output)
  {
    hide Postorder, Pending, Emitted;
    assert output + Postorder(args[0]) + EmittedArgs(args[1..]) == output + (Postorder(args[0]) + EmittedArgs(args[1..]));
    assert args[1..][|args| - 2] == args[|args| - 1];
  }

  lemma {:induction false} FeedMoreArgs<N>(args: seq<Expr<N>>, base: seq<Token<N>>, calls: seq<Token<N>>, name: string, count: int,
                                           output: seq<Token<N>>)
    requires |args| > 1
    ensures Feed(InfixArgs(args), State(base + [LPar], calls + [Func(name, count)], output))
         == if CountsFitAll(args) then Some(AfterArgs(args, base, calls, name, count, output)) else None
    decreases args, 3
  {
    var st := State(base + [LPar], calls + [Func(name, count)], output);
    var rest := InfixArgs(args[1..]);
    assert InfixArgs(args) == Infix(args[0]) + ([Comma] + rest);
    assert CountsFitAll(args) == (CountsFit(args[0]) && CountsFitAll(args[1..]));
    hide *;
    FeedExpr(args[0], st);
    FeedAppend(Infix(args[0]), [Comma] + rest, st);
    if CountsFit(args[0]) {
      var mid := After(args[0], st);
      StepComma(args[0], base, calls, name, count, output);
      FeedOne<N>(Comma, mid);
      FeedAppend([Comma], rest, mid);
      FeedArgs(args[1..], base, calls, name, count + 1, output + Postorder(args[0]));
      AfterMoreArgs(args, base, calls, name, count, output);
    }
  }

  lemma CloseCallIs<N>(stack: seq<Token<N>>, calls: seq<Token<N>>, name: string, count: int, output: seq<Token<N>>)
    ensures CloseCall(State(stack + [Func(name, 0)], calls + [Func(name, count)], output))
         == if count + 1 == Arity(name) then Some(State(stack, calls, output + [Func(name, 0)])) else None
  {
    hide Arity;
    var st := State(stack + [Func(name, 0)], calls + [Func(name, count)], output);
    assert st.stack[..|st.stack| - 1] == stack;
    assert st.argcs[..|st.argcs| - 1] == calls;
  }

  /** The closing parenthesis of a call checks the count and emits the function. */
  lemma StepClose<N>(args: seq<Expr<N>>, stack: seq<Token<N>>, calls: seq<Token<N>>, name: string, output: seq<Token<N>>)
    ensures Step(RPar, AfterArgs(args, stack + [Func(name, 0)], calls, name, 0, output))
         == if Arity(name) == (if args == [] then 1 else |args|) then
              Some(State(stack, calls, output + (PostorderAll(args) + [Func(name, 0)])))
            else None
  {
    hide PostorderAll, EmittedArgs, PendingArgs, PopToParen, Reverse, Arity, CloseCall, Step;
    var base := stack + [Func(name, 0)];
    StepRPar(AfterArgs(args, base, calls, name, 0, output));
    PopPendingToParen(base, PendingArgs(args), output + EmittedArgs(args));
    EmittedThenPendingArgs(args);
    assert output + EmittedArgs(args) + Reverse(PendingArgs(args)) == output + (EmittedArgs(args) + Reverse(PendingArgs(args)));
    CloseCallIs(stack, calls, name, if args == [] then 0 else |args| - 1, output + PostorderAll(args));
    assert output + PostorderAll(args) + [Func(name, 0)] == output + (PostorderAll(args) + [Func(name, 0)]);
  }

  lemma {:induction false} FeedCall<N>(name: string, args: seq<Expr<N>>, st: State<N>)
    ensures Feed(Infix(Call(name, args)), st) ==
      if CountsFit(Call(name, args)) then Some(State(st.stack, st.argcs, st.output + (PostorderAll(args) + [Func(name, 0)])))
      else None
    decreases Call(name, args), 0
  {
    var e := Call(name, args);
    assert Infix(e) == [Func(name, 0)] + ([LPar] + InfixArgs(args) + [RPar]);
    assert CountsFit(e) == (CountsFitAll(args) && Arity(name) == if args == [] then 1 else |args|);
    var st1 := State(st.stack + [Func(name, 0)], st.argcs + [Func(name, 0)], st.output);
    assert Step(Func(name, 0), st) == Some(st1);
    StepParens(st1);
    hide Infix, InfixArgs, CountsFitAll, CountsFit, Feed, Step, Arity, AfterArgs, PostorderAll;
    FeedOne(Func(name, 0), st);
    FeedAppend([Func(name, 0)], [LPar] + InfixArgs(args) + [RPar], st);
    FeedThree(LPar, InfixArgs(args), RPar, st1);
    FeedArgs(args, st1.stack, st.argcs, name, 0, st.output);
    StepClose(args, st.stack, st.argcs, name, st.output);
  }

  /** Reading the infix form of a tree adds its pending operators to the stack
      and the rest of its postfix form to the output, or fails if a call in it
      has the wrong number of arguments. */
  lemma {:induction false} FeedExpr<N>(e: Expr<N>, st: State<N>)
    requires Accepts(st.stack, e)
    ensures Feed(Infix(e), st) == if CountsFit(e) then Some(After(e, st)) else None
    decreases e, 1
  {
    match e
    case Lit(v) => FeedOne(Num(v), st); assert st.stack + [] == st.stack;
    case Bin(op, l, r) => FeedBin(op, l, r, st);
    case Paren(e') => FeedParen(e', st); assert st.stack + [] == st.stack;
    case Call(name, args) => FeedCall(name, args, st); assert st.stack + [] == st.stack;
  }

  lemma {:induction false} DrainOperators<N>(p: seq<Token<N>>, output: seq<Token<N>>)
    requires forall k :: 0 <= k < |p| ==> p[k].Op?
    ensures Drain(p, output) == Some(output + Reverse(p))
    decreases |p|
  {
    if p == [] {
      assert output + [] == output;
    } else {
      DrainOperators(p[..|p| - 1], output + [p[|p| - 1]]);
      assert output + [p[|p| - 1]] + Reverse(p[..|p| - 1]) == output + Reverse(p);
    }
  }

  /** Compiling the infix form of any tree gives its postfix form, or an error
      exactly if a call has the wrong number of arguments. */
  lemma ShuntTree<N>(e: Expr<N>)
    ensures Shunt(Infix(e)) == if CountsFit(e) then Some(Postorder(e)) else None
  {
    hide Feed, Infix, Postorder, CountsFit, Drain, Pending, Emitted;
    var st: State<N> := State([], [], []);
    FeedExpr(e, st);
    if CountsFit(e) {
      assert [] + Pending(e) == Pending(e) && [] + Emitted(e) == Emitted(e);
      DrainOperators(Pending(e), Emitted(e));
      EmittedThenPending(e);
    }
  }

  /** Calls with exactly the arguments their function takes. */
  predicate Proper<N>(e: Expr<N>)
    decreases e, 1
  {
    match e
    case Lit(_) => true
    case Bin(_, l, r) => Proper(l) && Proper(r)
    case Paren(e') => Proper(e')
    case Call(name, args) => ProperAll(args) && Arity(name) == |args| && 1 <= |args| <= 2
  }

  predicate ProperAll<N>(args: seq<Expr<N>>)
    decreases args, 0
  {
    args == [] || (Proper(args[0]) && ProperAll(args[1..]))
  }

  /** The value of a tree, computed directly. */
  function Eval<N>(ar: Arith<N>, e: Expr<N>): N
    requires Proper(e)
    decreases e, 1
  {
    match e
    case Lit(v) => v
    case Bin(op, l, r) => ar.op(op, Eval(ar, l), Eval(ar, r))
    case Paren(e') => Eval(ar, e')
    case Call(name, args) =>
      var vs := EvalAll(ar, args);
      if |args| == 1 then ar.fun1(name, vs[0]) else ar.fun2(name, vs[0], vs[1])
  }

  function EvalAll<N>(ar: Arith<N>, args: seq<Expr<N>>): (vs: seq<N>)
    requires ProperAll(args)
    ensures |vs| == |args|
    decreases args, 0
  {
    if args == [] then [] else [Eval(ar, args[0])] + EvalAll(ar, args[1..])
  }

  lemma {:induction false} ProperCountsFit<N>(e: Expr<N>)
    requires Proper(e)
    ensures CountsFit(e)
    decreases e, 1
  {
    match e
    case Lit(_) =>
    case Bin(_, l, r) => ProperCountsFit(l); ProperCountsFit(r);
    case Paren(e') => ProperCountsFit(e');
    case Call(name, args) => ProperCountsFitAll(args);
  }

  lemma {:induction false} ProperCountsFitAll<N>(args: seq<Expr<N>>)
    requires ProperAll(args)
    ensures CountsFitAll(args)
    decreases args, 0
  {
    if args != [] {
      ProperCountsFit(args[0]);
      ProperCountsFitAll(args[1..]);
    }
  }

  /** Numbers as tokens. */
  function Nums<N>(vs: seq<N>): (toks: seq<Token<N>>)
    ensures |toks| == |vs|
  {
    seq(|vs|, k requires 0 <= k < |vs| => Num(vs[k]))
  }

  lemma NumsSplit<N>(items: seq<Token<N>>, vs: seq<N>)
    requires vs != []
    ensures items + Nums(vs) == (items + Nums(vs[..|vs| - 1])) + [Num(vs[|vs| - 1])]
  {
  }

  lemma {:induction false} TakeThem<N>(items: seq<Token<N>>, vs: seq<N>)
    ensures TakeNums(items + Nums(vs), |vs|) == (Some(vs), items)
    decreases |vs|
  {
    if vs == [] {
      assert items + Nums(vs) == items;
    } else {
      hide Nums, TakeNums;
      var init := vs[..|vs| - 1];
      TakeThem(items, init);
      NumsSplit(items, vs);
      assert init + [vs[|vs| - 1]] == vs;
    }
  }

  /** Running the postfix form of a tree pushes its value. */
  lemma {:induction false} RunTree<N>(ar: Arith<N>, e: Expr<N>, rest: seq<Token<N>>, items: seq<Token<N>>)
    requires Proper(e)
    ensures Run(ar, Postorder(e) + rest, items) == Run(ar, rest, items + [Num(Eval(ar, e))])
    decreases e, 1
  {
    match e
    case Lit(v) =>
      assert ([Num(v)] + rest)[1..] == rest;
    case Bin(op, l, r) =>
      var tail := [Op(op)] + rest;
      assert Postorder(e) + rest == Postorder(l) + (Postorder(r) + tail);
      RunTree(ar, l, Postorder(r) + tail, items);
      RunTree(ar, r, tail, items + [Num(Eval(ar, l))]);
      RunOperator(ar, op, Eval(ar, l), Eval(ar, r), rest, items);
    case Paren(e') => RunTree(ar, e', rest, items);
    case Call(name, args) =>
      var tail := [Func(name, 0)] + rest;
      assert Postorder(e) + rest == PostorderAll(args) + tail;
      RunTrees(ar, args, tail, items);
      RunFunction(ar, name, EvalAll(ar, args), rest, items);
  }

  lemma RunOperator<N>(ar: Arith<N>, op: Operator, a: N, b: N, rest: seq<Token<N>>, items: seq<Token<N>>)
    ensures Run(ar, [Op(op)] + rest, items + [Num(a)] + [Num(b)]) == Run(ar, rest, items + [Num(ar.op(op, a, b))])
  {
    hide TakeNums;
    TakeThem(items, [a, b]);
    assert items + [Num(a)] + [Num(b)] == items + Nums([a, b]);
    assert ([Op(op)] + rest)[1..] == rest;
  }

  lemma RunFunction<N>(ar: Arith<N>, name: string, vs: seq<N>, rest: seq<Token<N>>, items: seq<Token<N>>)
    requires Arity(name) == |vs| && 1 <= |vs| <= 2
    ensures Run(ar, [Func(name, 0)] + rest, items + Nums(vs))
         == Run(ar, rest, items + [Num(if |vs| == 1 then ar.fun1(name, vs[0]) else ar.fun2(name, vs[0], vs[1]))])
  {
    hide TakeNums, Nums;
    TakeThem(items, vs);
    assert ([Func(name, 0)] + rest)[1..] == rest;
  }

  lemma {:induction false} RunTrees<N>(ar: Arith<N>, args: seq<Expr<N>>, rest: seq<Token<N>>, items: seq<Token<N>>)
    requires ProperAll(args)
    ensures Run(ar, PostorderAll(args) + rest, items) == Run(ar, rest, items + Nums(EvalAll(ar, args)))
    decreases args, 0
  {
    if args == [] {
      assert PostorderAll(args) + rest == rest && items + Nums<N>([]) == items;
    } else {
      assert PostorderAll(args) + rest == Postorder(args[0]) + (PostorderAll(args[1..]) + rest);
      RunTree(ar, args[0], PostorderAll(args[1..]) + rest, items);
      RunTrees(ar, args[1..], rest, items + [Num(Eval(ar, args[0]))]);
      assert items + [Num(Eval(ar, args[0]))] + Nums(EvalAll(ar, args[1..])) == items + Nums(EvalAll(ar, args));
    }
  }

  /** Compiling and running the infix form of a tree computes its value. */
  lemma Meaning<N>(ar: Arith<N>, e: Expr<N>)
    requires Proper(e)
    ensures Compute(ar, Infix(e)) == Answer(Eval(ar, e))
  {
    hide Infix, Postorder, CountsFit, Eval, Shunt;
    ProperCountsFit(e);
    ShuntTree(e);
    assert Postorder(e) + [] == Postorder(e);
    RunTree(ar, e, [], []);
  }

  /** a op1 b op2 c without parentheses groups to the left exactly when op2 flushes op1. */
  lemma GroupingByPrecedence<N>(ar: Arith<N>, a: N, op1: Operator, b: N, op2: Operator, c: N)
    ensures Compute(ar, [Num(a), Op(op1), Num(b), Op(op2), Num(c)])
         == Answer(if Precedence(op2, op1) then ar.op(op2, ar.op(op1, a, b), c) else ar.op(op1, a, ar.op(op2, b, c)))
  {
    var inner := if Precedence(op2, op1) then Bin(op1, Lit(a), Lit(b)) else Bin(op2, Lit(b), Lit(c));
    var e := if Precedence(op2, op1) then Bin(op2, inner, Lit(c)) else Bin(op1, Lit(a), inner);
    assert Infix(inner) == [Num(inner.l.value), Op(inner.op), Num(inner.r.value)];
    assert Infix(e.l) == if Precedence(op2, op1) then Infix(inner) else [Num(a)];
    assert Infix(e.r) == if Precedence(op2, op1) then [Num(c)] else Infix(inner);
    assert Proper(Lit(a)) && Proper(Lit(b)) && Proper(Lit(c));
    assert Proper(inner.l) && Proper(inner.r) && Proper(inner);
    assert Proper(e.l) && Proper(e.r) && Proper(e);
    assert Infix(e) == Infix(e.l) + ([Op(e.op)] + Infix(e.r));
    assert Infix(e) == [Num(a), Op(op1), Num(b), Op(op2), Num(c)] by {
      assert [Num(a), Op(op1), Num(b)] + ([Op(op2)] + [Num(c)]) == [Num(a), Op(op1), Num(b), Op(op2), Num(c)];
      assert [Num(a)] + ([Op(op1)] + [Num(b), Op(op2), Num(c)]) == [Num(a), Op(op1), Num(b), Op(op2), Num(c)];
    }
    assert Eval(ar, inner) == ar.op(inner.op, inner.l.value, inner.r.value);
    assert Eval(ar, e.l) == if Precedence(op2, op1) then Eval(ar, inner) else a;
    assert Eval(ar, e.r) == if Precedence(op2, op1) then c else Eval(ar, inner);
    Meaning(ar, e);
  }
  predicate Power(op: Operator) {
    op.Caret? || op.StarStar?
  }

  predicate Scaling(op: Operator) {
    op.Star? || op.Slash? || op.Percent?
  }

  /** Powers come before products and products before sums, and equals group
      to the left, except that powers group to the right. */
  predicate GroupsLeft(op1: Operator, op2: Operator) {
    if Power(op2) then false else if Scaling(op2) then Power(op1) || Scaling(op1) else true
  }

  lemma PrecedenceByName(op1: Operator, op2: Operator)
    ensures Precedence(op2, op1) <==> GroupsLeft(op1, op2)
  {
  }

  /** What a op1 b op2 c means without parentheses, for every two operators. */
  lemma Grouping<N>(ar: Arith<N>, a: N, op1: Operator, b: N, op2: Operator, c: N)
    ensures Compute(ar, [Num(a), Op(op1), Num(b), Op(op2), Num(c)])
         == Answer(if GroupsLeft(op1, op2) then ar.op(op2, ar.op(op1, a, b), c) else ar.op(op1, a, ar.op(op2, b, c)))
  {
    hide *;
    PrecedenceByName(op1, op2);
    GroupingByPrecedence(ar, a, op1, b, op2, c);
  }
}
