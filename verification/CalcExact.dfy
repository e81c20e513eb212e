/** When calculating an expression works: exactly when every call in it is proper. */
module CalcExact {
  import opened Wrappers
  import opened CalcTokens
  import opened CalcShunt
  import opened CalcEval
  import opened CalcMeaning

  /** By how much a token changes the number of numbers on the stack. */
  function Effect<N>(tok: Token<N>): int {
    match tok
    case Num(_) => 1
    case Op(_) => -1
    case Func(name, _) => 1 - Arity(name)
    case _ => 0
  }

  function Net<N>(ops: seq<Token<N>>): int {
    if ops == [] then 0 else Effect(ops[0]) + Net(ops[1..])
  }

  predicate Known<N>(ops: seq<Token<N>>) {
    forall k :: 0 <= k < |ops| && ops[k].Func? ==> Arity(ops[k].name) > 0
  }

  lemma {:induction false} NetAppend<N>(a: seq<Token<N>>, b: seq<Token<N>>)
    ensures Net(a + b) == Net(a) + Net(b)
    decreases |a|
  {
    hide Effect;
    if a == [] {
      assert a + b == b;
    } else {
      assert (a + b)[1..] == a[1..] + b;
      NetAppend(a[1..], b);
    }
  }

  lemma NetOne<N>(t: Token<N>)
    ensures Net([t]) == Effect(t)
  {
    hide Effect;
    assert Net([t][1..]) == 0;
  }

  /** If a postfix list runs to its end, the stack has grown by its net effect;
      a list of known functions never crashes. */
  lemma {:induction false} RunNet<N>(ar: Arith<N>, ops: seq<Token<N>>, items: seq<Token<N>>)
    ensures Run(ar, ops, items).Stack? ==> |Run(ar, ops, items).items| == |items| + Net(ops)
    ensures Known(ops) ==> !Run(ar, ops, items).Missing?
    decreases |ops|
  {
    hide Arity, TakeNums;
    if ops != [] {
      match ops[0]
      case Num(_) => RunNet(ar, ops[1..], items + [ops[0]]);
      case Op(op) =>
        var next := ApplyOp(ar, op, items);
        if next.Stack? {
          RunNet(ar, ops[1..], next.items);
        }
      case Func(name, _) =>
        var next := ApplyFunc(ar, name, items);
        if next.Stack? {
          RunNet(ar, ops[1..], next.items);
        }
      case _ =>
    }
  }

  lemma KnownAppend<N>(a: seq<Token<N>>, b: seq<Token<N>>)
    requires Known(a) && Known(b)
    ensures Known(a + b)
  {
    hide Arity;
  }

  /** A compiled tree leaves one number if its calls are proper, and fewer otherwise. */
  lemma {:induction false} TreeNet<N>(e: Expr<N>)
    requires CountsFit(e)
    ensures Known(Postorder(e)) && Net(Postorder(e)) <= 1
    ensures Proper(e) <==> Net(Postorder(e)) == 1
    decreases e, 1
  {
    hide Known, Net, Arity;
    match e
    case Lit(v) => NetOne<N>(Num(v)); KnownOne<N>(Num(v));
    case Bin(op, l, r) =>
      TreeNet(l);
      TreeNet(r);
      NetAppend(Postorder(l), Postorder(r));
      NetAppend(Postorder(l) + Postorder(r), [Op(op)]);
      NetOne<N>(Op(op));
      KnownOne<N>(Op(op));
      KnownAppend(Postorder(l), Postorder(r));
      KnownAppend(Postorder(l) + Postorder(r), [Op(op)]);
    case Paren(e') => TreeNet(e');
    case Call(name, args) =>
      TreesNet(args);
      NetAppend(PostorderAll(args), [Func(name, 0)]);
      NetOne<N>(Func(name, 0));
      KnownOne<N>(Func(name, 0));
      KnownAppend(PostorderAll(args), [Func(name, 0)]);
      AtMostTwo(name);
  }

  lemma AtMostTwo(name: string)
    ensures Arity(name) <= 2
  {
  }

  lemma KnownOne<N>(t: Token<N>)
    requires t.Func? ==> Arity(t.name) > 0
    ensures Known([t])
  {
    hide Arity;
  }

  lemma {:induction false} TreesNet<N>(args: seq<Expr<N>>)
    requires CountsFitAll(args)
    ensures Known(PostorderAll(args)) && Net(PostorderAll(args)) <= |args|
    ensures ProperAll(args) <==> Net(PostorderAll(args)) == |args|
    decreases args, 0
  {
    if args != [] {
      hide Known, Net, Arity;
      TreeNet(args[0]);
      TreesNet(args[1..]);
      NetAppend(Postorder(args[0]), PostorderAll(args[1..]));
      KnownAppend(Postorder(args[0]), PostorderAll(args[1..]));
    }
  }

  /** For every tree: compiling and running its infix form computes its value if
      every call has the arguments its function takes, and is a syntax error
      otherwise. A call without arguments gets through the conversion, whose
      count takes it for one argument, but then there is a number too few. */
  lemma MeaningIff<N>(ar: Arith<N>, e: Expr<N>)
    ensures Compute(ar, Infix(e)) == if Proper(e) then Answer(Eval(ar, e)) else SyntaxError
  {
    hide Infix, Postorder, CountsFit, Eval, Shunt, Proper, Run, Net, Known;
    ShuntTree(e);
    if Proper(e) {
      Meaning(ar, e);
    } else if CountsFit(e) {
      TreeNet(e);
      RunNet(ar, Postorder(e), []);
    }
  }
}
