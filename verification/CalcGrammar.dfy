/** The grammar of arithmetic, with a level of its own for sums, products and
    powers, and the theorem that the calculator computes what it means. */
module CalcGrammar {
  import opened CalcTokens
  import CalcEval
  import CalcMeaning
  import CalcExact

  datatype Sum<+N> =
    | Just(product: Product<N>)
    | Add(sum: Sum<N>, product: Product<N>)
    | Subtract(sum: Sum<N>, product: Product<N>)

  datatype Product<+N> =
    | Single(power: Raised<N>)
    | Multiply(product: Product<N>, power: Raised<N>)
    | Divide(product: Product<N>, power: Raised<N>)
    | Remainder(product: Product<N>, power: Raised<N>)

  datatype Raised<+N> =
    | Plain(atom: Atom<N>)
    | Caret(atom: Atom<N>, exponent: Raised<N>)
    | Stars(atom: Atom<N>, exponent: Raised<N>)

  datatype Atom<+N> =
    | Number(value: N)
    | Group(inside: Sum<N>)
    | Apply(name: string, args: seq<Sum<N>>)

  predicate OneArgument(name: string) {
    name in {"abs", "acos", "acosh", "asin", "asinh", "atan", "atanh", "cbrt", "ceil", "cos", "cosh", "exp", "exp2",
             "floor", "gamma", "int", "log", "log10", "log2", "logb", "sin", "sinh", "sqrt", "tan", "tanh"}
  }

  predicate TwoArguments(name: string) {
    name in {"atan2", "hypot", "max", "min"}
  }

  /** The tokens of a sum. */
  function SumText<N>(s: Sum<N>): seq<Token<N>>
    decreases s, 3
  {
    match s
    case Just(p) => ProductText(p)
    case Add(l, p) => SumText(l) + [Op(Operator.Plus)] + ProductText(p)
    case Subtract(l, p) => SumText(l) + [Op(Operator.Minus)] + ProductText(p)
  }

  function ProductText<N>(p: Product<N>): seq<Token<N>>
    decreases p, 2
  {
    match p
    case Single(f) => RaisedText(f)
    case Multiply(l, f) => ProductText(l) + [Op(Operator.Star)] + RaisedText(f)
    case Divide(l, f) => ProductText(l) + [Op(Operator.Slash)] + RaisedText(f)
    case Remainder(l, f) => ProductText(l) + [Op(Operator.Percent)] + RaisedText(f)
  }

  function RaisedText<N>(f: Raised<N>): seq<Token<N>>
    decreases f, 1
  {
    match f
    case Plain(a) => AtomText(a)
    case Caret(a, x) => AtomText(a) + [Op(Operator.Caret)] + RaisedText(x)
    case Stars(a, x) => AtomText(a) + [Op(Operator.StarStar)] + RaisedText(x)
  }

  function AtomText<N>(a: Atom<N>): seq<Token<N>>
    decreases a, 0
  {
    match a
    case Number(v) => [Num(v)]
    case Group(s) => [LPar] + SumText(s) + [RPar]
    case Apply(name, args) => [Func(name, 0), LPar] + ArgsText(args) + [RPar]
  }

  function ArgsText<N>(args: seq<Sum<N>>): seq<Token<N>>
    decreases args, 4
  {
    if args == [] then [] else if |args| == 1 then SumText(args[0]) else SumText(args[0]) + [Comma] + ArgsText(args[1..])
  }

  /** Every call has the arguments its function takes. */
  predicate SumCalls<N>(s: Sum<N>)
    decreases s, 3
  {
    match s
    case Just(p) => ProductCalls(p)
    case Add(l, p) => SumCalls(l) && ProductCalls(p)
    case Subtract(l, p) => SumCalls(l) && ProductCalls(p)
  }

  predicate ProductCalls<N>(p: Product<N>)
    decreases p, 2
  {
    match p
    case Single(f) => RaisedCalls(f)
    case Multiply(l, f) => ProductCalls(l) && RaisedCalls(f)
    case Divide(l, f) => ProductCalls(l) && RaisedCalls(f)
    case Remainder(l, f) => ProductCalls(l) && RaisedCalls(f)
  }

  predicate RaisedCalls<N>(f: Raised<N>)
    decreases f, 1
  {
    match f
    case Plain(a) => AtomCalls(a)
    case Caret(a, x) => AtomCalls(a) && RaisedCalls(x)
    case Stars(a, x) => AtomCalls(a) && RaisedCalls(x)
  }

  predicate AtomCalls<N>(a: Atom<N>)
    decreases a, 0
  {
    match a
    case Number(_) => true
    case Group(s) => SumCalls(s)
    case Apply(name, args) =>
      && (forall k :: 0 <= k < |args| ==> SumCalls(args[k]))
      && ((OneArgument(name) && |args| == 1) || (TwoArguments(name) && |args| == 2))
  }

  /** The number a sum means. */
  function SumValue<N>(ar: CalcEval.Arith<N>, s: Sum<N>): N
    requires SumCalls(s)
    decreases s, 3
  {
    match s
    case Just(p) => ProductValue(ar, p)
    case Add(l, p) => ar.op(Operator.Plus, SumValue(ar, l), ProductValue(ar, p))
    case Subtract(l, p) => ar.op(Operator.Minus, SumValue(ar, l), ProductValue(ar, p))
  }

  function ProductValue<N>(ar: CalcEval.Arith<N>, p: Product<N>): N
    requires ProductCalls(p)
    decreases p, 2
  {
    match p
    case Single(f) => RaisedValue(ar, f)
    case Multiply(l, f) => ar.op(Operator.Star, ProductValue(ar, l), RaisedValue(ar, f))
    case Divide(l, f) => ar.op(Operator.Slash, ProductValue(ar, l), RaisedValue(ar, f))
    case Remainder(l, f) => ar.op(Operator.Percent, ProductValue(ar, l), RaisedValue(ar, f))
  }

  function RaisedValue<N>(ar: CalcEval.Arith<N>, f: Raised<N>): N
    requires RaisedCalls(f)
    decreases f, 1
  {
    match f
    case Plain(a) => AtomValue(ar, a)
    case Caret(a, x) => ar.op(Operator.Caret, AtomValue(ar, a), RaisedValue(ar, x))
    case Stars(a, x) => ar.op(Operator.StarStar, AtomValue(ar, a), RaisedValue(ar, x))
  }

  function AtomValue<N>(ar: CalcEval.Arith<N>, a: Atom<N>): N
    requires AtomCalls(a)
    decreases a, 0
  {
    match a
    case Number(v) => v
    case Group(s) => SumValue(ar, s)
    case Apply(name, args) =>
      if |args| == 1 then ar.fun1(name, SumValue(ar, args[0]))
      else ar.fun2(name, SumValue(ar, args[0]), SumValue(ar, args[1]))
  }

  /** The operator trees of grammatical expressions. */
  function SumTree<N>(s: Sum<N>): (e: CalcMeaning.Expr<N>)
    decreases s, 3
  {
    match s
    case Just(p) => ProductTree(p)
    case Add(l, p) => CalcMeaning.Bin(Operator.Plus, SumTree(l), ProductTree(p))
    case Subtract(l, p) => CalcMeaning.Bin(Operator.Minus, SumTree(l), ProductTree(p))
  }

  function ProductTree<N>(p: Product<N>): (e: CalcMeaning.Expr<N>)
    ensures e.Bin? ==> !e.op.Plus? && !e.op.Minus?
    decreases p, 2
  {
    match p
    case Single(f) => RaisedTree(f)
    case Multiply(l, f) => CalcMeaning.Bin(Operator.Star, ProductTree(l), RaisedTree(f))
    case Divide(l, f) => CalcMeaning.Bin(Operator.Slash, ProductTree(l), RaisedTree(f))
    case Remainder(l, f) => CalcMeaning.Bin(Operator.Percent, ProductTree(l), RaisedTree(f))
  }

  function RaisedTree<N>(f: Raised<N>): (e: CalcMeaning.Expr<N>)
    ensures e.Bin? ==> e.op.Caret? || e.op.StarStar?
    decreases f, 1
  {
    match f
    case Plain(a) => AtomTree(a)
    case Caret(a, x) => CalcMeaning.Bin(Operator.Caret, AtomTree(a), RaisedTree(x))
    case Stars(a, x) => CalcMeaning.Bin(Operator.StarStar, AtomTree(a), RaisedTree(x))
  }

  function AtomTree<N>(a: Atom<N>): (e: CalcMeaning.Expr<N>)
    ensures !e.Bin?
    decreases a, 0
  {
    match a
    case Number(v) => CalcMeaning.Lit(v)
    case Group(s) => CalcMeaning.Paren(SumTree(s))
    case Apply(name, args) => CalcMeaning.Call(name, Trees(args))
  }

  function Trees<N>(args: seq<Sum<N>>): (es: seq<CalcMeaning.Expr<N>>)
    ensures |es| == |args|
    decreases args, 4
  {
    if args == [] then [] else [SumTree(args[0])] + Trees(args[1..])
  }

  /** A tree whose operands need no parentheses is written operand, operator, operand. */
  lemma InfixBin<N>(op: Operator, l: CalcMeaning.Expr<N>, r: CalcMeaning.Expr<N>)
    requires !CalcMeaning.WrapLeft(op, l) && !CalcMeaning.WrapRight(op, r)
    ensures CalcMeaning.Infix(CalcMeaning.Bin(op, l, r)) == CalcMeaning.Infix(l) + [Op(op)] + CalcMeaning.Infix(r)
  {
    var e := CalcMeaning.Bin(op, l, r);
    assert CalcMeaning.Infix(e) == CalcMeaning.Infix(l) + ([Op(op)] + CalcMeaning.Infix(r));
  }

  /** The tree of a grammatical expression is written without any further parentheses. */
  lemma {:induction false} SumInfix<N>(s: Sum<N>)
    ensures CalcMeaning.Infix(SumTree(s)) == SumText(s)
    decreases s, 3
  {
    hide CalcMeaning.Infix;
    match s
    case Just(p) => ProductInfix(p);
    case Add(l, p) =>
      SumInfix(l);
      ProductInfix(p);
      InfixBin(Operator.Plus, SumTree(l), ProductTree(p));
    case Subtract(l, p) =>
      SumInfix(l);
      ProductInfix(p);
      InfixBin(Operator.Minus, SumTree(l), ProductTree(p));
  }

  lemma {:induction false} ProductInfix<N>(p: Product<N>)
    ensures CalcMeaning.Infix(ProductTree(p)) == ProductText(p)
    decreases p, 2
  {
    hide CalcMeaning.Infix;
    match p
    case Single(f) => RaisedInfix(f);
    case Multiply(l, f) =>
      ProductInfix(l);
      RaisedInfix(f);
      InfixBin(Operator.Star, ProductTree(l), RaisedTree(f));
    case Divide(l, f) =>
      ProductInfix(l);
      RaisedInfix(f);
      InfixBin(Operator.Slash, ProductTree(l), RaisedTree(f));
    case Remainder(l, f) =>
      ProductInfix(l);
      RaisedInfix(f);
      InfixBin(Operator.Percent, ProductTree(l), RaisedTree(f));
  }

  lemma {:induction false} RaisedInfix<N>(f: Raised<N>)
    ensures CalcMeaning.Infix(RaisedTree(f)) == RaisedText(f)
    decreases f, 1
  {
    hide CalcMeaning.Infix;
    match f
    case Plain(a) => AtomInfix(a);
    case Caret(a, x) =>
      AtomInfix(a);
      RaisedInfix(x);
      InfixBin(Operator.Caret, AtomTree(a), RaisedTree(x));
    case Stars(a, x) =>
      AtomInfix(a);
      RaisedInfix(x);
      InfixBin(Operator.StarStar, AtomTree(a), RaisedTree(x));
  }

  lemma {:induction false} AtomInfix<N>(a: Atom<N>)
    ensures CalcMeaning.Infix(AtomTree(a)) == AtomText(a)
    decreases a, 0
  {
    match a
    case Number(v) =>
    case Group(s) => SumInfix(s);
    case Apply(name, args) =>
      ArgsInfix(args);
      assert [Func(name, 0)] + ([LPar] + ArgsText(args) + [RPar]) == [Func(name, 0), LPar] + ArgsText(args) + [RPar];
  }

  lemma {:induction false} ArgsInfix<N>(args: seq<Sum<N>>)
    ensures CalcMeaning.InfixArgs(Trees(args)) == ArgsText(args)
    decreases args, 4
  {
    hide CalcMeaning.Infix, SumText, SumTree;
    if args != [] {
      SumInfix(args[0]);
      if |args| > 1 {
        ArgsInfix(args[1..]);
        assert Trees(args)[1..] == Trees(args[1..]);
        assert SumText(args[0]) + ([Comma] + ArgsText(args[1..])) == ArgsText(args);
      }
    }
  }

  lemma ArityIff(name: string)
    ensures OneArgument(name) <==> Arity(name) == 1
    ensures TwoArguments(name) <==> Arity(name) == 2
  {
  }

  /** The tree of a grammatical expression has its calls and its value. */
  lemma {:induction false} SumMeans<N>(ar: CalcEval.Arith<N>, s: Sum<N>)
    ensures CalcMeaning.Proper(SumTree(s)) <==> SumCalls(s)
    ensures SumCalls(s) ==> CalcMeaning.Eval(ar, SumTree(s)) == SumValue(ar, s)
    decreases s, 3
  {
    match s
    case Just(p) => ProductMeans(ar, p);
    case Add(l, p) => SumMeans(ar, l); ProductMeans(ar, p);
    case Subtract(l, p) => SumMeans(ar, l); ProductMeans(ar, p);
  }

  lemma {:induction false} ProductMeans<N>(ar: CalcEval.Arith<N>, p: Product<N>)
    ensures CalcMeaning.Proper(ProductTree(p)) <==> ProductCalls(p)
    ensures ProductCalls(p) ==> CalcMeaning.Eval(ar, ProductTree(p)) == ProductValue(ar, p)
    decreases p, 2
  {
    match p
    case Single(f) => RaisedMeans(ar, f);
    case Multiply(l, f) => ProductMeans(ar, l); RaisedMeans(ar, f);
    case Divide(l, f) => ProductMeans(ar, l); RaisedMeans(ar, f);
    case Remainder(l, f) => ProductMeans(ar, l); RaisedMeans(ar, f);
  }

  lemma {:induction false} RaisedMeans<N>(ar: CalcEval.Arith<N>, f: Raised<N>)
    ensures CalcMeaning.Proper(RaisedTree(f)) <==> RaisedCalls(f)
    ensures RaisedCalls(f) ==> CalcMeaning.Eval(ar, RaisedTree(f)) == RaisedValue(ar, f)
    decreases f, 1
  {
    match f
    case Plain(a) => AtomMeans(ar, a);
    case Caret(a, x) => AtomMeans(ar, a); RaisedMeans(ar, x);
    case Stars(a, x) => AtomMeans(ar, a); RaisedMeans(ar, x);
  }

  lemma {:induction false} AtomMeans<N>(ar: CalcEval.Arith<N>, a: Atom<N>)
    ensures CalcMeaning.Proper(AtomTree(a)) <==> AtomCalls(a)
    ensures AtomCalls(a) ==> CalcMeaning.Eval(ar, AtomTree(a)) == AtomValue(ar, a)
    decreases a, 0
  {
    match a
    case Number(v) =>
    case Group(s) => SumMeans(ar, s);
    case Apply(name, args) =>
      hide Arity, OneArgument, TwoArguments, SumTree, SumCalls, SumValue;
      ArityIff(name);
      ArgsMean(ar, args);
  }

  lemma {:induction false} ArgsMean<N>(ar: CalcEval.Arith<N>, args: seq<Sum<N>>)
    ensures CalcMeaning.ProperAll(Trees(args)) <==> forall k :: 0 <= k < |args| ==> SumCalls(args[k])
    ensures CalcMeaning.ProperAll(Trees(args)) ==>
      forall k :: 0 <= k < |args| ==> SumCalls(args[k]) && CalcMeaning.EvalAll(ar, Trees(args))[k] == SumValue(ar, args[k])
    decreases args, 4
  {
    hide SumTree, SumCalls, SumValue;
    if args != [] {
      SumMeans(ar, args[0]);
      ArgsMean(ar, args[1..]);
      assert Trees(args)[1..] == Trees(args[1..]);
      assert forall k :: 0 < k < |args| ==> args[k] == args[1..][k - 1];
      assert forall k :: 0 <= k < |args| - 1 ==> args[1..][k] == args[k + 1];
    }
  }

  /** The calculator computes the number a grammatical expression means, if
      every call has its arguments, and reports a syntax error otherwise. */
  lemma ComputeIsGrammar<N>(ar: CalcEval.Arith<N>, s: Sum<N>)
    ensures CalcEval.Compute(ar, SumText(s)) ==
      if SumCalls(s) then CalcEval.Answer(SumValue(ar, s)) else CalcEval.SyntaxError
  {
    hide *;
    SumInfix(s);
    SumMeans(ar, s);
    CalcExact.MeaningIff(ar, SumTree(s));
  }

  /** Calc, on the tokens of a grammatical expression. */
  method CalcSum<N>(ar: CalcEval.Arith<N>, s: Sum<N>) returns (r: CalcEval.Outcome<N>)
    ensures SumCalls(s) ==> r == CalcEval.Answer(SumValue(ar, s))
    ensures !SumCalls(s) ==> r == CalcEval.SyntaxError
  {
    hide CalcEval.Compute;
    r := CalcEval.CalcTokenList(ar, SumText(s));
    ComputeIsGrammar(ar, s);
  }
}
