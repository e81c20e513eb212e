/** What the conversion keeps on every token list, well formed or not. */
module CalcConserve {
  import opened Wrappers
  import opened CalcTokens
  import opened CalcShunt

  /** The tokens that reach the output: numbers, operators and functions. */
  function Significant<N>(toks: seq<Token<N>>): seq<Token<N>> {
    if toks == [] then []
    else
      var last := toks[|toks| - 1];
      Significant(toks[..|toks| - 1]) + if last.Num? || last.Op? || last.Func? then [last] else []
  }

  /** The numbers, in order. */
  function Numbers<N>(toks: seq<Token<N>>): seq<N> {
    if toks == [] then []
    else
      var last := toks[|toks| - 1];
      Numbers(toks[..|toks| - 1]) + if last.Num? then [last.value] else []
  }

  lemma SignificantAppend<N>(toks: seq<Token<N>>, t: Token<N>)
    ensures Significant(toks + [t]) == Significant(toks) + if t.Num? || t.Op? || t.Func? then [t] else []
    ensures Numbers(toks + [t]) == Numbers(toks) + if t.Num? then [t.value] else []
  {
    assert (toks + [t])[..|toks|] == toks;
  }

  /** The stack holds operators, functions and left parentheses only. */
  predicate StackShape<N>(stack: seq<Token<N>>) {
    forall k :: 0 <= k < |stack| ==> stack[k].Op? || stack[k].Func? || stack[k].LPar?
  }

  /** The output holds numbers, operators and functions only. */
  predicate OutputShape<N>(output: seq<Token<N>>) {
    forall k :: 0 <= k < |output| ==> output[k].Num? || output[k].Op? || output[k].Func?
  }

  /** Stack and output together hold the significant tokens read so far, and
      the output holds their numbers in the order they were read. */
  ghost predicate Conserved<N>(done: seq<Token<N>>, stack: seq<Token<N>>, output: seq<Token<N>>) {
    && StackShape(stack) && OutputShape(output)
    && multiset(Significant(done)) == multiset(Significant(stack)) + multiset(output)
    && Numbers(output) == Numbers(done)
  }

  /** Moving a token from the stack to the output. */
  lemma Move<N>(done: seq<Token<N>>, stack: seq<Token<N>>, output: seq<Token<N>>)
    requires Conserved(done, stack, output) && stack != [] && !stack[|stack| - 1].LPar?
    ensures Conserved(done, stack[..|stack| - 1], output + [stack[|stack| - 1]])
  {
    hide Significant, Numbers, StackShape, OutputShape;
    var rest, t := stack[..|stack| - 1], stack[|stack| - 1];
    assert stack == rest + [t];
    ShapesAfterMove(rest, t, output);
    SignificantAppend(rest, t);
    SignificantAppend(output, t);
  }

  lemma ShapesAfterMove<N>(rest: seq<Token<N>>, t: Token<N>, output: seq<Token<N>>)
    requires StackShape(rest + [t]) && OutputShape(output) && !t.LPar?
    ensures t.Op? || t.Func?
    ensures StackShape(rest) && OutputShape(output + [t])
  {
    var stack := rest + [t];
    assert stack[|rest|] == t;
    OutputMore(output, t);
    forall k | 0 <= k < |rest| ensures rest[k].Op? || rest[k].Func? || rest[k].LPar? {
      assert stack[k] == rest[k];
    }
  }

  lemma DropParen<N>(done: seq<Token<N>>, stack: seq<Token<N>>, output: seq<Token<N>>)
    requires Conserved(done, stack, output) && stack != [] && stack[|stack| - 1].LPar?
    ensures Conserved(done, stack[..|stack| - 1], output)
  {
    assert Significant(stack) == Significant(stack[..|stack| - 1]) + [];
  }

  lemma {:induction false} PopOperatorsConserves<N>(op: Operator, done: seq<Token<N>>, stack: seq<Token<N>>, output: seq<Token<N>>)
    requires Conserved(done, stack, output)
    ensures var (s, o) := PopOperators(op, stack, output); Conserved(done, s, o)
    decreases |stack|
  {
    if stack != [] && stack[|stack| - 1].Op? && Precedence(op, stack[|stack| - 1].op) {
      Move(done, stack, output);
      PopOperatorsConserves(op, done, stack[..|stack| - 1], output + [stack[|stack| - 1]]);
    }
  }

  lemma {:induction false} PopToParenConserves<N>(done: seq<Token<N>>, stack: seq<Token<N>>, output: seq<Token<N>>)
    requires Conserved(done, stack, output)
    ensures match PopToParen(stack, output) case None => true case Some((s, o)) => Conserved(done, s, o)
    decreases |stack|
  {
    if stack != [] {
      if stack[|stack| - 1].LPar? {
        DropParen(done, stack, output);
      } else {
        Move(done, stack, output);
        PopToParenConserves(done, stack[..|stack| - 1], output + [stack[|stack| - 1]]);
      }
    }
  }

  /** Reading a token that goes on the stack. */
  lemma ReadToStack<N>(done: seq<Token<N>>, tok: Token<N>, stack: seq<Token<N>>, output: seq<Token<N>>)
    requires Conserved(done, stack, output) && (tok.Op? || tok.Func? || tok.LPar?)
    ensures Conserved(done + [tok], stack + [tok], output)
  {
    SignificantAppend(done, tok);
    SignificantAppend(stack, tok);
    hide Significant, Numbers;
    var x := if tok.LPar? then [] else [tok];
    assert multiset(Significant(done) + x) == multiset(Significant(done)) + multiset(x);
    assert multiset(Significant(stack) + x) == multiset(Significant(stack)) + multiset(x);
    assert Numbers(done) + [] == Numbers(done);
  }

  lemma ReadNumber<N>(done: seq<Token<N>>, tok: Token<N>, stack: seq<Token<N>>, output: seq<Token<N>>)
    requires Conserved(done, stack, output) && tok.Num?
    ensures Conserved(done + [tok], stack, output + [tok])
  {
    hide Significant, Numbers, StackShape, OutputShape;
    SignificantAppend(done, tok);
    SignificantAppend(output, tok);
    OutputMore(output, tok);
  }

  lemma OutputMore<N>(output: seq<Token<N>>, tok: Token<N>)
    requires OutputShape(output) && (tok.Num? || tok.Op? || tok.Func?)
    ensures OutputShape(output + [tok])
  {
  }

  lemma ReadNothing<N>(done: seq<Token<N>>, tok: Token<N>, stack: seq<Token<N>>, output: seq<Token<N>>)
    requires Conserved(done, stack, output) && (tok.RPar? || tok.Comma?)
    ensures Conserved(done + [tok], stack, output)
  {
    SignificantAppend(done, tok);
    assert Significant(done) + [] == Significant(done) && Numbers(done) + [] == Numbers(done);
  }

  lemma PushParen<N>(done: seq<Token<N>>, stack: seq<Token<N>>, output: seq<Token<N>>)
    requires Conserved(done, stack, output)
    ensures Conserved(done, stack + [LPar], output)
  {
    SignificantAppend<N>(stack, LPar);
    assert Significant(stack) + [] == Significant(stack);
  }

  /** Every successful step conserves the tokens. */
  lemma StepConserves<N>(done: seq<Token<N>>, tok: Token<N>, st: State<N>)
    requires Conserved(done, st.stack, st.output)
    ensures match Step(tok, st) case None => true case Some(st') => Conserved(done + [tok], st'.stack, st'.output)
  {
    hide Conserved, PopOperators, PopToParen;
    match tok
    case Nfi(_) =>
    case Num(_) => ReadNumber(done, tok, st.stack, st.output);
    case Op(op) =>
      PopOperatorsConserves(op, done, st.stack, st.output);
      var (s, o) := PopOperators(op, st.stack, st.output);
      ReadToStack(done, tok, s, o);
    case Func(_, _) => ReadToStack(done, tok, st.stack, st.output);
    case LPar => ReadToStack(done, tok, st.stack, st.output);
    case RPar =>
      ReadNothing(done, tok, st.stack, st.output);
      PopToParenConserves(done + [tok], st.stack, st.output);
      match PopToParen(st.stack, st.output) {
        case None =>
        case Some((s, o)) =>
          if s != [] && s[|s| - 1].Func? {
            Move(done + [tok], s, o);
          }
      }
    case Comma =>
      ReadNothing(done, tok, st.stack, st.output);
      PopToParenConserves(done + [tok], st.stack, st.output);
      match PopToParen(st.stack, st.output) {
        case None =>
        case Some((s, o)) => PushParen(done + [tok], s, o);
      }
  }

  lemma {:induction false} FeedConserves<N>(done: seq<Token<N>>, toks: seq<Token<N>>, st: State<N>)
    requires Conserved(done, st.stack, st.output)
    ensures match Feed(toks, st) case None => true case Some(st') => Conserved(done + toks, st'.stack, st'.output)
    decreases |toks|
  {
    hide Conserved, Step;
    if toks == [] {
      assert done + toks == done;
    } else {
      StepConserves(done, toks[0], st);
      match Step(toks[0], st) {
        case None =>
        case Some(st') =>
          FeedConserves(done + [toks[0]], toks[1..], st');
          assert done + [toks[0]] + toks[1..] == done + toks;
      }
    }
  }

  lemma {:induction false} DrainConserves<N>(done: seq<Token<N>>, stack: seq<Token<N>>, output: seq<Token<N>>)
    requires Conserved(done, stack, output)
    ensures match Drain(stack, output) case None => true case Some(o) => Conserved(done, [], o)
    decreases |stack|
  {
    if stack != [] && !stack[|stack| - 1].LPar? {
      Move(done, stack, output);
      DrainConserves(done, stack[..|stack| - 1], output + [stack[|stack| - 1]]);
    }
  }

  /** On every token list that converts, the output is a permutation of the
      numbers, operators and functions of the input, holds nothing else, and
      keeps the numbers in input order. */
  lemma ShuntConserves<N>(input: seq<Token<N>>)
    requires Shunt(input).Some?
    ensures multiset(Shunt(input).value) == multiset(Significant(input))
    ensures Numbers(Shunt(input).value) == Numbers(input)
    ensures OutputShape(Shunt(input).value)
  {
    hide Feed, Drain;
    var start: State<N> := State([], [], []);
    FeedConserves([], input, start);
    assert [] + input == input;
    var st := Feed(input, start).value;
    DrainConserves(input, st.stack, st.output);
  }
}
