/** The shunting-yard conversion from infix to postfix. */
module CalcShunt {
  import opened Wrappers
  import opened CalcTokens

  /** The operator stack, the stack of functions awaiting arguments, and the output. */
  datatype State<+N> = State(stack: seq<Token<N>>, argcs: seq<Token<N>>, output: seq<Token<N>>)

  /** Moves operators to the output while the arriving operator takes precedence. */
  function PopOperators<N>(op: Operator, stack: seq<Token<N>>, output: seq<Token<N>>): (seq<Token<N>>, seq<Token<N>>) {
    if stack == [] then (stack, output)
    else
      var top := stack[|stack| - 1];
      if top.Op? && Precedence(op, top.op) then PopOperators(op, stack[..|stack| - 1], output + [top])
      else (stack, output)
  }

  /** Moves everything above the last left parenthesis to the output, and drops the parenthesis. */
  function PopToParen<N>(stack: seq<Token<N>>, output: seq<Token<N>>): Option<(seq<Token<N>>, seq<Token<N>>)> {
    if stack == [] then None
    else
      var init, top := stack[..|stack| - 1], stack[|stack| - 1];
      if top.LPar? then Some((init, output)) else PopToParen(init, output + [top])
  }

  /** A function in front of the parentheses that just closed goes to the output,
      provided that the commas counted for the innermost open function fit its arity. */
  function CloseCall<N>(st: State<N>): Option<State<N>> {
    if st.stack != [] && st.stack[|st.stack| - 1].Func? then
      var init, top := st.stack[..|st.stack| - 1], st.stack[|st.stack| - 1];
      if st.argcs == [] then Some(State(init, [], st.output + [top]))
      else
        var f := st.argcs[|st.argcs| - 1];
        if f.Func? && f.count + 1 != Arity(f.name) then None
        else Some(State(init, st.argcs[..|st.argcs| - 1], st.output + [top]))
    else Some(st)
  }

  /** One more comma for the innermost open function. */
  function CountComma<N>(argcs: seq<Token<N>>): seq<Token<N>> {
    if argcs == [] || !argcs[|argcs| - 1].Func? then argcs
    else
      var f := argcs[|argcs| - 1];
      argcs[..|argcs| - 1] + [Func(f.name, f.count + 1)]
  }

  /** What one token does; None is an error. */
  function Step<N>(tok: Token<N>, st: State<N>): Option<State<N>> {
    match tok
    case Nfi(_) => None
    case Num(_) => Some(st.(output := st.output + [tok]))
    case Op(op) =>
      var (stack, output) := PopOperators(op, st.stack, st.output);
      Some(State(stack + [tok], st.argcs, output))
    case Func(_, _) => Some(State(st.stack + [tok], st.argcs + [tok], st.output))
    case LPar => Some(st.(stack := st.stack + [tok]))
    case RPar =>
      (match PopToParen(st.stack, st.output)
       case None => None
       case Some((stack, output)) => CloseCall(State(stack, st.argcs, output)))
    case Comma =>
      (match PopToParen(st.stack, st.output)
       case None => None
       case Some((stack, output)) => Some(State(stack + [LPar], CountComma(st.argcs), output)))
  }

  /** What a sequence of tokens does. */
  function Feed<N>(toks: seq<Token<N>>, st: State<N>): Option<State<N>>
    decreases |toks|
  {
    if toks == [] then Some(st)
    else
      match Step(toks[0], st)
      case None => None
      case Some(st') => Feed(toks[1..], st')
  }

  /** Empties the stack; a left parenthesis that is still there was never closed. */
  function Drain<N>(stack: seq<Token<N>>, output: seq<Token<N>>): Option<seq<Token<N>>> {
    if stack == [] then Some(output)
    else
      var init, top := stack[..|stack| - 1], stack[|stack| - 1];
      if top.LPar? then None else Drain(init, output + [top])
  }

  /** The whole conversion. */
  function Shunt<N>(input: seq<Token<N>>): Option<seq<Token<N>>> {
    match Feed(input, State([], [], []))
    case None => None
    case Some(st) => Drain(st.stack, st.output)
  }

  lemma {:induction false} FeedAppend<N>(a: seq<Token<N>>, b: seq<Token<N>>, st: State<N>)
    ensures Feed(a + b, st) == match Feed(a, st) { case None => None case Some(st') => Feed(b, st') }
    decreases |a|
  {
    if a == [] {
      assert a + b == b;
    } else {
      assert (a + b)[1..] == a[1..] + b;
      match Step(a[0], st)
      case None =>
      case Some(st') => FeedAppend(a[1..], b, st');
    }
  }

  lemma FeedOne<N>(tok: Token<N>, st: State<N>)
    ensures Feed([tok], st) == Step(tok, st)
  {
  }

  /** The loop of a closing parenthesis and of a comma. */
  method PopLoop<N>(stack: TokenStack<N>, output: TokenStack<N>) returns (ok: bool)
    requires stack != output
    modifies stack, output
    ensures ok <==> PopToParen(old(stack.items), old(output.items)).Some?
    ensures ok ==> PopToParen(old(stack.items), old(output.items)) == Some((stack.items, output.items))
  {
    while true
      invariant PopToParen(old(stack.items), old(output.items)) == PopToParen(stack.items, output.items)
      decreases |stack.items|
    {
      ghost var before := stack.items;
      var top := stack.Pop();
      if top.None? {
        return false;
      }
      assert before[..|before| - 1] == stack.items;
      if top.value.LPar? {
        return true;
      }
      output.Push(top.value);
    }
  }

  /** shuntStep: on success the three stacks are in the state Step describes. */
  method ShuntStep<N>(tok: Token<N>, stack: TokenStack<N>, argcs: TokenStack<N>, output: TokenStack<N>) returns (ok: bool)
    requires stack != argcs && stack != output && argcs != output
    modifies stack, argcs, output
    ensures ok <==> Step(tok, old(State(stack.items, argcs.items, output.items))).Some?
    ensures ok ==> Step(tok, old(State(stack.items, argcs.items, output.items)))
                   == Some(State(stack.items, argcs.items, output.items))
  {
    ok := true;
    match tok
    case Nfi(_) => ok := false;
    case Num(_) => output.Push(tok);
    case Op(op) =>
      while true
        invariant PopOperators(op, stack.items, output.items)
               == PopOperators(op, old(stack.items), old(output.items))
        invariant argcs.items == old(argcs.items)
        decreases |stack.items|
      {
        ghost var before := stack.items;
        var top := stack.Pop();
        if top.None? {
          break;
        }
        assert before[..|before| - 1] == stack.items;
        if top.value.Op? && Precedence(op, top.value.op) {
          output.Push(top.value);
        } else {
          stack.Push(top.value);
          break;
        }
      }
      stack.Push(tok);
    case Func(_, _) =>
      stack.Push(tok);
      argcs.Push(tok);
    case LPar => stack.Push(tok);
    case RPar =>
      ok := PopLoop(stack, output);
      if !ok {
        return;
      }
      var top := stack.Pop();
      if top.Some? {
        if top.value.Func? {
          output.Push(top.value);
          var f := argcs.Pop();
          if f.Some? && f.value.Func? && f.value.count + 1 != Arity(f.value.name) {
            ok := false;
          }
        } else {
          stack.Push(top.value);
        }
      }
    case Comma =>
      if argcs.items != [] {
        argcs.items := CountComma(argcs.items);
      }
      ok := PopLoop(stack, output);
      if ok {
        stack.Push(LPar);
      }
  }

  /** shunt. */
  method ShuntAll<N>(input: seq<Token<N>>) returns (r: Option<seq<Token<N>>>)
    ensures r == Shunt(input)
  {
    var stack := new TokenStack<N>();
    var output := new TokenStack<N>();
    var argcs := new TokenStack<N>();
    for i := 0 to |input|
      invariant fresh(stack) && fresh(output) && fresh(argcs)
      invariant Feed(input, State([], [], [])) == Feed(input[i..], State(stack.items, argcs.items, output.items))
    {
      assert input[i..][1..] == input[i + 1..];
      var ok := ShuntStep(input[i], stack, argcs, output);
      if !ok {
        return None;
      }
    }
    assert input[|input|..] == [];
    while |stack.items| > 0
      invariant fresh(stack) && fresh(output)
      invariant Shunt(input) == Drain(stack.items, output.items)
      decreases |stack.items|
    {
      ghost var before := stack.items;
      var top := stack.Pop();
      assert before[..|before| - 1] == stack.items;
      if top.value.LPar? {
        return None;
      }
      output.Push(top.value);
    }
    r := Some(output.items);
  }
}
