/** Tokens, operator precedence and the token stack of the calculator. */
module CalcTokens {
  import opened Wrappers

  datatype Operator = StarStar | Caret | Star | Slash | Percent | Plus | Minus

  /** A token; a function token carries the count kept in its numval field. */
  datatype Token<+N> =
    | Nfi(text: string)
    | Num(value: N)
    | Op(op: Operator)
    | Func(name: string, count: int)
    | LPar
    | RPar
    | Comma

  function Prec(op: Operator): int {
    match op
    case StarStar | Caret => 3
    case Star | Slash | Percent => 2
    case Plus | Minus => 1
  }

  predicate LeftAssoc(op: Operator) {
    !op.StarStar? && !op.Caret?
  }

  /** Whether an arriving op1 takes op2 off the stack. */
  predicate Precedence(op1: Operator, op2: Operator) {
    Prec(op1) < Prec(op2) || (LeftAssoc(op1) && Prec(op1) == Prec(op2))
  }

  /** The argument count of a function; zero for a name that is not one. */
  function Arity(name: string): nat {
    if name in {"atan2", "hypot", "max", "min"} then 2
    else if name in {"abs", "acos", "acosh", "asin", "asinh", "atan", "atanh", "cbrt", "ceil", "cos",
                     "cosh", "exp", "exp2", "floor", "gamma", "int", "log", "log10", "log2", "logb",
                     "sin", "sinh", "sqrt", "tan", "tanh"} then 1
    else 0
  }

  /** Takes n numbers off the end, or fails at the first token that is not a number. */
  function TakeNums<N>(items: seq<Token<N>>, n: nat): (r: (Option<seq<N>>, seq<Token<N>>))
    ensures r.0.Some? ==> |r.0.value| == n && |items| >= n && r.1 == items[..|items| - n]
  {
    if n == 0 then (Some([]), items)
    else if items == [] then (None, [])
    else
      var init, last := items[..|items| - 1], items[|items| - 1];
      if !last.Num? then (None, init)
      else
        match TakeNums(init, n - 1)
        case (None, rest) => (None, rest)
        case (Some(ns), rest) => (Some(ns + [last.value]), rest)
  }

  /** A stack of tokens. */
  class TokenStack<N> {
    var items: seq<Token<N>>

    constructor ()
      ensures items == []
    {
      items := [];
    }

    method Push(t: Token<N>)
      modifies this
      ensures items == old(items) + [t]
    {
      items := items + [t];
    }

    method Pop() returns (r: Option<Token<N>>)
      modifies this
      ensures old(items) == [] ==> r == None && items == []
      ensures old(items) != [] ==> r.Some? && old(items) == items + [r.value]
    {
      if items == [] {
        return None;
      }
      r := Some(items[|items| - 1]);
      items := items[..|items| - 1];
    }

    /** Pops n numbers, keeping their order. */
    method GetNums(n: nat) returns (r: Option<seq<N>>)
      modifies this
      ensures (r, items) == TakeNums(old(items), n)
    {
      var nums: seq<N> := [];
      var k: nat := n;
      ThenNothing(TakeNums(items, n));
      while k > 0
        invariant k + |nums| == n
        invariant TakeNums(old(items), n) == Then(TakeNums(items, k), nums)
      {
        ghost var before := items;
        var top := Pop();
        if top.None? || !top.value.Num? {
          return None;
        }
        assert before[..|before| - 1] == items;
        ThenOne(TakeNums(items, k - 1), top.value.value, nums);
        nums := [top.value.value] + nums;
        k := k - 1;
      }
      ThenAll(items, nums);
      r := Some(nums);
    }
  }

  /** The numbers already taken go behind the ones still to be taken. */
  ghost function Then<N>(r: (Option<seq<N>>, seq<Token<N>>), nums: seq<N>): (Option<seq<N>>, seq<Token<N>>) {
    match r
    case (None, rest) => (None, rest)
    case (Some(ns), rest) => (Some(ns + nums), rest)
  }

  lemma ThenNothing<N>(r: (Option<seq<N>>, seq<Token<N>>))
    ensures Then(r, []) == r
  {
    if r.0.Some? {
      assert r.0.value + [] == r.0.value;
    }
  }

  lemma ThenOne<N>(r: (Option<seq<N>>, seq<Token<N>>), x: N, nums: seq<N>)
    ensures Then(Then(r, [x]), nums) == Then(r, [x] + nums)
  {
    if r.0.Some? {
      assert r.0.value + [x] + nums == r.0.value + ([x] + nums);
    }
  }

  lemma ThenAll<N>(items: seq<Token<N>>, nums: seq<N>)
    ensures Then(TakeNums(items, 0), nums) == (Some(nums), items)
  {
    assert [] + nums == nums;
  }
}
