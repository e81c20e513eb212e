/** Random numbers and random walks: each sequence of numbers means one walk. */
module MarkovChance {
  import opened Wrappers
  import opened Bytes
  import opened ByteOrder
  import opened MarkovStore
  import opened MarkovRuns
  import opened MarkovWalk

  /** The bytes of a text. */
  function Ascii(s: string): (b: Name)
    requires forall k :: 0 <= k < |s| ==> s[k] as int < 128
    ensures |b| == |s|
  {
    seq(|s|, k requires 0 <= k < |s| => s[k] as int)
  }

  lemma Markers()
    ensures ACTION_START == Ascii("!ACTION_START")
    ensures SENTENCE_START == Ascii("!SENTENCE_START")
    ensures SENTENCE_END == Ascii("!SENTENCE_END")
  {
  }

  /** URLs begin with one of two schemes and have no space in them. */
  lemma UrlishIff(w: Name)
    ensures LooksUrlish(w) <==>
      (exists rest :: w == Ascii("http://") + rest || w == Ascii("https://") + rest) && forall k :: 0 <= k < |w| ==> w[k] != ' ' as int
  {
    assert Ascii("http://") == HTTP && Ascii("https://") == HTTPS;
    if HTTP <= w {
      assert w == Ascii("http://") + w[7..];
    }
    if HTTPS <= w {
      assert w == Ascii("https://") + w[8..];
    }
  }

  /** The uses below a later follower include those of an earlier one. */
  lemma BelowGrows(c: Chain, w: Name, x: Name, y: Name)
    requires w in c && x in c[w] && Less(x, y)
    ensures UsesBelow(c, w, x) + Uses(c, w, x) <= UsesBelow(c, w, y)
  {
    hide Less, Sorted, SumOver, Uses;
    var f := k => Uses(c, w, k);
    var low, high := set k | k in c[w] && Less(k, x), set k | k in c[w] && Less(k, y);
    SumOverSet(f, low, x, high) by {
      Irreflexive(x);
      forall k | k in low ensures k in high {
        Transitive(k, x, y);
      }
    }
  }

  /** A sum over a set and one more key is part of a sum over a larger set. */
  lemma SumOverSet(f: Name -> nat, low: set<Name>, x: Name, high: set<Name>)
    requires low <= high && x in high && x !in low
    ensures SumOver(f, Sorted(low)) + f(x) <= SumOver(f, Sorted(high))
  {
    hide Sorted;
    var ks, i := Sorted(high), 0;
    assert x in ks;
    var j :| 0 <= j < |ks| && ks[j] == x;
    SortedDistinct(high);
    SumOverTakeOut(f, ks, j);
    WithoutAre(ks, j);
    SumOverPart(f, Sorted(low), ks[..j] + ks[j + 1..]) by {
      SortedDistinct(low);
    }
  }

  lemma {:induction false} SumOverPart(f: Name -> nat, ks: seq<Name>, ls: seq<Name>)
    requires AllDistinct(ks) && AllDistinct(ls) && forall k :: k in ks ==> k in ls
    ensures SumOver(f, ks) <= SumOver(f, ls)
    decreases |ks|
  {
    if ks != [] {
      assert ks[0] in ks;
      var j :| 0 <= j < |ls| && ls[j] == ks[0];
      SumOverTakeOut(f, ls, j);
      WithoutAre(ls, j);
      WithoutAre(ks, 0);
      assert ks[..0] + ks[1..] == ks[1..];
      SumOverPart(f, ks[1..], ls[..j] + ls[j + 1..]);
    }
  }

  /** A random number means one follower. */
  lemma OneDrawn(c: Chain, w: Name, r: nat, x: Name, y: Name)
    requires DrawnTo(c, w, r, x) && DrawnTo(c, w, r, y)
    ensures x == y
  {
    hide UsesBelow;
    Total(x, y);
    if Less(x, y) {
      BelowGrows(c, w, x, y);
    } else if Less(y, x) {
      BelowGrows(c, w, y, x);
    }
  }

  /** As far as both go, two walks with the same random numbers are the same. */
  lemma {:induction false} SameWords(c: Chain, start: Name, random: (nat, nat) -> nat, a: seq<Name>, b: seq<Name>, n: nat)
    requires ChosenWords(c, start, a, random) && ChosenWords(c, start, b, random) && n <= |a| && n <= |b|
    ensures a[..n] == b[..n]
    decreases n
  {
    hide DrawnTo, Out, Last;
    if n > 0 {
      SameWords(c, start, random, a, b, n - 1);
      var sofar := a[..n - 1];
      assert Draws(c, start, sofar, random, a[n - 1]) && Draws(c, start, b[..n - 1], random, b[n - 1]);
      var w := Last(start, sofar);
      OneDrawn(c, w, random(n - 1, Out(c, w)), a[n - 1], b[n - 1]);
      assert a[..n] == sofar + [a[n - 1]] && b[..n] == b[..n - 1] + [b[n - 1]];
    }
  }

  /** A walk does not stop where another one with the same random numbers goes on. */
  lemma NotShorter(c: Chain, start: Name, length: nat, random: (nat, nat) -> nat, a: seq<Name>, ra: Outcome, b: seq<Name>, rb: Outcome)
    requires WalkResult(c, start, length, a, ra) && Chosen(c, start, length, a, ra, random)
    requires WalkResult(c, start, length, b, rb) && Chosen(c, start, length, b, rb, random)
    ensures |a| >= |b|
  {
    hide DrawnTo, Out, Last, CanEnd, ChosenWords;
    if |a| < |b| {
      SameWords(c, start, random, a, b, |a|);
      assert a[..|a|] == a;
      StepIs(c, start, b, random, |a|);
      if ra == Finished && Draws(c, start, a, random, SENTENCE_END) {
        var w := Last(start, a);
        OneDrawn(c, w, random(|a|, Out(c, w)), SENTENCE_END, b[|a|]);
      }
    }
  }

  /** What each word of a walk says about the word before it. */
  lemma StepIs(c: Chain, start: Name, output: seq<Name>, random: (nat, nat) -> nat, i: nat)
    requires ChosenWords(c, start, output, random) && i < |output|
    ensures Draws(c, start, output[..i], random, output[i])
    ensures Last(start, output[..i]) in c && Out(c, Last(start, output[..i])) > 0
  {
    hide DrawnTo, Last;
  }

  /** The random numbers decide the walk: two results for the same numbers are the same. */
  lemma OneWalk(c: Chain, start: Name, length: nat, random: (nat, nat) -> nat, a: seq<Name>, ra: Outcome, b: seq<Name>, rb: Outcome)
    requires Positive(c)
    requires WalkResult(c, start, length, a, ra) && Chosen(c, start, length, a, ra, random)
    requires WalkResult(c, start, length, b, rb) && Chosen(c, start, length, b, rb, random)
    ensures a == b && ra == rb
  {
    NotShorter(c, start, length, random, a, ra, b, rb);
    NotShorter(c, start, length, random, b, rb, a, ra);
    SameWords(c, start, random, a, b, |a|);
    hide DrawnTo, Walk, EndedLate, ChosenWords, Positive;
    assert a[..|a|] == a && b[..|b|] == b;
    if Last(start, a) in c {
      PositiveOut(c, Last(start, a));
    }
  }
}
