/** Random walks along a Markov chain, and why they do not get stuck. */
module MarkovWalk {
  import opened Wrappers
  import opened Bytes
  import opened ByteOrder
  import opened MarkovStore
  import opened MarkovRuns

  datatype Link = Link(value: Name, uses: nat)

  datatype Outcome = Finished | NotEnoughData | TooMuchData | NoLinks

  /** The followers of a word with their counts, in key order. */
  ghost function LinkList(row: map<Name, nat>, ks: seq<Name>): (ls: seq<Link>)
    requires forall k :: k in ks ==> k in row
    ensures |ls| == |ks|
  {
    seq(|ks|, i requires 0 <= i < |ks| => Link(ks[i], row[ks[i]]))
  }

  ghost function Links(c: Chain, w: Name): Option<seq<Link>> {
    if w in c then Some(LinkList(c[w], Sorted(c[w].Keys))) else None
  }

  function SumUses(ls: seq<Link>): nat {
    if ls == [] then 0 else SumUses(ls[..|ls| - 1]) + ls[|ls| - 1].uses
  }

  lemma {:induction false} SumUsesStep(ls: seq<Link>, i: nat)
    requires i < |ls|
    ensures SumUses(ls[..i + 1]) == SumUses(ls[..i]) + ls[i].uses
  {
    assert ls[..i + 1][..i] == ls[..i];
  }

  lemma {:induction false} SumUsesGrows(ls: seq<Link>, i: nat, j: nat)
    requires i <= j <= |ls|
    ensures SumUses(ls[..i]) <= SumUses(ls[..j])
    decreases j - i
  {
    if i < j {
      SumUsesStep(ls, j - 1);
      SumUsesGrows(ls, i, j - 1);
    }
  }

  /** The random number r falls to the i-th link. */
  predicate FallsTo(ls: seq<Link>, r: nat, i: nat) {
    i < |ls| && SumUses(ls[..i]) <= r < SumUses(ls[..i + 1])
  }

  /** Each random number falls to one link only, and those that fall to a link
      are as many as it has uses. */
  lemma OneLinkEach(ls: seq<Link>, r: nat, i: nat, j: nat)
    requires FallsTo(ls, r, i) && FallsTo(ls, r, j)
    ensures i == j
    ensures SumUses(ls[..i + 1]) - SumUses(ls[..i]) == ls[i].uses
  {
    hide SumUses;
    SumUsesStep(ls, i);
    if i < j {
      SumUsesGrows(ls, i + 1, j);
    } else if j < i {
      SumUsesGrows(ls, j + 1, i);
    }
  }

  /** The loop that subtracts uses from r until it is negative. */
  method Pick(ls: seq<Link>, r0: nat) returns (i: nat)
    requires r0 < SumUses(ls)
    ensures FallsTo(ls, r0, i)
  {
    hide SumUses;
    var r: int := r0;
    NoUses(ls);
    assert ls[..|ls|] == ls;
    i := 0;
    while i < |ls|
      invariant i <= |ls|
      invariant r == r0 - SumUses(ls[..i]) && r >= 0
    {
      SumUsesStep(ls, i);
      r := r - ls[i].uses;
      if r < 0 {
        return;
      }
      i := i + 1;
    }
    assert false;
  }

  lemma NoUses(ls: seq<Link>)
    ensures SumUses(ls[..0]) == 0
    ensures SumUses(ls) > 0 ==> ls != []
  {
  }

  /** The word a walk has come to. */
  function Last(start: Name, output: seq<Name>): Name {
    if output == [] then start else output[|output| - 1]
  }

  /** Every step of the output follows a link that has uses. */
  ghost predicate Walk(c: Chain, start: Name, output: seq<Name>) {
    forall i :: 0 <= i < |output| ==> output[i] != SENTENCE_END && Uses(c, Last(start, output[..i]), output[i]) > 0
  }

  /** Some word after the first 80% of the output could have been the last. */
  ghost predicate EndedLate(c: Chain, start: Name, output: seq<Name>, length: nat) {
    exists i :: 4 * length / 5 < i < |output| && CanEnd(c, Last(start, output[..i]))
  }

  predicate CanEnd(c: Chain, w: Name) {
    w in c && SENTENCE_END in c[w]
  }

  /** What a walk of at most the given length may come to. */
  ghost predicate WalkResult(c: Chain, start: Name, length: nat, output: seq<Name>, outcome: Outcome) {
    && |output| <= length
    && Walk(c, start, output)
    && !EndedLate(c, start, output, length)
    && match outcome
       case Finished => |output| < length && CanEnd(c, Last(start, output))
       case NotEnoughData => |output| < length && Last(start, output) in c && Out(c, Last(start, output)) == 0
       case NoLinks => |output| < length && Last(start, output) !in c
       case TooMuchData => |output| == length
  }

  /** All uses of the followers of w in front of x in key order. */
  ghost function UsesBelow(c: Chain, w: Name, x: Name): nat {
    if w in c then SumOver(k => Uses(c, w, k), Sorted(set k | k in c[w] && Less(k, x))) else 0
  }

  /** r is one of the random numbers that mean x: as many as x has uses behind w,
      next to those of the followers in front of it. */
  ghost predicate DrawnTo(c: Chain, w: Name, r: nat, x: Name) {
    UsesBelow(c, w, x) <= r < UsesBelow(c, w, x) + Uses(c, w, x)
  }

  /** random(k, n) is the random number below n of the k-th step. */
  ghost predicate InRange(random: (nat, nat) -> nat) {
    forall k: nat, n: nat :: n > 0 ==> random(k, n) < n
  }

  /** The random number at a step means x. */
  ghost predicate Draws(c: Chain, start: Name, sofar: seq<Name>, random: (nat, nat) -> nat, x: Name) {
    var w := Last(start, sofar);
    Out(c, w) > 0 && DrawnTo(c, w, random(|sofar|, Out(c, w)), x)
  }

  /** The walk is the one the random numbers mean: each word is the one that was
      drawn, and it finishes only when the end is drawn, or after 80% of the length. */
  ghost predicate Chosen(c: Chain, start: Name, length: nat, output: seq<Name>, outcome: Outcome, random: (nat, nat) -> nat) {
    && ChosenWords(c, start, output, random)
    && (outcome == Finished ==>
          (|output| > 4 * length / 5 && CanEnd(c, Last(start, output))) || Draws(c, start, output, random, SENTENCE_END))
  }

  ghost predicate ChosenWords(c: Chain, start: Name, output: seq<Name>, random: (nat, nat) -> nat) {
    forall i :: 0 <= i < |output| ==> Draws(c, start, output[..i], random, output[i])
  }

  lemma ChosenMore(c: Chain, start: Name, output: seq<Name>, random: (nat, nat) -> nat, x: Name)
    requires ChosenWords(c, start, output, random) && Draws(c, start, output, random, x)
    ensures ChosenWords(c, start, output + [x], random)
  {
    hide Draws;
    var more := output + [x];
    forall i | 0 <= i < |more| ensures Draws(c, start, more[..i], random, more[i]) {
      if i < |output| {
        assert more[..i] == output[..i];
      } else {
        assert more[..i] == output;
      }
    }
  }

  /** The link that a random number falls to is the one it means. */
  lemma FallsIsDrawn(c: Chain, w: Name, r: nat, i: nat)
    requires w in c && FallsTo(Links(c, w).value, r, i)
    ensures DrawnTo(c, w, r, Links(c, w).value[i].value)
  {
    hide Sorted, SumOver, SumUses, Less;
    var ks, ls := Sorted(c[w].Keys), Links(c, w).value;
    var x := ks[i];
    assert x in ks && ls[i].value == x;
    assert ls[..i] == LinkList(c[w], ks[..i]);
    SumUsesIsSumOver(c, w, ks[..i]);
    SumUsesStep(ls, i);
    LinksAre(c, w, i);
    var below := Sorted(set k | k in c[w] && Less(k, x));
    BelowIs(c[w].Keys, i);
    SortedDistinct(c[w].Keys);
    SortedDistinct(set k | k in c[w] && Less(k, x));
    SumOverSame(k => Uses(c, w, k), k => Uses(c, w, k), ks[..i], below);
  }

  /** The keys in front of the i-th are those below it. */
  lemma BelowIs(s: set<Name>, i: nat)
    requires i < |Sorted(s)|
    ensures forall k :: k in Sorted(s)[..i] <==> k in s && Less(k, Sorted(s)[i])
  {
    var ks := Sorted(s);
    forall k ensures k in ks[..i] <==> k in s && Less(k, ks[i]) {
      if k in ks[..i] {
        var j :| 0 <= j < i && ks[j] == k;
        assert k in ks;
      }
      if k in s && Less(k, ks[i]) {
        assert k in ks;
        var j :| 0 <= j < |ks| && ks[j] == k;
        if j >= i {
          Irreflexive(k);
          if j > i { Transitive(ks[i], ks[j], ks[i]); Irreflexive(ks[i]); }
        }
      }
    }
  }

  lemma {:induction false} SumUsesIsSumOver(c: Chain, w: Name, ks: seq<Name>)
    requires w in c && forall k :: k in ks ==> k in c[w]
    ensures SumUses(LinkList(c[w], ks)) == SumOver(k => Uses(c, w, k), ks)
    decreases |ks|
  {
    if ks != [] {
      var n := |ks| - 1;
      SumUsesIsSumOver(c, w, ks[..n]);
      assert LinkList(c[w], ks)[..n] == LinkList(c[w], ks[..n]);
      SumOverTakeOut(k => Uses(c, w, k), ks, n);
      assert ks[..n] + ks[n + 1..] == ks[..n];
    }
  }

  /** The sum over the links of a word is everything that leaves it. */
  lemma LinksSum(c: Chain, w: Name)
    requires w in c
    ensures SumUses(Links(c, w).value) == Out(c, w)
  {
    SumUsesIsSumOver(c, w, Sorted(c[w].Keys));
  }

  lemma LinksAre(c: Chain, w: Name, i: nat)
    requires w in c && i < |Links(c, w).value|
    ensures var l := Links(c, w).value[i]; l.value in c[w] && l.uses == Uses(c, w, l.value)
  {
    hide Sorted;
    var ks := Sorted(c[w].Keys);
    assert ks[i] in ks;
  }

  lemma LinksHave(c: Chain, w: Name, k: Name)
    requires w in c && k in c[w]
    ensures exists i :: 0 <= i < |Links(c, w).value| && Links(c, w).value[i].value == k
  {
    hide Sorted;
    var ks := Sorted(c[w].Keys);
    assert k in ks;
    var i :| 0 <= i < |ks| && ks[i] == k;
    assert Links(c, w).value[i].value == k;
  }

  lemma {:induction false} WalkMore(c: Chain, start: Name, output: seq<Name>, w: Name)
    requires Walk(c, start, output) && w != SENTENCE_END && Uses(c, Last(start, output), w) > 0
    ensures Walk(c, start, output + [w])
  {
    hide Uses, Last;
    var more := output + [w];
    forall i | 0 <= i < |more| ensures more[i] != SENTENCE_END && Uses(c, Last(start, more[..i]), more[i]) > 0 {
      if i < |output| {
        assert more[..i] == output[..i];
      } else {
        assert more[..i] == output;
      }
    }
  }

  lemma NotLateMore(c: Chain, start: Name, output: seq<Name>, w: Name, length: nat)
    requires !EndedLate(c, start, output, length)
    requires |output| > 4 * length / 5 ==> !CanEnd(c, Last(start, output))
    ensures !EndedLate(c, start, output + [w], length)
  {
    hide Last, CanEnd;
    var more := output + [w];
    forall i | 4 * length / 5 < i < |more| ensures !CanEnd(c, Last(start, more[..i])) {
      if i < |output| {
        assert more[..i] == output[..i];
      } else {
        assert more[..i] == output;
      }
    }
  }

  /** The chains of all tags. */
  class MarkovCollection {
    var tags: map<Name, Chain>

    constructor ()
      ensures tags == Run([])
    {
      tags := map[];
    }

    /** incUses: missing buckets are made, in one transaction that a bad name undoes. */
    method IncUses(source: Name, dest: Name, tag: Name)
      modifies this
      ensures tags == Inc(old(tags), source, dest, tag)
    {
      if LooksUrlish(source) || LooksUrlish(dest) {
        return;
      }
      if tag == [] {
        return;
      }
      var chain := ChainOf(tags, tag);
      if source == [] {
        return;
      }
      var row: map<Name, nat> := if source in chain then chain[source] else map[];
      var uses: nat := 0;
      if dest in row {
        uses := row[dest];
      }
      uses := uses + 1;
      if dest == [] {
        return;
      }
      row := row[dest := uses];
      chain := chain[source := row];
      tags := tags[tag := chain];
    }

    /** Add: each word is a follower of the one before it, and the end follows the last. */
    method Add(source0: Name, words: seq<Name>, tag: Name)
      modifies this
      ensures tags == Apply(old(tags), AddOp(source0, words, tag))
    {
      hide Inc;
      var source := source0;
      for j := 0 to |words|
        invariant AddText(old(tags), source0, words, tag) == AddText(tags, source, words[j..], tag)
      {
        assert words[j..][1..] == words[j + 1..];
        IncUses(source, words[j], tag);
        source := words[j];
      }
      IncUses(source, SENTENCE_END, tag);
    }

    method AddAction(words: seq<Name>, tag: Name)
      modifies this
      ensures tags == Apply(old(tags), AddOp(ACTION_START, words, tag))
    {
      Add(ACTION_START, words, tag);
    }

    method AddSentence(words: seq<Name>, tag: Name)
      modifies this
      ensures tags == Apply(old(tags), AddOp(SENTENCE_START, words, tag))
    {
      Add(SENTENCE_START, words, tag);
    }

    /** ClearTag; clearing a tag that is not there is an error. */
    method ClearTag(tag: Name) returns (ok: bool)
      modifies this
      ensures ok <==> tag in old(tags)
      ensures tags == Apply(old(tags), ClearOp(tag))
    {
      ok := tag in tags;
      if ok {
        tags := tags - {tag};
      } else {
        assert tags - {tag} == tags;
      }
    }

    method GetLinks(tag: Name, source: Name) returns (r: Option<seq<Link>>)
      ensures r == Links(ChainOf(tags, tag), source)
    {
      hide Sorted;
      if tag !in tags {
        return None;
      }
      if source !in tags[tag] {
        return None;
      }
      var row := tags[tag][source];
      var ks := CursorKeys(row.Keys);
      var ls: seq<Link> := [];
      for i := 0 to |ks|
        invariant ls == LinkList(row, ks)[..i]
      {
        assert ks[i] in ks;
        ls := ls + [Link(ks[i], row[ks[i]])];
      }
      assert LinkList(row, ks)[..|ks|] == LinkList(row, ks);
      r := Some(ls);
    }

    /** The loop over the links: their sum, unless the walk should end here. */
    method SumLinks(c: Chain, w: Name, children: seq<Link>, late: bool) returns (sum: nat, end: bool)
      requires Links(c, w) == Some(children)
      ensures end <==> late && CanEnd(c, w)
      ensures !end ==> sum == Out(c, w)
    {
      hide SumUses, Out, LinkList, Sorted;
      NoUses(children);
      sum := 0;
      for i := 0 to |children|
        invariant sum == SumUses(children[..i])
        invariant late ==> forall j :: 0 <= j < i ==> children[j].value != SENTENCE_END
      {
        SumUsesStep(children, i);
        sum := sum + children[i].uses;
        if late && children[i].value == SENTENCE_END {
          LinksAre(c, w, i);
          return sum, true;
        }
      }
      assert children[..|children|] == children;
      LinksSum(c, w);
      if SENTENCE_END in c[w] {
        LinksHave(c, w, SENTENCE_END);
      }
      end := false;
    }

    /** generate, for every sequence of random numbers. */
    method Generate(tag: Name, start: Name, length: nat, random: (nat, nat) -> nat) returns (output: seq<Name>, outcome: Outcome)
      requires InRange(random)
      ensures WalkResult(ChainOf(tags, tag), start, length, output, outcome)
      ensures Chosen(ChainOf(tags, tag), start, length, output, outcome, random)
    {
      hide Links, Out, SumUses, Walk, EndedLate, LinkList, ChosenWords, DrawnTo, FallsTo;
      ghost var c := ChainOf(tags, tag);
      var current := start;
      output := [];
      EmptyWalk(c, start, length);
      while |output| < length
        invariant |output| <= length && current == Last(start, output)
        invariant Walk(c, start, output) && !EndedLate(c, start, output, length)
        invariant ChosenWords(c, start, output, random)
        decreases length - |output|
      {
        var children := GetLinks(tag, current);
        LinksThere(c, current);
        if children.None? {
          return output, NoLinks;
        }
        var sum, end := SumLinks(ChainOf(tags, tag), current, children.value, |output| > 4 * length / 5);
        if end {
          return output, Finished;
        }
        if sum == 0 {
          return output, NotEnoughData;
        }
        var r := random(|output|, sum);
        LinksSum(c, current);
        var i := Pick(children.value, r);
        FallsIsDrawn(c, current, r, i);
        FallsHasUses(children.value, r, i);
        LinksAre(c, current, i);
        var child := children.value[i];
        if child.value == SENTENCE_END {
          return output, Finished;
        }
        WalkMore(c, start, output, child.value);
        NotLateMore(c, start, output, child.value, length);
        ChosenMore(c, start, output, random, child.value);
        output := output + [child.value];
        current := child.value;
      }
      outcome := TooMuchData;
    }

    method Sentence(tag: Name, random: (nat, nat) -> nat) returns (output: seq<Name>, outcome: Outcome)
      requires InRange(random)
      ensures WalkResult(ChainOf(tags, tag), SENTENCE_START, 50, output, outcome)
      ensures Chosen(ChainOf(tags, tag), SENTENCE_START, 50, output, outcome, random)
    {
      output, outcome := Generate(tag, SENTENCE_START, 50, random);
    }

    method Action(tag: Name, random: (nat, nat) -> nat) returns (output: seq<Name>, outcome: Outcome)
      requires InRange(random)
      ensures WalkResult(ChainOf(tags, tag), ACTION_START, 50, output, outcome)
      ensures Chosen(ChainOf(tags, tag), ACTION_START, 50, output, outcome, random)
    {
      output, outcome := Generate(tag, ACTION_START, 50, random);
    }
  }

  lemma EmptyWalk(c: Chain, start: Name, length: nat)
    ensures Walk(c, start, []) && !EndedLate(c, start, [], length)
    ensures forall random :: ChosenWords(c, start, [], random)
  {
  }

  lemma FallsHasUses(ls: seq<Link>, r: nat, i: nat)
    requires FallsTo(ls, r, i)
    ensures i < |ls| && ls[i].uses > 0
  {
    hide SumUses;
    SumUsesStep(ls, i);
  }

  lemma LinksThere(c: Chain, w: Name)
    ensures Links(c, w).Some? <==> w in c
  {
  }

  /** What arrives at a word is at least what arrives from one source. */
  lemma InAtLeast(c: Chain, source: Name, w: Name)
    ensures In(c, w) >= Uses(c, source, w)
  {
    hide Sorted;
    var ks := Sorted(c.Keys);
    if source in c {
      assert source in ks;
      var i :| 0 <= i < |ks| && ks[i] == source;
      SumOverTakeOut(k => Uses(c, k, w), ks, i);
    }
  }

  /** Where every word but the end is left as often as it is reached, a walk leads on. */
  lemma WalkLeadsOn(c: Chain, start: Name, output: seq<Name>)
    requires Walk(c, start, output) && Out(c, start) > 0
    requires forall w :: w != SENTENCE_END ==> Out(c, w) >= In(c, w)
    ensures Out(c, Last(start, output)) > 0
  {
    hide Out, In, Uses;
    if output != [] {
      var n := |output| - 1;
      InAtLeast(c, Last(start, output[..n]), output[n]);
    }
  }

  /** A text that starts at the given word was added since the tag was last cleared. */
  predicate Started(texts: seq<Text>, start: Name) {
    exists i :: 0 <= i < |texts| && texts[i].source == start
  }

  lemma {:induction false} StartedCounts(texts: seq<Text>, start: Name)
    requires Started(texts, start)
    ensures StartsIn(texts, start) > 0
    decreases |texts|
  {
    var before := texts[..|texts| - 1];
    if texts[|texts| - 1].source != start {
      var i :| 0 <= i < |texts| && texts[i].source == start;
      assert before[i].source == start;
      StartedCounts(before, start);
    }
  }

  /** After any run of texts without URLs, once a text with this start is there,
      a walk from the start never gets stuck: it ends well or grows too long. */
  lemma NeverStuck(ops: seq<Op>, tag: Name, start: Name, length: nat, output: seq<Name>, outcome: Outcome)
    requires tag != [] && UrlFree(Texts(ops, tag)) && start != SENTENCE_END && Started(Texts(ops, tag), start)
    requires WalkResult(ChainOf(Run(ops), tag), start, length, output, outcome)
    ensures outcome == Finished || outcome == TooMuchData
  {
    hide Walk, EndedLate, Run, ChainOf, Texts, StartsIn, CutsIn, ResumesIn, Plain;
    var c, texts := ChainOf(Run(ops), tag), Texts(ops, tag);
    StartedCounts(texts, start);
    hide In;
    forall w | w != SENTENCE_END ensures Out(c, w) >= In(c, w) {
      hide Out;
      UrlFreeUncut(texts, w);
      if Plain(w) {
        RunFlow(ops, tag, w);
      } else {
        UrlFlow(ops, tag, w);
      }
    }
    UrlFreeUncut(texts, start);
    RunFlow(ops, tag, start);
    WalkLeadsOn(c, start, output);
  }

  /** s stands directly in front of d in some text, and neither is a URL. */
  predicate Beside(texts: seq<Text>, s: Name, d: Name) {
    Plain(s) && Plain(d) && PairsIn(texts, s, d) > 0
  }

  /** A walk that fails for want of links, told from the texts alone: its steps
      are neighbours in the texts, it could not have ended after 80% of the
      length, and the word it came to is followed by nothing. */
  ghost predicate Stranded(texts: seq<Text>, start: Name, length: nat, output: seq<Name>) {
    && |output| < length
    && (forall i :: 0 <= i < |output| ==> output[i] != SENTENCE_END && Beside(texts, Last(start, output[..i]), output[i]))
    && (forall i :: 4 * length / 5 < i < |output| ==> !Beside(texts, Last(start, output[..i]), SENTENCE_END))
    && !Followed(texts, Last(start, output))
  }

  lemma BesideIsUsed(ops: seq<Op>, tag: Name, s: Name, d: Name)
    requires tag != []
    ensures Beside(Texts(ops, tag), s, d) <==> Uses(ChainOf(Run(ops), tag), s, d) > 0
    ensures d == SENTENCE_END ==> (Beside(Texts(ops, tag), s, d) <==> CanEnd(ChainOf(Run(ops), tag), s))
  {
    hide Run, Texts, ChainOf, Plain, PairsIn;
    RunUses(ops, tag, s, d);
    RunPositive(ops, tag);
  }

  /** Which walks get stuck, after any run, URLs included: exactly the stranded ones. */
  lemma StrandedIff(ops: seq<Op>, tag: Name, start: Name, length: nat, output: seq<Name>)
    requires tag != []
    ensures WalkResult(ChainOf(Run(ops), tag), start, length, output, NoLinks) <==>
      Stranded(Texts(ops, tag), start, length, output)
  {
    hide Run, Texts, ChainOf, Beside, Uses, CanEnd, Last, Followed, Out;
    var c, texts := ChainOf(Run(ops), tag), Texts(ops, tag);
    StoredIffFollowed(ops, tag, Last(start, output));
    forall i | 0 <= i < |output|
      ensures Beside(texts, Last(start, output[..i]), output[i]) <==> Uses(c, Last(start, output[..i]), output[i]) > 0
      ensures Beside(texts, Last(start, output[..i]), SENTENCE_END) <==> CanEnd(c, Last(start, output[..i]))
    {
      BesideIsUsed(ops, tag, Last(start, output[..i]), output[i]);
      BesideIsUsed(ops, tag, Last(start, output[..i]), SENTENCE_END);
    }
  }

  /** A walk can get stuck if and only if some walk through the texts is stranded. */
  lemma CanStrandIff(ops: seq<Op>, tag: Name, start: Name, length: nat)
    requires tag != []
    ensures (exists output :: WalkResult(ChainOf(Run(ops), tag), start, length, output, NoLinks)) <==>
      exists output :: Stranded(Texts(ops, tag), start, length, output)
  {
    hide Run, Texts, ChainOf, Stranded, WalkResult;
    if output :| WalkResult(ChainOf(Run(ops), tag), start, length, output, NoLinks) {
      StrandedIff(ops, tag, start, length, output);
    }
    if output :| Stranded(Texts(ops, tag), start, length, output) {
      StrandedIff(ops, tag, start, length, output);
    }
  }

  /** Whatever was added, URLs or not, a walk never ends for want of uses: a word
      without followers is not there at all. */
  lemma NeverNotEnough(ops: seq<Op>, tag: Name, start: Name, length: nat, output: seq<Name>, outcome: Outcome)
    requires WalkResult(ChainOf(Run(ops), tag), start, length, output, outcome)
    ensures outcome != NotEnoughData
  {
    hide Walk, EndedLate, Out, Run, ChainOf, Positive;
    RunPositive(ops, tag);
    if outcome == NotEnoughData {
      PositiveOut(ChainOf(Run(ops), tag), Last(start, output));
    }
  }

  /** An instance: a sentence with a URL as its second word leaves nothing behind the first. */
  lemma UrlStrandsWalk(tag: Name, word: Name, url: Name)
    requires tag != [] && Plain(word) && word != SENTENCE_START && word != SENTENCE_END && LooksUrlish(url)
    ensures var ops := [AddOp(SENTENCE_START, [word, url], tag)];
      WalkResult(ChainOf(Run(ops), tag), SENTENCE_START, 50, [word], NoLinks)
  {
    hide WalkResult, Run, ChainOf;
    EndIsPlain();
    var ops := [AddOp(SENTENCE_START, [word, url], tag)];
    var text := Text(SENTENCE_START, [word, url]);
    assert ops[..0] == [] && Texts(ops[..0], tag) == [];
    assert Texts(ops, tag) == [] + [text];
    hide LooksUrlish;
    assert [word, url][1..] == [url] && [url][1..] == [];
    assert !Plain(url);
    assert Pairs(SENTENCE_START, [word, url], SENTENCE_START, word) > 0;
    PairsInSome(Texts(ops, tag), SENTENCE_START, word);
    assert !FollowedIn(word, [url], word);
    StrandedIff(ops, tag, SENTENCE_START, 50, [word]);
  }
}
