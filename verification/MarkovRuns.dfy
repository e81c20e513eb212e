/** Whole runs of additions to Markov chains: what they store, read off the texts alone. */
module MarkovRuns {
  import opened Bytes
  import opened ByteOrder
  import opened MarkovStore

  /** Adding a text under a tag, or clearing a tag. */
  datatype Op = AddOp(source: Name, words: seq<Name>, tag: Name) | ClearOp(tag: Name)

  function Apply(m: map<Name, Chain>, op: Op): map<Name, Chain> {
    match op
    case AddOp(source, words, tag) => AddText(m, source, words, tag)
    case ClearOp(tag) => m - {tag}
  }

  function Run(ops: seq<Op>): map<Name, Chain>
    decreases |ops|
  {
    if ops == [] then map[] else Apply(Run(ops[..|ops| - 1]), ops[|ops| - 1])
  }

  datatype Text = Text(source: Name, words: seq<Name>)

  /** The texts that were added under a tag since it was last cleared. */
  function Texts(ops: seq<Op>, tag: Name): seq<Text>
    decreases |ops|
  {
    if ops == [] then []
    else
      var op, before := ops[|ops| - 1], Texts(ops[..|ops| - 1], tag);
      if op.tag != tag then before
      else if op.ClearOp? then []
      else before + [Text(op.source, op.words)]
  }

  /** How often d stands directly behind s in a text, which ends in the end marker. */
  function Pairs(source: Name, words: seq<Name>, s: Name, d: Name): nat
    decreases |words|
  {
    One(source == s && Following(words) == d) + if words == [] then 0 else Pairs(words[0], words[1..], s, d)
  }

  function PairsIn(texts: seq<Text>, s: Name, d: Name): nat {
    if texts == [] then 0
    else PairsIn(texts[..|texts| - 1], s, d) + Pairs(texts[|texts| - 1].source, texts[|texts| - 1].words, s, d)
  }

  lemma {:induction false} AddTextUses(m: map<Name, Chain>, source: Name, words: seq<Name>, tag: Name, s: Name, d: Name)
    ensures Uses(ChainOf(AddText(m, source, words, tag), tag), s, d) ==
      Uses(ChainOf(m, tag), s, d) + if tag != [] && Plain(s) && Plain(d) then Pairs(source, words, s, d) else 0
    decreases |words|
  {
    hide Uses, Inc, Plain, ChainOf;
    EndIsPlain();
    var next := Following(words);
    if tag != [] && Plain(source) && Plain(next) {
      IncUsesAre(m, source, next, tag, s, d);
    } else {
      IncNothing(m, source, next, tag);
    }
    if words != [] {
      AddTextUses(Inc(m, source, words[0], tag), words[0], words[1..], tag, s, d);
    }
  }

  lemma RunSnoc(ops: seq<Op>, tag: Name)
    requires ops != []
    ensures var (before, op) := (ops[..|ops| - 1], ops[|ops| - 1]);
      && (op.tag != tag ==> ChainOf(Run(ops), tag) == ChainOf(Run(before), tag) && Texts(ops, tag) == Texts(before, tag))
      && (op.tag == tag && op.ClearOp? ==> ChainOf(Run(ops), tag) == map[] && Texts(ops, tag) == [])
      && (op.tag == tag && op.AddOp? ==>
            && ChainOf(Run(ops), tag) == ChainOf(AddText(Run(before), op.source, op.words, tag), tag)
            && Texts(ops, tag) == Texts(before, tag) + [Text(op.source, op.words)])
  {
    hide AddText;
    var before, op := ops[..|ops| - 1], ops[|ops| - 1];
    if op.AddOp? && op.tag != tag {
      AddTextElsewhere(Run(before), op.source, op.words, op.tag, tag);
    }
  }

  /** What a run stores, URLs included: each pair of neighbours that are both
      words, exactly as often as it occurs in the texts since the last clearing. */
  lemma {:induction false} RunUses(ops: seq<Op>, tag: Name, s: Name, d: Name)
    ensures Uses(ChainOf(Run(ops), tag), s, d) ==
      if tag != [] && Plain(s) && Plain(d) then PairsIn(Texts(ops, tag), s, d) else 0
    decreases |ops|
  {
    hide Run, Texts, ChainOf, AddText, Plain, Pairs;
    if ops == [] {
      NothingYet(tag);
    } else {
      var before, op := ops[..|ops| - 1], ops[|ops| - 1];
      RunUses(before, tag, s, d);
      RunSnoc(ops, tag);
      if op.tag == tag && op.AddOp? {
        AddTextUses(Run(before), op.source, op.words, tag, s, d);
        assert (Texts(before, tag) + [Text(op.source, op.words)])[..|Texts(before, tag)|] == Texts(before, tag);
      }
    }
  }

  lemma NothingYet(tag: Name)
    ensures ChainOf(Run([]), tag) == map[] && Texts([], tag) == []
  {
  }

  lemma {:induction false} RunPositive(ops: seq<Op>, tag: Name)
    ensures Positive(ChainOf(Run(ops), tag))
    decreases |ops|
  {
    hide AddText, Positive, ChainOf, Run, Texts;
    NothingPositive();
    if ops == [] {
      NothingYet(tag);
    } else {
      RunPositive(ops[..|ops| - 1], tag);
      RunSnoc(ops, tag);
      var op := ops[|ops| - 1];
      if op.AddOp? {
        AddTextPositive(Run(ops[..|ops| - 1]), op.source, op.words, tag, tag);
      }
    }
  }

  lemma NothingPositive()
    ensures Positive(map[])
  {
  }

  /** In a text, w stands directly in front of something that is no URL, or at the end. */
  predicate FollowedIn(source: Name, words: seq<Name>, w: Name)
    decreases |words|
  {
    (source == w && Plain(Following(words))) || (words != [] && FollowedIn(words[0], words[1..], w))
  }

  /** In some text since the last clearing, the word w is followed by a word or by the end. */
  predicate Followed(texts: seq<Text>, w: Name) {
    Plain(w) && exists i :: 0 <= i < |texts| && FollowedIn(texts[i].source, texts[i].words, w)
  }

  lemma {:induction false} FollowedHasPair(source: Name, words: seq<Name>, w: Name) returns (d: Name)
    requires FollowedIn(source, words, w)
    ensures Plain(d) && Pairs(source, words, w, d) > 0
    decreases |words|
  {
    hide Plain;
    if source == w && Plain(Following(words)) {
      d := Following(words);
    } else {
      d := FollowedHasPair(words[0], words[1..], w);
    }
  }

  lemma {:induction false} PairIsFollowed(source: Name, words: seq<Name>, w: Name, d: Name)
    requires Plain(d) && Pairs(source, words, w, d) > 0
    ensures FollowedIn(source, words, w)
    decreases |words|
  {
    hide Plain;
    if !(source == w && Following(words) == d) {
      PairIsFollowed(words[0], words[1..], w, d);
    }
  }

  lemma {:induction false} PairsInSome(texts: seq<Text>, s: Name, d: Name)
    ensures PairsIn(texts, s, d) > 0 <==> exists i :: 0 <= i < |texts| && Pairs(texts[i].source, texts[i].words, s, d) > 0
    decreases |texts|
  {
    hide Pairs;
    if texts != [] {
      PairsInSome(texts[..|texts| - 1], s, d);
    }
  }

  /** Which words are there after a run, URLs included: exactly those that are
      followed by a word or by the end in some text. */
  lemma StoredIffFollowed(ops: seq<Op>, tag: Name, w: Name)
    requires tag != []
    ensures w in ChainOf(Run(ops), tag) <==> Followed(Texts(ops, tag), w)
  {
    hide Run, Texts, ChainOf, Plain, Pairs, PairsIn, FollowedIn;
    var c, texts := ChainOf(Run(ops), tag), Texts(ops, tag);
    RunPositive(ops, tag);
    if w in c {
      var d :| d in c[w].Keys;
      RunUses(ops, tag, w, d);
      PairsInSome(texts, w, d);
      var i :| 0 <= i < |texts| && Pairs(texts[i].source, texts[i].words, w, d) > 0;
      PairIsFollowed(texts[i].source, texts[i].words, w, d);
    }
    if Followed(texts, w) {
      var i :| 0 <= i < |texts| && FollowedIn(texts[i].source, texts[i].words, w);
      var d := FollowedHasPair(texts[i].source, texts[i].words, w);
      RunUses(ops, tag, w, d);
      PairsInSome(texts, w, d);
    }
  }

  function StartsIn(texts: seq<Text>, w: Name): nat {
    if texts == [] then 0 else StartsIn(texts[..|texts| - 1], w) + One(texts[|texts| - 1].source == w)
  }

  function CutsIn(texts: seq<Text>, w: Name): nat {
    if texts == [] then 0
    else CutsIn(texts[..|texts| - 1], w) + Cut(texts[|texts| - 1].source, texts[|texts| - 1].words, w)
  }

  function ResumesIn(texts: seq<Text>, w: Name): nat {
    if texts == [] then 0
    else ResumesIn(texts[..|texts| - 1], w) + Resumed(texts[|texts| - 1].source, texts[|texts| - 1].words, w)
  }

  /** Flow over every run, URLs included: what leaves a word less what arrives at
      it is the number of texts that start at the word, less all texts for the
      end, less the places where the word is in front of a URL, plus those where
      it is behind one. */
  lemma {:induction false} RunFlow(ops: seq<Op>, tag: Name, w: Name)
    requires tag != [] && Plain(w)
    ensures var (c, texts) := (ChainOf(Run(ops), tag), Texts(ops, tag));
      Out(c, w) - In(c, w) ==
        StartsIn(texts, w) - (if w == SENTENCE_END then |texts| else 0) - CutsIn(texts, w) + ResumesIn(texts, w)
    decreases |ops|
  {
    hide Run, Texts, ChainOf, Out, In, Plain, AddText, Cut, Resumed;
    NoFlow(w);
    if ops == [] {
      NothingYet(tag);
    } else {
      var before, op := ops[..|ops| - 1], ops[|ops| - 1];
      RunFlow(before, tag, w);
      RunSnoc(ops, tag);
      if op.tag == tag && op.AddOp? {
        AddTextFlow(Run(before), op.source, op.words, tag, w);
        assert (Texts(before, tag) + [Text(op.source, op.words)])[..|Texts(before, tag)|] == Texts(before, tag);
      }
    }
  }

  lemma NoFlow(w: Name)
    ensures Out(map[], w) == 0 && In(map[], w) == 0
  {
    SortedEmpty();
    var c: Chain := map[];
    assert c.Keys == {};
  }

  /** What is no word is neither left nor reached. */
  lemma UrlFlow(ops: seq<Op>, tag: Name, w: Name)
    requires !Plain(w)
    ensures Out(ChainOf(Run(ops), tag), w) == 0 && In(ChainOf(Run(ops), tag), w) == 0
  {
    hide Run, ChainOf, Plain, Uses, Sorted, SumOver;
    var c := ChainOf(Run(ops), tag);
    forall k ensures Uses(c, w, k) == 0 && Uses(c, k, w) == 0 {
      RunUses(ops, tag, w, k);
      RunUses(ops, tag, k, w);
    }
    SumOverNothing(k => Uses(c, k, w), Sorted(c.Keys));
    if w in c {
      SumOverNothing(k => Uses(c, w, k), Sorted(c[w].Keys));
    }
  }

  lemma {:induction false} SumOverNothing(f: Name -> nat, ks: seq<Name>)
    requires forall k :: f(k) == 0
    ensures SumOver(f, ks) == 0
  {
    if ks != [] {
      SumOverNothing(f, ks[1..]);
    }
  }

  /** Every text starts at a marker, as sentences and actions do. */
  predicate Marked(texts: seq<Text>) {
    forall i :: 0 <= i < |texts| ==> texts[i].source in {ACTION_START, SENTENCE_START}
  }

  predicate UrlFree(texts: seq<Text>) {
    forall i :: 0 <= i < |texts| ==> Plain(texts[i].source) && forall j :: 0 <= j < |texts[i].words| ==> Plain(texts[i].words[j])
  }

  lemma {:induction false} MarkedStarts(texts: seq<Text>, w: Name)
    requires Marked(texts) && w !in {ACTION_START, SENTENCE_START}
    ensures StartsIn(texts, w) == 0
    decreases |texts|
  {
    if texts != [] {
      MarkedStarts(texts[..|texts| - 1], w);
    }
  }

  lemma {:induction false} PlainTextUncut(source: Name, words: seq<Name>, w: Name)
    requires Plain(source) && forall j :: 0 <= j < |words| ==> Plain(words[j])
    ensures Cut(source, words, w) == 0 == Resumed(source, words, w)
    decreases |words|
  {
    hide Plain;
    EndIsPlain();
    if words != [] {
      PlainTextUncut(words[0], words[1..], w);
    }
  }

  lemma {:induction false} UrlFreeUncut(texts: seq<Text>, w: Name)
    requires UrlFree(texts)
    ensures CutsIn(texts, w) == 0 == ResumesIn(texts, w)
    decreases |texts|
  {
    hide Plain, Cut, Resumed;
    if texts != [] {
      var last := texts[|texts| - 1];
      PlainTextUncut(last.source, last.words, w);
      UrlFreeUncut(texts[..|texts| - 1], w);
    }
  }

  /** Sentences and actions, URLs included: a word that is no marker is left as
      often as it is reached exactly when it stands in front of URLs as often as
      behind them, and any word but the end is left at least as often exactly
      when it starts texts and stands behind URLs at least as often as in front of them. */
  lemma FlowConservedIff(ops: seq<Op>, tag: Name, w: Name)
    requires tag != [] && Plain(w) && w != SENTENCE_END && Marked(Texts(ops, tag))
    ensures var (c, texts) := (ChainOf(Run(ops), tag), Texts(ops, tag));
      && (w !in {ACTION_START, SENTENCE_START} ==> (Out(c, w) == In(c, w) <==> CutsIn(texts, w) == ResumesIn(texts, w)))
      && (Out(c, w) >= In(c, w) <==> StartsIn(texts, w) + ResumesIn(texts, w) >= CutsIn(texts, w))
  {
    hide Out, In, Plain, Run, Texts, ChainOf, Marked, StartsIn, CutsIn, ResumesIn;
    RunFlow(ops, tag, w);
    if w !in {ACTION_START, SENTENCE_START} {
      MarkedStarts(Texts(ops, tag), w);
    }
  }

  /** Sentences and actions without URLs: a word that is no marker is left exactly
      as often as it is reached, and no word but the end is left less often. */
  lemma FlowConserved(ops: seq<Op>, tag: Name, w: Name)
    requires tag != [] && Marked(Texts(ops, tag)) && UrlFree(Texts(ops, tag))
    ensures var c := ChainOf(Run(ops), tag);
      && (w !in {ACTION_START, SENTENCE_START, SENTENCE_END} ==> Out(c, w) == In(c, w))
      && (w != SENTENCE_END ==> Out(c, w) >= In(c, w))
  {
    hide Out, In, Plain, Run, Texts, ChainOf, Marked, UrlFree, StartsIn, CutsIn, ResumesIn;
    if Plain(w) {
      RunFlow(ops, tag, w);
      UrlFreeUncut(Texts(ops, tag), w);
      if w !in {ACTION_START, SENTENCE_START} {
        MarkedStarts(Texts(ops, tag), w);
      }
    } else {
      UrlFlow(ops, tag, w);
    }
  }
}
