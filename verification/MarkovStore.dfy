/** Word counts of a Markov chain, and the flow they conserve. */
module MarkovStore {
  import opened Wrappers
  import opened Bytes
  import opened ByteOrder

  /** Words, their followers, and how often each follower was seen. */
  type Chain = map<Name, map<Name, nat>>

  /** "!ACTION_START", "!SENTENCE_START" and "!SENTENCE_END" */
  const ACTION_START: Name := [33, 65, 67, 84, 73, 79, 78, 95, 83, 84, 65, 82, 84]
  const SENTENCE_START: Name := [33, 83, 69, 78, 84, 69, 78, 67, 69, 95, 83, 84, 65, 82, 84]
  const SENTENCE_END: Name := [33, 83, 69, 78, 84, 69, 78, 67, 69, 95, 69, 78, 68]

  /** "http://" and "https://" */
  const HTTP: Name := [104, 116, 116, 112, 58, 47, 47]
  const HTTPS: Name := [104, 116, 116, 112, 115, 58, 47, 47]

  predicate LooksUrlish(w: Name) {
    (HTTP <= w || HTTPS <= w) && 32 !in w
  }

  function ChainOf(m: map<Name, Chain>, tag: Name): Chain {
    if tag in m then m[tag] else map[]
  }

  /** How often dest was seen after source. */
  function Uses(c: Chain, source: Name, dest: Name): nat {
    if source in c && dest in c[source] then c[source][dest] else 0
  }

  /** One more use of an edge. URLs are left out, and a transaction with an
      empty name fails and leaves everything as it was. */
  function Inc(m: map<Name, Chain>, source: Name, dest: Name, tag: Name): map<Name, Chain> {
    if LooksUrlish(source) || LooksUrlish(dest) || tag == [] || source == [] || dest == [] then m
    else
      var c := ChainOf(m, tag);
      var row: map<Name, nat> := if source in c then c[source] else map[];
      m[tag := c[source := row[dest := Uses(c, source, dest) + 1]]]
  }

  /** The words of a text, one after the other, and the end. */
  function AddText(m: map<Name, Chain>, source: Name, words: seq<Name>, tag: Name): map<Name, Chain>
    decreases |words|
  {
    if words == [] then Inc(m, source, SENTENCE_END, tag)
    else AddText(Inc(m, source, words[0], tag), words[0], words[1..], tag)
  }

  ghost function SumOver(f: Name -> nat, ks: seq<Name>): nat {
    if ks == [] then 0 else f(ks[0]) + SumOver(f, ks[1..])
  }

  ghost predicate AllDistinct(ks: seq<Name>) {
    forall i, j :: 0 <= i < j < |ks| ==> ks[i] != ks[j]
  }

  /** All uses of edges that leave a word. */
  ghost function Out(c: Chain, w: Name): nat {
    if w in c then SumOver(k => Uses(c, w, k), Sorted(c[w].Keys)) else 0
  }

  /** All uses of edges that arrive at a word. */
  ghost function In(c: Chain, w: Name): nat {
    SumOver(k => Uses(c, k, w), Sorted(c.Keys))
  }

  lemma {:induction false} SumOverTakeOut(f: Name -> nat, ks: seq<Name>, i: nat)
    requires i < |ks|
    ensures SumOver(f, ks) == f(ks[i]) + SumOver(f, ks[..i] + ks[i + 1..])
    decreases i
  {
    if i == 0 {
      assert ks[..0] + ks[1..] == ks[1..];
    } else {
      var less := ks[..i] + ks[i + 1..];
      SumOverTakeOut(f, ks[1..], i - 1);
      assert less[0] == ks[0] && less[1..] == ks[1..][..i - 1] + ks[1..][i..];
    }
  }

  /** A sum that grows by one at d, over the same keys in any order, of which d may be new. */
  lemma {:induction false} SumOverBump(f: Name -> nat, g: Name -> nat, ks: seq<Name>, ls: seq<Name>, d: Name)
    requires AllDistinct(ks) && AllDistinct(ls) && d in ls
    requires forall k :: k in ls <==> k in ks || k == d
    requires forall k :: g(k) == f(k) + (if k == d then 1 else 0)
    requires d in ks || f(d) == 0
    ensures SumOver(g, ls) == SumOver(f, ks) + 1
  {
    var i :| 0 <= i < |ls| && ls[i] == d;
    var others := ls[..i] + ls[i + 1..];
    SumOverTakeOut(g, ls, i);
    if d in ks {
      var j :| 0 <= j < |ks| && ks[j] == d;
      var rest := ks[..j] + ks[j + 1..];
      SumOverTakeOut(f, ks, j);
      WithoutAre(ls, i);
      WithoutAre(ks, j);
      SumOverSame(f, g, rest, others);
    } else {
      WithoutAre(ls, i);
      SumOverSame(f, g, ks, others);
    }
  }

  lemma WithoutAre(ks: seq<Name>, i: nat)
    requires i < |ks| && AllDistinct(ks)
    ensures var r := ks[..i] + ks[i + 1..]; AllDistinct(r) && forall k :: k in r <==> k in ks && k != ks[i]
  {
    var r := ks[..i] + ks[i + 1..];
    forall k | k in ks && k != ks[i] ensures k in r {
      var j :| 0 <= j < |ks| && ks[j] == k;
      assert j < i ==> r[j] == k;
      assert j > i ==> r[j - 1] == k;
    }
  }

  lemma HasMember(ls: seq<Name>)
    requires ls != []
    ensures exists k :: k in ls
  {
    assert ls[0] in ls;
  }

  lemma {:induction false} SumOverSame(f: Name -> nat, g: Name -> nat, ks: seq<Name>, ls: seq<Name>)
    requires AllDistinct(ks) && AllDistinct(ls)
    requires forall k :: k in ks <==> k in ls
    requires forall k :: k in ks ==> f(k) == g(k)
    ensures SumOver(f, ks) == SumOver(g, ls)
    decreases |ks|
  {
    if ks == [] {
      if ls != [] { HasMember(ls); }
    } else {
      assert ks[0] in ls;
      var i :| 0 <= i < |ls| && ls[i] == ks[0];
      SumOverTakeOut(g, ls, i);
      WithoutAre(ls, i);
      WithoutAre(ks, 0);
      assert ks[..0] + ks[1..] == ks[1..];
      SumOverSame(f, g, ks[1..], ls[..i] + ls[i + 1..]);
    }
  }

  /** The words of a text as they come from splitting it at white space, without URLs. */
  predicate Plain(w: Name) {
    w != [] && !LooksUrlish(w)
  }

  function One(b: bool): nat {
    if b then 1 else 0
  }

  lemma IncUsesAre(m: map<Name, Chain>, source: Name, dest: Name, tag: Name, x: Name, y: Name)
    requires Plain(source) && Plain(dest) && tag != []
    ensures Uses(ChainOf(Inc(m, source, dest, tag), tag), x, y) ==
      Uses(ChainOf(m, tag), x, y) + One(x == source && y == dest)
  {
  }

  /** One use adds one to what leaves the source and one to what arrives at the destination. */
  lemma IncFlow(m: map<Name, Chain>, source: Name, dest: Name, tag: Name, y: Name)
    requires Plain(source) && Plain(dest) && tag != []
    ensures var (c, c') := (ChainOf(m, tag), ChainOf(Inc(m, source, dest, tag), tag));
      Out(c', y) == Out(c, y) + One(y == source) && In(c', y) == In(c, y) + One(y == dest)
  {
    var c, c' := ChainOf(m, tag), ChainOf(Inc(m, source, dest, tag), tag);
    OutAfter(m, source, dest, tag, y);
    InAfter(m, source, dest, tag, y);
  }

  lemma OutAfter(m: map<Name, Chain>, source: Name, dest: Name, tag: Name, y: Name)
    requires Plain(source) && Plain(dest) && tag != []
    ensures Out(ChainOf(Inc(m, source, dest, tag), tag), y) == Out(ChainOf(m, tag), y) + One(y == source)
  {
    hide Sorted, SumOver, Plain, LooksUrlish, Less;
    var c, c' := ChainOf(m, tag), ChainOf(Inc(m, source, dest, tag), tag);
    forall k ensures Uses(c', y, k) == Uses(c, y, k) + One(y == source && k == dest) {
      IncUsesAre(m, source, dest, tag, y, k);
    }
    IncShape(m, source, dest, tag);
    hide Inc, Uses;
    if y in c {
      SortedDistinct(c[y].Keys);
    }
    if y in c' {
      SortedDistinct(c'[y].Keys);
    }
    if y == source {
      SumOverEmpty(k => Uses(c, y, k));
      SumOverBump(k => Uses(c, y, k), k => Uses(c', y, k), if y in c then Sorted(c[y].Keys) else [], Sorted(c'[y].Keys), dest);
    } else if y in c {
      SumOverSame(k => Uses(c, y, k), k => Uses(c', y, k), Sorted(c[y].Keys), Sorted(c'[y].Keys));
    }
  }

  lemma SumOverEmpty(f: Name -> nat)
    ensures SumOver(f, []) == 0
  {
  }

  lemma IncShape(m: map<Name, Chain>, source: Name, dest: Name, tag: Name)
    requires Plain(source) && Plain(dest) && tag != []
    ensures var (c, c') := (ChainOf(m, tag), ChainOf(Inc(m, source, dest, tag), tag));
      && c'.Keys == c.Keys + {source}
      && c'[source].Keys == (if source in c then c[source].Keys else {}) + {dest}
      && (forall w :: w in c && w != source ==> c'[w] == c[w])
      && (source !in c ==> forall k :: Uses(c, source, k) == 0)
      && (source in c && dest !in c[source] ==> Uses(c, source, dest) == 0)
  {
  }

  lemma InAfter(m: map<Name, Chain>, source: Name, dest: Name, tag: Name, y: Name)
    requires Plain(source) && Plain(dest) && tag != []
    ensures In(ChainOf(Inc(m, source, dest, tag), tag), y) == In(ChainOf(m, tag), y) + One(y == dest)
  {
    hide Sorted, SumOver, Plain, LooksUrlish, Less;
    var c, c' := ChainOf(m, tag), ChainOf(Inc(m, source, dest, tag), tag);
    forall k ensures Uses(c', k, y) == Uses(c, k, y) + One(k == source && y == dest) {
      IncUsesAre(m, source, dest, tag, k, y);
    }
    IncShape(m, source, dest, tag);
    hide Inc, Uses;
    SortedDistinct(c.Keys);
    SortedDistinct(c'.Keys);
    if y == dest {
      SumOverBump(k => Uses(c, k, y), k => Uses(c', k, y), Sorted(c.Keys), Sorted(c'.Keys), source);
    } else if source in c {
      SumOverSame(k => Uses(c, k, y), k => Uses(c', k, y), Sorted(c.Keys), Sorted(c'.Keys));
    } else {
      SumOverNew(k => Uses(c, k, y), k => Uses(c', k, y), Sorted(c.Keys), Sorted(c'.Keys), source);
    }
  }

  /** A new key that counts nothing changes no sum. */
  lemma SumOverNew(f: Name -> nat, g: Name -> nat, ks: seq<Name>, ls: seq<Name>, d: Name)
    requires AllDistinct(ks) && AllDistinct(ls) && d !in ks && d in ls
    requires forall k :: k in ls <==> k in ks || k == d
    requires forall k :: g(k) == f(k)
    requires f(d) == 0
    ensures SumOver(g, ls) == SumOver(f, ks)
  {
    hide SumOver;
    var i :| 0 <= i < |ls| && ls[i] == d;
    SumOverTakeOut(g, ls, i);
    WithoutAre(ls, i);
    SumOverSame(f, g, ks, ls[..i] + ls[i + 1..]);
  }

  /** The word behind the first one of a text: the next word, or the end. */
  function Following(words: seq<Name>): Name {
    if words == [] then SENTENCE_END else words[0]
  }

  /** How often w stands directly in front of a word that is left out. */
  function Cut(source: Name, words: seq<Name>, w: Name): nat
    decreases |words|
  {
    One(source == w && !Plain(Following(words))) + if words == [] then 0 else Cut(words[0], words[1..], w)
  }

  /** How often w stands directly behind a word that is left out. */
  function Resumed(source: Name, words: seq<Name>, w: Name): nat
    decreases |words|
  {
    One(!Plain(source) && Following(words) == w) + if words == [] then 0 else Resumed(words[0], words[1..], w)
  }

  /** Exact flow of one text, with URLs or without: what leaves a word minus what
      arrives at it grows by one for the start and wherever the word stands
      behind a URL, and shrinks by one for the end and wherever it stands in front of one. */
  lemma {:induction false} AddTextFlow(m: map<Name, Chain>, source: Name, words: seq<Name>, tag: Name, y: Name)
    requires Plain(y) && tag != []
    ensures var (c, c') := (ChainOf(m, tag), ChainOf(AddText(m, source, words, tag), tag));
      Out(c', y) - In(c', y) == Out(c, y) - In(c, y)
        + One(y == source) - One(y == SENTENCE_END) - Cut(source, words, y) + Resumed(source, words, y)
    decreases |words|
  {
    hide Out, In, Inc, Plain, ChainOf;
    EndIsPlain();
    var next := Following(words);
    if Plain(source) && Plain(next) {
      IncFlow(m, source, next, tag, y);
    } else {
      IncNothing(m, source, next, tag);
    }
    if words != [] {
      AddTextFlow(Inc(m, source, words[0], tag), words[0], words[1..], tag, y);
    }
  }

  lemma IncNothing(m: map<Name, Chain>, source: Name, dest: Name, tag: Name)
    requires !Plain(source) || !Plain(dest) || tag == []
    ensures Inc(m, source, dest, tag) == m
  {
    hide LooksUrlish;
  }

  lemma EndIsPlain()
    ensures Plain(SENTENCE_END) && Plain(SENTENCE_START) && Plain(ACTION_START)
  {
    assert SENTENCE_END[0] != HTTP[0] && SENTENCE_START[0] != HTTP[0] && ACTION_START[0] != HTTP[0];
    assert SENTENCE_END[0] != HTTPS[0] && SENTENCE_START[0] != HTTPS[0] && ACTION_START[0] != HTTPS[0];
  }

  /** Other tags are untouched. */
  lemma {:induction false} AddTextElsewhere(m: map<Name, Chain>, source: Name, words: seq<Name>, tag: Name, other: Name)
    requires other != tag
    ensures ChainOf(AddText(m, source, words, tag), other) == ChainOf(m, other)
    decreases |words|
  {
    hide LooksUrlish, Uses;
    if words != [] {
      AddTextElsewhere(Inc(m, source, words[0], tag), words[0], words[1..], tag, other);
    }
  }

  /** Every word that is there has followers, and no count is zero. */
  ghost predicate Positive(c: Chain) {
    (forall s :: s in c ==> c[s].Keys != {}) && forall s, d :: s in c && d in c[s] ==> c[s][d] > 0
  }

  lemma PositiveOut(c: Chain, w: Name)
    requires Positive(c) && w in c
    ensures Out(c, w) > 0
  {
    hide Sorted;
    var d :| d in c[w].Keys;
    var ks := Sorted(c[w].Keys);
    assert d in ks;
    var i :| 0 <= i < |ks| && ks[i] == d;
    SumOverTakeOut(k => Uses(c, w, k), ks, i);
  }

  lemma IncPositive(m: map<Name, Chain>, source: Name, dest: Name, tag: Name, t: Name)
    requires Positive(ChainOf(m, t))
    ensures Positive(ChainOf(Inc(m, source, dest, tag), t))
  {
    hide LooksUrlish;
    var c, c' := ChainOf(m, t), ChainOf(Inc(m, source, dest, tag), t);
    if c' != c {
      assert dest in c'[source];
      forall s | s in c' ensures c'[s].Keys != {} {
        if s != source {
          assert c'[s] == c[s];
        }
      }
    }
  }

  lemma {:induction false} AddTextPositive(m: map<Name, Chain>, source: Name, words: seq<Name>, tag: Name, t: Name)
    requires Positive(ChainOf(m, t))
    ensures Positive(ChainOf(AddText(m, source, words, tag), t))
    decreases |words|
  {
    hide Inc, Positive;
    if words == [] {
      IncPositive(m, source, SENTENCE_END, tag, t);
    } else {
      IncPositive(m, source, words[0], tag, t);
      AddTextPositive(Inc(m, source, words[0], tag), words[0], words[1..], tag, t);
    }
  }
}
