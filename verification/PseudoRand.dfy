/** Drawing random factoids without repeating one before all were drawn. */
module PseudoRand {
  import opened Wrappers

  type Id = string

  /** A factoid: its object id and the rest of it. */
  datatype Fact = Fact(id: Id, value: string)

  predicate DistinctIds(facts: seq<Fact>) {
    forall i, j :: 0 <= i < j < |facts| ==> facts[i].id != facts[j].id
  }

  /** The factoids whose ids have not been seen. */
  function Unseen(facts: seq<Fact>, ids: set<Id>): seq<Fact> {
    if facts == [] then []
    else (if facts[0].id in ids then [] else [facts[0]]) + Unseen(facts[1..], ids)
  }

  function Ids(cache: Option<set<Id>>): set<Id> {
    if cache.Some? then cache.value else {}
  }

  /** One draw: what it returns and what the key's cache is afterwards. */
  predicate Draw(before: Option<set<Id>>, facts: seq<Fact>, r: Option<Fact>, after: Option<set<Id>>) {
    var filtered := Unseen(facts, Ids(before));
    if |filtered| == 0 then r == None && after == None
    else if |filtered| == 1 then r == Some(filtered[0]) && after == None
    else r.Some? && r.value in filtered && after == Some(Ids(before) + {r.value.id})
  }

  /** A run of draws from an unchanged collection, with the caches between them. */
  ghost predicate Draws(facts: seq<Fact>, rs: seq<Fact>, caches: seq<Option<set<Id>>>) {
    |caches| == |rs| + 1 && forall i :: 0 <= i < |rs| ==> Draw(caches[i], facts, Some(rs[i]), caches[i + 1])
  }

  lemma {:induction false} UnseenAll(facts: seq<Fact>)
    ensures Unseen(facts, {}) == facts
  {
    if facts != [] {
      UnseenAll(facts[1..]);
      assert facts == [facts[0]] + facts[1..];
    }
  }

  lemma {:induction false} UnseenAre(facts: seq<Fact>, ids: set<Id>, f: Fact)
    ensures f in Unseen(facts, ids) <==> f in facts && f.id !in ids
  {
    if facts != [] {
      UnseenAre(facts[1..], ids, f);
      assert f in facts <==> f == facts[0] || f in facts[1..];
    }
  }

  lemma {:induction false} UnseenOther(facts: seq<Fact>, ids: set<Id>, id: Id)
    requires forall f :: f in facts ==> f.id != id
    ensures Unseen(facts, ids + {id}) == Unseen(facts, ids)
  {
    if facts != [] {
      UnseenOther(facts[1..], ids, id);
    }
  }

  /** Seeing one more factoid takes exactly that one out. */
  lemma {:induction false} UnseenLess(facts: seq<Fact>, ids: set<Id>, r: Fact)
    requires DistinctIds(facts) && r in Unseen(facts, ids)
    ensures multiset(Unseen(facts, ids)) == multiset(Unseen(facts, ids + {r.id})) + multiset{r}
  {
    UnseenAre(facts, ids, r);
    var head, rest := facts[0], facts[1..];
    if head == r {
      UnseenOther(rest, ids, r.id);
    } else {
      assert r in rest;
      assert head.id != r.id;
      UnseenAre(rest, ids, r);
      UnseenLess(rest, ids, r);
    }
  }

  /** While it lasts, a block accounts for every factoid: drawn or not yet drawn. */
  lemma {:induction false} DrawnOrLeft(facts: seq<Fact>, rs: seq<Fact>, caches: seq<Option<set<Id>>>, i: nat)
    requires DistinctIds(facts) && Draws(facts, rs, caches) && caches[0] == None && i < |facts| && i <= |rs|
    ensures multiset(rs[..i]) + multiset(Unseen(facts, Ids(caches[i]))) == multiset(facts)
    ensures i > 0 ==> caches[i].Some? && caches[i].value != {}
  {
    hide Unseen;
    if i == 0 {
      UnseenAll(facts);
    } else {
      DrawnOrLeft(facts, rs, caches, i - 1);
      var left := Unseen(facts, Ids(caches[i - 1]));
      SizesAddUp(rs[..i - 1], left, facts);
      assert Draw(caches[i - 1], facts, Some(rs[i - 1]), caches[i]);
      UnseenLess(facts, Ids(caches[i - 1]), rs[i - 1]);
      assert rs[..i] == rs[..i - 1] + [rs[i - 1]];
    }
  }

  lemma SizesAddUp(a: seq<Fact>, b: seq<Fact>, c: seq<Fact>)
    requires multiset(a) + multiset(b) == multiset(c)
    ensures |a| + |b| == |c|
  {
    assert |multiset(a)| + |multiset(b)| == |multiset(a) + multiset(b)| == |multiset(c)|;
  }

  /** As many draws as there are factoids, from an empty cache: every factoid is
      drawn exactly once, whatever the random numbers, and the cache is empty again. */
  lemma BlockIsPermutation(facts: seq<Fact>, rs: seq<Fact>, caches: seq<Option<set<Id>>>)
    requires DistinctIds(facts) && Draws(facts, rs, caches) && caches[0] == None && |rs| == |facts| > 0
    ensures multiset(rs) == multiset(facts)
    ensures caches[|rs|] == None
  {
    hide Unseen;
    var n := |facts| - 1;
    DrawnOrLeft(facts, rs, caches, n);
    SizesAddUp(rs[..n], Unseen(facts, Ids(caches[n])), facts);
    assert Draw(caches[n], facts, Some(rs[n]), caches[n + 1]);
    assert rs == rs[..n] + [rs[n]];
    assert Unseen(facts, Ids(caches[n])) == [rs[n]];
  }

  lemma BlockBounds(k: nat, j: nat, n: nat)
    requires j < k
    ensures 0 <= j * n <= (j + 1) * n <= k * n && (j + 1) * n - j * n == n
  {
  }

  /** Over any number of rounds, every block of draws is a permutation. */
  lemma {:induction false} EveryBlockIsPermutation(facts: seq<Fact>, rs: seq<Fact>, caches: seq<Option<set<Id>>>, k: nat, j: nat)
    requires DistinctIds(facts) && Draws(facts, rs, caches) && caches[0] == None && facts != []
    requires |rs| == k * |facts| && j < k
    ensures 0 <= j * |facts| <= (j + 1) * |facts| <= |rs|
    ensures multiset(rs[j * |facts|..(j + 1) * |facts|]) == multiset(facts)
    ensures caches[(j + 1) * |facts|] == None
    decreases j
  {
    hide Unseen, Draw;
    var n := |facts|;
    BlockBounds(k, j, n);
    var from, to := j * n, (j + 1) * n;
    if j > 0 {
      EveryBlockIsPermutation(facts, rs, caches, k, j - 1);
    }
    assert caches[from] == None;
    var block, mid := rs[from..to], caches[from..to + 1];
    forall i | 0 <= i < |block| ensures Draw(mid[i], facts, Some(block[i]), mid[i + 1]) {
      assert block[i] == rs[from + i] && mid[i] == caches[from + i] && mid[i + 1] == caches[from + i + 1];
    }
    BlockIsPermutation(facts, block, mid);
  }

  /** With a collection that changes between draws, a factoid still does not come
      back before the cache is wiped. */
  lemma {:induction false} NoRepeatUntilWiped(facts: seq<seq<Fact>>, rs: seq<Fact>, caches: seq<Option<set<Id>>>, i: nat, j: nat)
    requires |caches| == |rs| + 1 && |facts| == |rs|
    requires forall k :: 0 <= k < |rs| ==> Draw(caches[k], facts[k], Some(rs[k]), caches[k + 1])
    requires i < j < |rs| && forall k :: i < k <= j ==> caches[k].Some?
    ensures rs[i].id in Ids(caches[j]) && rs[i].id != rs[j].id
    decreases j
  {
    hide Unseen;
    assert Draw(caches[j - 1], facts[j - 1], Some(rs[j - 1]), caches[j]);
    if i < j - 1 {
      NoRepeatUntilWiped(facts, rs, caches, i, j - 1);
    }
    assert Draw(caches[j], facts[j], Some(rs[j]), caches[j + 1]);
    UnseenAre(facts[j], Ids(caches[j]), rs[j]);
  }

  lemma UnseenStep(facts: seq<Fact>, ids: set<Id>, i: nat)
    requires i < |facts|
    ensures Unseen(facts[i..], ids) == (if facts[i].id in ids then [] else [facts[i]]) + Unseen(facts[i + 1..], ids)
  {
    assert facts[i..][0] == facts[i] && facts[i..][1..] == facts[i + 1..];
  }

  lemma UnseenEnd(facts: seq<Fact>, ids: set<Id>)
    ensures Unseen(facts[|facts|..], ids) == []
  {
  }

  /** The collection's cache of seen ids. */
  class FactoidCollection {
    var seen: map<string, set<Id>>

    constructor ()
      ensures seen == map[]
    {
      seen := map[];
    }

    function CacheOf(key: string): Option<set<Id>>
      reads this
    {
      if key in seen then Some(seen[key]) else None
    }

    /** The loop that leaves out what was seen. */
    method Filter(facts: seq<Fact>, ids: set<Id>) returns (filtered: seq<Fact>)
      ensures filtered == Unseen(facts, ids)
    {
      hide *;
      filtered := [];
      assert facts[0..] == facts && [] + Unseen(facts, ids) == Unseen(facts, ids);
      for i := 0 to |facts|
        invariant filtered + Unseen(facts[i..], ids) == Unseen(facts, ids)
      {
        UnseenStep(facts, ids, i);
        if facts[i].id !in ids {
          assert filtered + ([facts[i]] + Unseen(facts[i + 1..], ids)) == filtered + [facts[i]] + Unseen(facts[i + 1..], ids);
          filtered := filtered + [facts[i]];
        } else {
          assert [] + Unseen(facts[i + 1..], ids) == Unseen(facts[i + 1..], ids);
        }
      }
      UnseenEnd(facts, ids);
      assert filtered + [] == filtered;
    }

    /** GetPseudoRand; facts are all factoids stored for the key, and random(n)
        is the random number below n. */
    method GetPseudoRand(key: string, facts: seq<Fact>, random: nat -> nat) returns (r: Option<Fact>)
      requires forall n: nat :: n > 0 ==> random(n) < n
      modifies this
      ensures var left := Unseen(facts, Ids(old(CacheOf(key))));
        |left| > 1 ==> random(|left|) < |left| && r == Some(left[random(|left|)])
      ensures Draw(old(CacheOf(key)), facts, r, CacheOf(key))
      ensures forall k :: k != key ==> CacheOf(k) == old(CacheOf(k))
    {
      hide Unseen;
      var filtered;
      var ok := key in seen;
      if ok && seen[key] != {} {
        filtered := Filter(facts, seen[key]);
      } else {
        UnseenAll(facts);
        filtered := facts;
      }
      if |filtered| == 0 {
        if ok {
          seen := seen - {key};
        }
        return None;
      }
      if |filtered| == 1 {
        if ok {
          seen := seen - {key};
        }
        return Some(filtered[0]);
      }
      if !ok {
        seen := seen[key := {}];
      }
      var res := filtered[random(|filtered|)];
      seen := seen[key := seen[key] + {res.id}];
      r := Some(res);
    }
  }
}
