/** The byte-wise order of keys in a bucket, and the sequence in which a cursor visits them. */
module ByteOrder {
  import opened Bytes

  type Name = seq<byte>

  predicate Less(a: Name, b: Name) {
    if b == [] then false
    else if a == [] then true
    else a[0] < b[0] || (a[0] == b[0] && Less(a[1..], b[1..]))
  }

  lemma {:induction false} Irreflexive(a: Name)
    ensures !Less(a, a)
  {
    if a != [] {
      Irreflexive(a[1..]);
    }
  }

  lemma {:induction false} Transitive(a: Name, b: Name, c: Name)
    requires Less(a, b) && Less(b, c)
    ensures Less(a, c)
  {
    if a != [] && b[0] == a[0] && c[0] == b[0] {
      Transitive(a[1..], b[1..], c[1..]);
    }
  }

  lemma {:induction false} Total(a: Name, b: Name)
    ensures Less(a, b) || a == b || Less(b, a)
  {
    if a != [] && b != [] && a[0] == b[0] {
      Total(a[1..], b[1..]);
      assert a == [a[0]] + a[1..] && b == [b[0]] + b[1..];
    }
  }

  /** A common prefix does not matter. */
  lemma {:induction false} SamePrefix(p: Name, a: Name, b: Name)
    ensures Less(p + a, p + b) <==> Less(a, b)
    decreases |p|
  {
    if p == [] {
      assert p + a == a && p + b == b;
    } else {
      assert (p + a)[1..] == p[1..] + a && (p + b)[1..] == p[1..] + b;
      SamePrefix(p[1..], a, b);
    }
  }

  ghost predicate IsLeast(x: Name, s: set<Name>) {
    x in s && forall y :: y in s ==> y == x || Less(x, y)
  }

  lemma {:induction false} LeastExists(s: set<Name>) returns (x: Name)
    requires s != {}
    ensures IsLeast(x, s)
    decreases |s|
  {
    var y :| y in s;
    if s == {y} {
      x := y;
    } else {
      var z := LeastExists(s - {y});
      Total(y, z);
      if Less(y, z) {
        x := y;
        forall w | w in s ensures w == y || Less(y, w) {
          if w != y && w != z { Transitive(y, z, w); }
        }
      } else {
        x := z;
      }
    }
  }

  lemma LeastExistsHere(s: set<Name>)
    requires s != {}
    ensures exists x :: IsLeast(x, s)
  {
    var x := LeastExists(s);
  }

  ghost function Least(s: set<Name>): (x: Name)
    requires s != {}
    ensures IsLeast(x, s)
  {
    LeastExistsHere(s);
    var x :| IsLeast(x, s);
    x
  }

  /** The keys in the order a cursor goes through them. */
  ghost function Sorted(s: set<Name>): (ks: seq<Name>)
    ensures forall k :: k in ks <==> k in s
    ensures forall i, j :: 0 <= i < j < |ks| ==> Less(ks[i], ks[j])
    decreases |s|
  {
    if s == {} then []
    else
      var x := Least(s);
      [x] + Sorted(s - {x})
  }

  /** Every key is visited once. */
  lemma SortedDistinct(s: set<Name>)
    ensures forall i, j :: 0 <= i < j < |Sorted(s)| ==> Sorted(s)[i] != Sorted(s)[j]
  {
    forall i, j | 0 <= i < j < |Sorted(s)| ensures Sorted(s)[i] != Sorted(s)[j] {
      Irreflexive(Sorted(s)[i]);
    }
  }

  lemma SortedStep(x: Name, s: set<Name>)
    requires IsLeast(x, s)
    ensures Sorted(s) == [x] + Sorted(s - {x})
  {
    LeastUnique(x, Least(s), s);
  }

  lemma SortedEmpty()
    ensures Sorted({}) == []
  {
  }

  /** A cursor: First and then Next until the end. */
  method CursorKeys(s: set<Name>) returns (ks: seq<Name>)
    ensures ks == Sorted(s)
  {
    hide Sorted, Less;
    ks := [];
    var rest := s;
    assert [] + Sorted(s) == Sorted(s);
    while rest != {}
      invariant Sorted(s) == ks + Sorted(rest)
      decreases |rest|
    {
      LeastExistsHere(rest);
      var x :| x in rest && forall y :: y in rest ==> y == x || Less(x, y);
      SortedStep(x, rest);
      assert ks + ([x] + Sorted(rest - {x})) == ks + [x] + Sorted(rest - {x});
      ks := ks + [x];
      rest := rest - {x};
    }
    SortedEmpty();
    assert ks + [] == ks;
  }

  lemma LeastUnique(x: Name, y: Name, s: set<Name>)
    requires IsLeast(x, s) && IsLeast(y, s)
    ensures x == y
  {
    if x != y {
      Transitive(x, y, x);
      Irreflexive(x);
    }
  }
}
