/** What unescaping keeps, position by position. */
module Unescaping {
  import opened Lexer

  /** The backslash at i goes: something is behind it, and the backslashes
      directly in front of it belong to each other in pairs. */
  predicate Dropped(s: Text, i: nat)
    requires i < |s|
  {
    s[i] == '\\' && i + 1 < |s| && Trailing(s[..i]) % 2 == 0
  }

  /** Every character from i on that does not go. */
  function KeptFrom(s: Text, i: nat): Text
    requires i <= |s|
    decreases |s| - i
  {
    if i == |s| then [] else (if Dropped(s, i) then [] else [s[i]]) + KeptFrom(s, i + 1)
  }

  lemma {:induction false} TrailingConcat(a: Text, b: Text)
    ensures Trailing(a + b) == if Trailing(b) == |b| then |b| + Trailing(a) else Trailing(b)
    decreases |b|
  {
    if b == [] {
      assert a + b == a;
    } else {
      assert (a + b)[..|a + b| - 1] == a + b[..|b| - 1];
      TrailingConcat(a, b[..|b| - 1]);
    }
  }

  /** Behind whole pairs of backslashes nothing changes. */
  lemma SameDropped(s: Text, d: nat, i: nat)
    requires d <= |s| && d + i < |s| && Trailing(s[..d]) % 2 == 0
    ensures Dropped(s, d + i) == Dropped(s[d..], i)
  {
    hide Trailing;
    assert s[..d + i] == s[..d] + s[d..][..i];
    TrailingConcat(s[..d], s[d..][..i]);
  }

  lemma {:induction false} KeptShift(s: Text, d: nat, i: nat)
    requires d <= |s| && d + i <= |s| && Trailing(s[..d]) % 2 == 0
    ensures KeptFrom(s, d + i) == KeptFrom(s[d..], i)
    decreases |s| - i
  {
    KeptEnd(s);
    KeptEnd(s[d..]);
    hide Dropped, Trailing, KeptFrom;
    if d + i < |s| {
      SameDropped(s, d, i);
      KeptShift(s, d, i + 1);
      KeptStep(s, d + i);
      KeptStep(s[d..], i);
    }
  }

  lemma KeptStep(s: Text, i: nat)
    requires i < |s|
    ensures KeptFrom(s, i) == (if Dropped(s, i) then [] else [s[i]]) + KeptFrom(s, i + 1)
  {
  }

  lemma KeptEnd(s: Text)
    ensures KeptFrom(s, |s|) == []
  {
  }

  /** Unescaping takes away every backslash that escapes something, and nothing else. */
  lemma {:induction false} UnescapeIsKept(s: Text)
    ensures Unescape(s) == KeptFrom(s, 0)
    decreases |s|
  {
    if s != [] {
      NoneInFront(s);
      if s[0] != '\\' {
        PlainFirst(s);
        KeptShift(s, 1, 0);
        UnescapeIsKept(s[1..]);
      } else if |s| > 1 {
        PairFirst(s);
        KeptShift(s, 2, 0);
        UnescapeIsKept(s[2..]);
        assert KeptFrom(s, 1) == [s[1]] + KeptFrom(s, 2);
      } else {
        assert KeptFrom(s, 1) == [];
      }
    }
  }

  lemma NoneInFront(s: Text)
    ensures Trailing(s[..0]) == 0
  {
  }

  lemma PlainFirst(s: Text)
    requires s != [] && s[0] != '\\'
    ensures Trailing(s[..1]) == 0
  {
  }

  lemma PairFirst(s: Text)
    requires |s| > 1 && s[0] == '\\'
    ensures Trailing(s[..1]) == 1 && Trailing(s[..2]) % 2 == 0
  {
    assert s[..1][..0] == [] && s[..2][..1] == s[..1];
  }
}
