/** The string lexer, and reading text with escaped delimiters through it. */
module Lexer {
  import opened Wrappers

  /** Texts are ASCII, so that every character is one byte wide. */
  type ascii = c: char | c as int < 128
  type Text = seq<ascii>

  const BACKSLASH: ascii := '\\'
  const NUL: ascii := '\0'

  /** The length of the longest beginning of s in which every character satisfies f. */
  function Span(f: ascii -> bool, s: Text): (n: nat)
    ensures n <= |s|
    ensures forall i :: 0 <= i < n ==> f(s[i])
    ensures n < |s| ==> !f(s[n])
  {
    if s == [] || !f(s[0]) then 0 else 1 + Span(f, s[1..])
  }

  class StringLexer {
    const input: Text
    var start: nat
    var pos: nat
    var width: nat
    var eof: bool

    ghost predicate Valid()
      reads this
    {
      start <= |input| && pos <= |input| && (eof ==> pos == |input|)
    }

    constructor (text: Text)
      ensures Valid() && input == text && pos == 0
    {
      input, start, pos, width, eof := text, 0, 0, 0, false;
    }

    /** The character at the position, or NUL at the end, which is remembered. */
    method Peek() returns (r: ascii)
      requires Valid()
      modifies `width, `eof
      ensures Valid() && (eof <==> pos == |input|)
      ensures if pos < |input| then r == input[pos] && width == 1 else r == NUL && width == 0
    {
      if pos >= |input| {
        eof := true;
        width := 0;
        return NUL;
      }
      width := 1;
      r := input[pos];
    }

    method EOF() returns (r: bool)
      requires Valid()
      modifies `width, `eof
      ensures Valid() && eof == r
      ensures r <==> pos == |input|
    {
      var _ := Peek();
      r := eof;
    }

    /** Next moves past the character it returns, but not past the end. */
    method Next() returns (r: Text)
      requires Valid()
      modifies `start, `pos, `width, `eof
      ensures Valid() && start == old(pos)
      ensures if old(pos) < |input| then pos == old(pos) + 1 && r == [input[old(pos)]]
              else pos == old(pos) && r == [NUL] && eof
    {
      start := pos;
      var c := Peek();
      pos := pos + width;
      r := [c];
    }

    /** Scan moves past the longest run of characters that satisfy f. */
    method Scan(f: ascii -> bool) returns (r: Text)
      requires Valid()
      modifies `start, `pos, `width, `eof
      ensures Valid() && (eof <==> pos == |input|)
      ensures start == old(pos) && pos == start + Span(f, input[start..])
      ensures r == input[start..pos]
    {
      start := pos;
      var c := Peek();
      while f(c)
        invariant Valid() && start <= pos && start == old(pos) && (eof <==> pos == |input|)
        invariant forall i :: start <= i < pos ==> f(input[i])
        invariant if pos < |input| then c == input[pos] && width == 1 else c == NUL && width == 0
        decreases |input| - pos
      {
        if eof || width == 0 {
          break;
        }
        pos := pos + width;
        c := Peek();
      }
      r := input[start..pos];
    }

    /** Find moves to the next occurrence of r, or to the end. */
    method Find(r: ascii) returns (s: Text)
      requires Valid()
      modifies `start, `pos, `width, `eof
      ensures Valid() && (eof <==> pos == |input|)
      ensures start == old(pos) <= pos && s == input[start..pos] && r !in s
      ensures pos < |input| ==> input[pos] == r
    {
      s := Scan(n => n != r);
      assert forall i :: 0 <= i < pos - start ==> input[start..][i] == input[start + i] == s[i];
    }

    /** Rewind takes back the last Next or Scan. */
    method Rewind()
      requires Valid()
      modifies `pos, `eof
      ensures Valid() && pos == start && !eof
    {
      eof := false;
      pos := start;
    }
  }

  /** The number of backslashes at the end of s. */
  function Trailing(s: Text): (n: nat)
    ensures n <= |s|
  {
    if s == [] || s[|s| - 1] != BACKSLASH then 0 else 1 + Trailing(s[..|s| - 1])
  }

  /** Position k of s is a delimiter that is not escaped. */
  predicate EndsAt(s: Text, delim: ascii, k: nat) {
    k < |s| && s[k] == delim && Trailing(s[..k]) % 2 == 0
  }

  /** The text in s before the first delimiter that is not escaped, or all of it. */
  predicate IsRaw(s: Text, delim: ascii, n: nat) {
    && n <= |s|
    && (n == |s| || EndsAt(s, delim, n))
    && forall k :: 0 <= k < n ==> !EndsAt(s, delim, k)
  }

  lemma RawUnique(s: Text, delim: ascii, n: nat, n': nat)
    requires IsRaw(s, delim, n) && IsRaw(s, delim, n')
    ensures n == n'
  {
    hide EndsAt;
  }

  /** Where the text ends that is looked for from position k on. */
  function RawFrom(s: Text, delim: ascii, k: nat): (n: nat)
    requires k <= |s|
    ensures k <= n <= |s| && (n == |s| || EndsAt(s, delim, n))
    ensures forall i :: k <= i < n ==> !EndsAt(s, delim, i)
    decreases |s| - k
  {
    if k == |s| || EndsAt(s, delim, k) then k else RawFrom(s, delim, k + 1)
  }

  function RawEnd(s: Text, delim: ascii): (n: nat)
    ensures IsRaw(s, delim, n)
  {
    RawFrom(s, delim, 0)
  }

  /** Backslashes taken away: each one escapes the character after it. */
  function Unescape(s: Text): Text {
    if s == [] then []
    else if s[0] != BACKSLASH then [s[0]] + Unescape(s[1..])
    else if |s| == 1 then [BACKSLASH]
    else [s[1]] + Unescape(s[2..])
  }

  function EscapeOne(c: ascii, delim: ascii): Text {
    if c == delim || c == BACKSLASH then [BACKSLASH, c] else [c]
  }

  /** A backslash put before every delimiter and every backslash. */
  function Escape(t: Text, delim: ascii): Text {
    if t == [] then [] else EscapeOne(t[0], delim) + Escape(t[1..], delim)
  }

  /** Unescaping undoes escaping. */
  lemma {:induction false} UnescapeEscape(t: Text, delim: ascii)
    ensures Unescape(Escape(t, delim)) == t
  {
    if t != [] {
      UnescapeEscape(t[1..], delim);
      var one, rest := EscapeOne(t[0], delim), Escape(t[1..], delim);
      assert (one + rest)[|one|..] == rest;
      assert t == [t[0]] + t[1..];
    }
  }

  lemma {:induction false} EscapeSnoc(t: Text, c: ascii, delim: ascii)
    ensures Escape(t + [c], delim) == Escape(t, delim) + EscapeOne(c, delim)
    decreases |t|
  {
    hide EscapeOne;
    if t == [] {
      assert (t + [c])[1..] == [];
    } else {
      assert (t + [c])[1..] == t[1..] + [c];
      EscapeSnoc(t[1..], c, delim);
    }
  }

  lemma TrailingMore(s: Text, c: ascii)
    ensures Trailing(s + [c]) == if c == BACKSLASH then Trailing(s) + 1 else 0
  {
    assert (s + [c])[..|s|] == s;
  }

  /** Escaped text ends in no half escape, and holds no delimiter that is not escaped. */
  lemma {:induction false} EscapedIsRaw(t: Text, delim: ascii)
    requires delim != BACKSLASH
    ensures Trailing(Escape(t, delim)) % 2 == 0
    ensures forall k :: 0 <= k < |Escape(t, delim)| ==> !EndsAt(Escape(t, delim), delim, k)
    decreases |t|
  {
    if t != [] {
      var t', c := t[..|t| - 1], t[|t| - 1];
      EscapedIsRaw(t', delim);
      EscapeSnoc(t', c, delim);
      assert t == t' + [c];
      hide Escape, Trailing, EndsAt;
      var e := Escape(t', delim);
      EscapeMore(e, c, delim);
    }
  }

  lemma EscapeMore(e: Text, c: ascii, delim: ascii)
    requires delim != BACKSLASH && Trailing(e) % 2 == 0
    requires forall k :: 0 <= k < |e| ==> !EndsAt(e, delim, k)
    ensures Trailing(e + EscapeOne(c, delim)) % 2 == 0
    ensures forall k :: 0 <= k < |e + EscapeOne(c, delim)| ==> !EndsAt(e + EscapeOne(c, delim), delim, k)
  {
    hide Trailing;
    var one := EscapeOne(c, delim);
    var all := e + one;
    TrailingMore(e, one[0]);
    if |one| == 2 {
      TrailingMore(e + [one[0]], one[1]);
      assert e + [one[0]] + [one[1]] == all;
    }
    forall k | 0 <= k < |all| ensures !EndsAt(all, delim, k) {
      if k < |e| {
        assert all[..k] == e[..k];
        assert !EndsAt(e, delim, k);
      } else if k == |e| + 1 {
        assert all[..k] == e + [one[0]];
      }
    }
  }

  /** Whatever follows it, escaped text and a delimiter are read up to that delimiter. */
  lemma EscapedEndsAtDelimiter(t: Text, delim: ascii, rest: Text)
    requires delim != BACKSLASH
    ensures IsRaw(Escape(t, delim) + [delim] + rest, delim, |Escape(t, delim)|)
  {
    hide Escape, Trailing;
    EscapedIsRaw(t, delim);
    var e := Escape(t, delim);
    var s := e + [delim] + rest;
    assert s[..|e|] == e;
    forall k | 0 <= k < |e| ensures !EndsAt(s, delim, k) {
      assert s[..k] == e[..k];
      assert !EndsAt(e, delim, k);
    }
  }

  /** The escape round trip: text that is escaped, then followed by the delimiter
      and anything else, is read back as it was. */
  lemma EscapeRoundTrip(s: Text, t: Text, delim: ascii, rest: Text, n: nat)
    requires delim != BACKSLASH && s == Escape(t, delim) + [delim] + rest
    requires IsRaw(s, delim, n)
    ensures n == |Escape(t, delim)| && Unescape(s[..n]) == t && s[n..] == [delim] + rest
  {
    hide Escape, Unescape, IsRaw;
    EscapedEndsAtDelimiter(t, delim, rest);
    RawUnique(s, delim, n, |Escape(t, delim)|);
    assert s[..n] == Escape(t, delim);
    UnescapeEscape(t, delim);
  }

  /** A backslash as delimiter is never escaped: the text ends at the first one. */
  lemma BackslashEndsText(s: Text, n: nat)
    requires IsRaw(s, BACKSLASH, n)
    ensures BACKSLASH !in s[..n]
  {
    if BACKSLASH in s[..n] {
      var k := FirstBackslash(s[..n]);
      assert s[..n][..k] == s[..k];
      assert EndsAt(s, BACKSLASH, k);
    }
  }

  lemma {:induction false} FirstBackslash(s: Text) returns (k: nat)
    requires BACKSLASH in s
    ensures k < |s| && s[k] == BACKSLASH && Trailing(s[..k]) == 0
    decreases |s|
  {
    var n := |s| - 1;
    if BACKSLASH in s[..n] {
      k := FirstBackslash(s[..n]);
      assert s[..n][..k] == s[..k];
    } else {
      k := n;
    }
  }

  lemma {:induction false} UnescapePlain(a: Text, b: Text)
    requires BACKSLASH !in a
    ensures Unescape(a + b) == a + Unescape(b)
    decreases |a|
  {
    if a == [] {
      assert a + b == b;
    } else {
      assert (a + b)[1..] == a[1..] + b;
      UnescapePlain(a[1..], b);
    }
  }

  lemma {:induction false} EscapePlain(t: Text, delim: ascii)
    requires BACKSLASH !in t && delim !in t
    ensures Escape(t, delim) == t
  {
    if t != [] {
      EscapePlain(t[1..], delim);
      assert t == [t[0]] + t[1..];
    }
  }

  /** With a backslash as delimiter the round trip holds if and only if the text has no backslash. */
  lemma BackslashRoundTripIff(s: Text, t: Text, rest: Text, n: nat)
    requires s == Escape(t, BACKSLASH) + [BACKSLASH] + rest && IsRaw(s, BACKSLASH, n)
    ensures Unescape(s[..n]) == t && s[n..] == [BACKSLASH] + rest <==> BACKSLASH !in t
  {
    hide Escape, Unescape, Trailing;
    BackslashEndsText(s, n);
    UnescapePlain(s[..n], []);
    UnescapeEnd(s[..n]);
    assert s[..n] + [] == s[..n];
    if BACKSLASH !in t {
      EscapePlain(t, BACKSLASH);
      assert s[..|t|] == t && s[|t|] == BACKSLASH;
      FirstBackslashIsRaw(s, |t|);
      RawUnique(s, BACKSLASH, n, |t|);
    }
  }

  lemma FirstBackslashIsRaw(s: Text, k: nat)
    requires k < |s| && s[k] == BACKSLASH && BACKSLASH !in s[..k]
    ensures IsRaw(s, BACKSLASH, k)
  {
    assert forall i :: 0 <= i < k ==> s[i] == s[..k][i];
  }

  /** unescapeRx. */
  method UnescapeRx(rx: Text) returns (ret: Text)
    ensures ret == Unescape(rx)
  {
    hide Unescape;
    if BACKSLASH !in rx {
      UnescapePlain(rx, []);
      UnescapeEnd(rx);
      return rx;
    }
    ret := [];
    var l := new StringLexer(rx);
    assert rx[0..] == rx;
    while true
      invariant l.Valid() && l.input == rx && fresh(l)
      invariant Unescape(rx) == ret + Unescape(rx[l.pos..])
      decreases |rx| - l.pos
    {
      ghost var p, before := l.pos, ret;
      var s := l.Find(BACKSLASH);
      assert rx[p..] == s + rx[l.pos..];
      UnescapePlain(s, rx[l.pos..]);
      assert before + (s + Unescape(rx[l.pos..])) == before + s + Unescape(rx[l.pos..]);
      ret := ret + s;
      UnescapeStep(rx, l.pos);
      var c := l.Next();
      if c != [BACKSLASH] {
        break;
      }
      var end := l.EOF();
      if end {
        ret := ret + [BACKSLASH];
        break;
      }
      c := l.Next();
      assert ret + (c + Unescape(rx[l.pos..])) == ret + c + Unescape(rx[l.pos..]);
      ret := ret + c;
    }
  }

  lemma UnescapeEnd(rx: Text)
    ensures rx + Unescape([]) == rx && rx + [] == rx
  {
  }

  lemma UnescapeStep(rx: Text, p: nat)
    requires p <= |rx| && (p < |rx| ==> rx[p] == BACKSLASH)
    ensures Unescape(rx[p..]) ==
      if p == |rx| then [] else if p + 1 == |rx| then [BACKSLASH] else [rx[p + 1]] + Unescape(rx[p + 2..])
  {
    if p + 1 < |rx| {
      assert rx[p..][2..] == rx[p + 2..];
    }
  }

  /** The backward loop over the backslashes at the end. */
  method LastOther(ret: Text) returns (i: int)
    ensures |ret| - i == Trailing(ret) + 1
  {
    i := |ret| - 1;
    assert ret[..|ret|] == ret;
    while i >= 0 && ret[i] == BACKSLASH
      invariant -1 <= i < |ret|
      invariant Trailing(ret) == |ret| - 1 - i + Trailing(ret[..i + 1])
    {
      assert ret[..i + 1][..i] == ret[..i];
      i := i - 1;
    }
  }

  /** extractRx: the text up to the first delimiter that is not escaped, without
      its escapes; the lexer is left on that delimiter or at the end. */
  method ExtractRx(l: StringLexer, delim: ascii) returns (r: Text)
    requires l.Valid()
    modifies l
    ensures l.Valid() && old(l.pos) <= l.pos
    ensures IsRaw(l.input[old(l.pos)..], delim, l.pos - old(l.pos))
    ensures r == Unescape(l.input[old(l.pos)..l.pos])
  {
    hide Trailing, Unescape, IsRaw;
    ghost var from := l.pos;
    ghost var s := l.input[from..];
    var ret: Text := [];
    while true
      invariant l.Valid() && from <= l.pos && ret == s[..l.pos - from]
      invariant forall k :: 0 <= k < |ret| ==> !EndsAt(s, delim, k)
      decreases |l.input| - l.pos
    {
      ghost var done := |ret|;
      var more := l.Find(delim);
      ret := ret + more;
      assert ret == s[..l.pos - from];
      forall k | 0 <= k < |ret| ensures !EndsAt(s, delim, k) {
        if k >= done {
          assert s[k] == more[k - done];
        }
      }
      var i := LastOther(ret);
      var end := l.EOF();
      if end || (|ret| - i) % 2 == 1 {
        break;
      }
      var c := l.Next();
      ret := ret + c;
      assert ret == s[..l.pos - from];
    }
    RawHere(s, delim, |ret|);
    assert ret == l.input[from..l.pos];
    r := UnescapeRx(ret);
  }

  lemma RawHere(s: Text, delim: ascii, n: nat)
    requires n <= |s| && (n == |s| || EndsAt(s, delim, n))
    requires forall k :: 0 <= k < n ==> !EndsAt(s, delim, k)
    ensures IsRaw(s, delim, n)
  {
    hide EndsAt;
  }

  /** The delimiter of an edit command: the character behind the s, or NUL if there is none. */
  function EditDelim(text: Text): ascii {
    if |text| > 1 then text[1] else NUL
  }

  /** The position behind the next character, if there is one. */
  function Past(text: Text, pos: nat): nat
    requires pos <= |text|
  {
    if pos < |text| then pos + 1 else pos
  }

  /** The parts of an edit command, s/regexp/replacement/. */
  function EditParts(text: Text): Option<(Text, Text)> {
    if text == [] || text[0] != 's' then None
    else
      var delim := EditDelim(text);
      var p := Past(text, 1);
      var i := p + RawEnd(text[p..], delim);
      var q := Past(text, i);
      var j := q + RawEnd(text[q..], delim);
      if j < |text| || delim == NUL then Some((Unescape(text[p..i]), Unescape(text[q..j]))) else None
  }

  /** The first unescaped delimiter behind the opening one, and another one behind that. */
  predicate TwoDelims(text: Text, delim: ascii, i: nat, j: nat) {
    i + 3 <= |text| && IsRaw(text[2..], delim, i) && EndsAt(text[i + 3..], delim, j)
  }

  /** Which texts are accepted as edit commands: those that begin with an s and
      in which an unescaped delimiter follows the first unescaped one, or whose
      delimiter is NUL, as it is when there is none. */
  lemma EditAcceptedIff(text: Text)
    ensures EditParts(text).Some? <==>
      && text != [] && text[0] == 's'
      && (EditDelim(text) == NUL
          || exists i, j :: TwoDelims(text, EditDelim(text), i, j))
  {
    hide Unescape, EndsAt, RawEnd, RawFrom;
    if text != [] && text[0] == 's' && EditDelim(text) != NUL {
      var delim := EditDelim(text);
      var i := RawEnd(text[2..], delim);
      if i + 2 < |text| {
        var j := RawEnd(text[i + 3..], delim);
        if j < |text[i + 3..]| {
          RawEndsAt(text[i + 3..], delim, j);
          assert TwoDelims(text, delim, i, j);
        }
      }
      if i', j' :| TwoDelims(text, delim, i', j') {
        RawUnique(text[2..], delim, i, i');
        EndsInside(text[i + 3..], delim, j');
      }
    }
  }

  lemma EndsInside(s: Text, delim: ascii, k: nat)
    requires EndsAt(s, delim, k)
    ensures RawEnd(s, delim) < |s|
  {
    hide Trailing, RawFrom;
  }

  /** The edit command for a delimiter, made by escaping. */
  function EditCommand(re: Text, rp: Text, delim: ascii): Text {
    ['s', delim] + Escape(re, delim) + [delim] + Escape(rp, delim) + [delim]
  }

  /** An edit command made from any regexp and replacement is taken apart into the two. */
  lemma EditRoundTrip(re: Text, rp: Text, delim: ascii, rest: Text)
    requires delim != BACKSLASH
    ensures EditParts(EditCommand(re, rp, delim) + rest) == Some((re, rp))
  {
    hide Escape, Unescape, IsRaw, RawEnd;
    var text := EditCommand(re, rp, delim) + rest;
    var q := 2 + |Escape(re, delim)| + 1;
    assert text[q..] == Escape(rp, delim) + [delim] + rest;
    assert text[2..] == Escape(re, delim) + [delim] + text[q..];
    var i, j := RawEnd(text[2..], delim), RawEnd(text[q..], delim);
    EscapeRoundTrip(text[2..], re, delim, text[q..], i);
    EscapeRoundTrip(text[q..], rp, delim, rest, j);
    assert text[2..][..i] == text[2..2 + i] && text[q..][..j] == text[q..q + j];
  }

  /** A lone s is accepted, with two empty parts. */
  lemma LoneSAccepted()
    ensures EditParts(['s']) == Some(([], []))
  {
  }

  /** The parsing of the edit command. */
  method ParseEdit(text: Text) returns (r: Option<(Text, Text)>)
    ensures r == EditParts(text)
  {
    hide Unescape, IsRaw, RawEnd;
    var l := new StringLexer(text);
    var s := l.Next();
    if s != ['s'] {
      return None;
    }
    var delim := l.Peek();
    var _ := l.Next();
    ghost var p := l.pos;
    var re := ExtractRx(l, delim);
    ghost var i := l.pos;
    RawUnique(text[p..], delim, i - p, RawEnd(text[p..], delim));
    var _ := l.Next();
    ghost var q := l.pos;
    var rp := ExtractRx(l, delim);
    ghost var j := l.pos;
    RawUnique(text[q..], delim, j - q, RawEnd(text[q..], delim));
    RawEndsAt(text[q..], delim, j - q);
    var last := l.Next();
    if last != [delim] {
      return None;
    }
    r := Some((re, rp));
  }

  lemma RawEndsAt(s: Text, delim: ascii, n: nat)
    requires IsRaw(s, delim, n)
    ensures n < |s| ==> s[n] == delim && EndsAt(s, delim, n)
  {
  }
}
