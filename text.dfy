/** Text handling used by the notice parser: Python's whitespace splitting and
    joining (`" ".join(s.split())`), the digit test of the date filter, and the
    code-point order Python's `sorted` uses on strings. */
module Text {

  /** Python's `str.isspace` code points, which `str.split()` splits on. */
  predicate IsSpace(c: char) {
    || ('\t' <= c <= '\r')
    || ('\U{1C}' <= c <= ' ')
    || c == '\U{85}' || c == '\U{A0}' || c == '\U{1680}'
    || ('\U{2000}' <= c <= '\U{200A}')
    || c == '\U{2028}' || c == '\U{2029}' || c == '\U{202F}' || c == '\U{205F}'
    || c == '\U{3000}'
  }

  /** A decimal digit; `char.isdigit()` restricted to ASCII. */
  predicate IsDigit(c: char) {
    '0' <= c <= '9'
  }

  predicate ContainsDigit(s: string) {
    exists i :: 0 <= i < |s| && IsDigit(s[i])
  }

  /** A word as `str.split()` yields it: non-empty, no whitespace inside. */
  predicate IsWord(w: string) {
    w != [] && forall i :: 0 <= i < |w| ==> !IsSpace(w[i])
  }

  predicate AllWords(ws: seq<string>) {
    forall k :: 0 <= k < |ws| ==> IsWord(ws[k])
  }

  /** A normalised string: whitespace occurs only as a single ' ' that is
      neither first nor last and is never followed by more whitespace. */
  ghost predicate IsNormal(t: string) {
    && (forall i :: 0 <= i < |t| && IsSpace(t[i]) ==> t[i] == ' ' && 0 < i < |t| - 1)
    && (forall i, j :: 0 <= i < j < |t| && j == i + 1 ==> !IsSpace(t[i]) || !IsSpace(t[j]))
  }

  /** Length of the longest whitespace-free prefix of `s`. */
  function WordLen(s: string): (n: nat)
    ensures n <= |s|
    ensures forall i :: 0 <= i < n ==> !IsSpace(s[i])
    ensures n < |s| ==> IsSpace(s[n])
  {
    if s == [] || IsSpace(s[0]) then 0 else 1 + WordLen(s[1..])
  }

  /** `s.split()`: the maximal whitespace-free runs of `s`, in order. */
  function Words(s: string): (ws: seq<string>)
    ensures AllWords(ws)
    decreases |s|
  {
    if s == [] then []
    else if IsSpace(s[0]) then Words(s[1..])
    else
      var n := WordLen(s);
      [s[..n]] + Words(s[n..])
  }

  /** `" ".join(ws)`. */
  function JoinSpace(ws: seq<string>): string {
    if ws == [] then ""
    else if |ws| == 1 then ws[0]
    else ws[0] + " " + JoinSpace(ws[1..])
  }

  /** `" ".join(s.split())`: collapse whitespace runs to one space and trim. */
  function Normalize(s: string): (t: string)
    ensures IsNormal(t)
    ensures Words(t) == Words(s)
  {
    JoinNormal(Words(s));
    WordsOfJoin(Words(s));
    JoinSpace(Words(s))
  }

  /** The characters of `s` that are not whitespace, in order. */
  function NonSpace(s: string): string {
    if s == [] then []
    else if IsSpace(s[0]) then NonSpace(s[1..])
    else [s[0]] + NonSpace(s[1..])
  }

  /** Concatenation of a list of strings. */
  function Concat(ws: seq<string>): string {
    if ws == [] then [] else ws[0] + Concat(ws[1..])
  }

  lemma {:induction false} JoinNormal(ws: seq<string>)
    requires AllWords(ws)
    ensures IsNormal(JoinSpace(ws))
    ensures ws != [] ==> JoinSpace(ws) != [] && !IsSpace(JoinSpace(ws)[0])
    decreases |ws|
  {
    if |ws| > 1 {
      var w, j := ws[0], JoinSpace(ws[1..]);
      assert IsWord(ws[1]);
      JoinNormal(ws[1..]);
      var t := w + " " + j;
      assert JoinSpace(ws) == t;
      forall i | 0 <= i < |t| && IsSpace(t[i])
        ensures t[i] == ' ' && 0 < i < |t| - 1
      {
        if i > |w| {
          assert t[i] == j[i - |w| - 1];
        }
      }
      forall i, k | 0 <= i < k < |t| && k == i + 1
        ensures !IsSpace(t[i]) || !IsSpace(t[k])
      {
        if i > |w| {
          assert t[i] == j[i - |w| - 1] && t[k] == j[k - |w| - 1];
        }
      }
    }
  }

  lemma WordsOfSpaceLed(s: string)
    requires s != [] && IsSpace(s[0])
    ensures Words(s) == Words(s[1..])
  {
  }

  lemma WordsOfWord(w: string, rest: string)
    requires IsWord(w)
    requires rest == [] || IsSpace(rest[0])
    ensures Words(w + rest) == [w] + Words(rest)
  {
    var s := w + rest;
    var n := WordLen(s);
    assert forall i :: 0 <= i < |w| ==> s[i] == w[i];
    assert rest != [] ==> s[|w|] == rest[0];
    assert n == |w|;
    assert s[..n] == w && s[n..] == rest;
  }

  /** Splitting a joined list of words gives the words back. */
  lemma {:induction false} WordsOfJoin(ws: seq<string>)
    requires AllWords(ws)
    ensures Words(JoinSpace(ws)) == ws
    decreases |ws|
  {
    if ws == [] {
    } else if |ws| == 1 {
      WordsOfWord(ws[0], []);
      assert ws[0] + [] == ws[0];
    } else {
      var j := JoinSpace(ws[1..]);
      assert IsWord(ws[1]);
      WordsOfJoin(ws[1..]);
      WordsOfWord(ws[0], " " + j);
      assert (" " + j)[1..] == j;
      WordsOfSpaceLed(" " + j);
      assert ws[0] + " " + j == ws[0] + (" " + j);
      assert [ws[0]] + ws[1..] == ws;
    }
  }

  /** Normalising twice is the same as normalising once. */
  lemma NormalizeIdempotent(s: string)
    ensures Normalize(Normalize(s)) == Normalize(s)
  {
    WordsOfJoin(Words(s));
  }

  lemma JoinCons(w: string, ws: seq<string>)
    requires ws != []
    ensures JoinSpace([w] + ws) == w + " " + JoinSpace(ws)
  {
  }

  /** What follows a space in a normal string is normal and starts a word. */
  lemma NormalAfterSpace(t: string, n: nat)
    requires IsNormal(t) && n < |t| && IsSpace(t[n])
    ensures n + 1 < |t| && IsNormal(t[n + 1..]) && !IsSpace(t[n + 1])
  {
    var r := t[n + 1..];
    assert forall i :: 0 <= i < |r| ==> r[i] == t[n + 1 + i];
    assert t[n] == ' ' && !IsSpace(t[n + 1]);
  }

  lemma WordsOfNormal(t: string, n: nat)
    requires IsNormal(t) && t != [] && n == WordLen(t) && n < |t|
    ensures n > 0 && Words(t) == [t[..n]] + Words(t[n + 1..])
    ensures Words(t[n + 1..]) != []
  {
    NormalAfterSpace(t, n);
    var r := t[n + 1..];
    assert t[n..][1..] == r;
    WordsOfSpaceLed(t[n..]);
    assert Words(r) == [r[..WordLen(r)]] + Words(r[WordLen(r)..]);
  }

  lemma WordsOfOneWord(t: string)
    requires t != [] && WordLen(t) == |t|
    ensures Words(t) == [t]
  {
    assert t[..|t|] == t && t[|t|..] == [];
  }

  lemma JoinAfterSpace(t: string, n: nat, ws: seq<string>)
    requires 0 < n < |t| && t[n] == ' '
    requires Words(t) == [t[..n]] + ws && ws != []
    requires JoinSpace(ws) == t[n + 1..]
    ensures JoinSpace(Words(t)) == t
  {
    JoinCons(t[..n], ws);
    assert t == t[..n] + [t[n]] + t[n + 1..];
  }

  lemma {:induction false} JoinWordsOfNormal(t: string)
    requires IsNormal(t)
    ensures JoinSpace(Words(t)) == t
    decreases |t|
  {
    if t != [] {
      var n := WordLen(t);
      if n == |t| {
        WordsOfOneWord(t);
      } else {
        WordsOfNormal(t, n);
        NormalAfterSpace(t, n);
        JoinWordsOfNormal(t[n + 1..]);
        JoinAfterSpace(t, n, Words(t[n + 1..]));
      }
    }
  }

  /** A string that is already normal is left unchanged. */
  lemma NormalizeFixesNormal(t: string)
    requires IsNormal(t)
    ensures Normalize(t) == t
  {
    JoinWordsOfNormal(t);
  }

  /** The two properties of `Normalize` determine it: the only normal string
      with the same words as `s` is `Normalize(s)`. */
  lemma NormalizeUnique(s: string, t: string)
    requires IsNormal(t) && Words(t) == Words(s)
    ensures t == Normalize(s)
  {
    JoinWordsOfNormal(t);
  }

  lemma {:induction false} NonSpaceAppend(a: string, b: string)
    ensures NonSpace(a + b) == NonSpace(a) + NonSpace(b)
    decreases |a|
  {
    if a != [] {
      assert (a + b)[0] == a[0] && (a + b)[1..] == a[1..] + b;
      NonSpaceAppend(a[1..], b);
      if !IsSpace(a[0]) {
        assert NonSpace(a + b) == [a[0]] + (NonSpace(a[1..]) + NonSpace(b));
      }
    } else {
      assert a + b == b;
    }
  }

  lemma {:induction false} NonSpaceOfWord(w: string)
    requires IsWord(w) || w == []
    ensures NonSpace(w) == w
    decreases |w|
  {
    if w != [] {
      if |w| > 1 {
        assert IsWord(w[1..]);
      }
      NonSpaceOfWord(w[1..]);
    }
  }

  lemma {:induction false} NonSpaceOfWords(s: string)
    ensures NonSpace(s) == Concat(Words(s))
    decreases |s|
  {
    if s != [] {
      if IsSpace(s[0]) {
        NonSpaceOfWords(s[1..]);
      } else {
        var n := WordLen(s);
        assert s == s[..n] + s[n..];
        NonSpaceAppend(s[..n], s[n..]);
        assert IsWord(s[..n]);
        NonSpaceOfWord(s[..n]);
        NonSpaceOfWords(s[n..]);
      }
    }
  }

  lemma {:induction false} NonSpaceOfJoin(ws: seq<string>)
    requires AllWords(ws)
    ensures NonSpace(JoinSpace(ws)) == Concat(ws)
    decreases |ws|
  {
    if ws != [] {
      assert IsWord(ws[0]);
      NonSpaceOfWord(ws[0]);
      if |ws| == 1 {
        assert Concat(ws) == ws[0] + Concat([]);
      } else {
        assert IsWord(ws[1]);
        NonSpaceOfJoin(ws[1..]);
        NonSpaceAppend(ws[0], " " + JoinSpace(ws[1..]));
        NonSpaceAppend(" ", JoinSpace(ws[1..]));
        assert NonSpace(" ") == [];
        assert ws[0] + " " + JoinSpace(ws[1..]) == ws[0] + (" " + JoinSpace(ws[1..]));
      }
    }
  }

  /** Normalising only touches whitespace: the other characters survive in order. */
  lemma NormalizeKeepsText(s: string)
    ensures NonSpace(Normalize(s)) == NonSpace(s)
  {
    NonSpaceOfWords(s);
    NonSpaceOfJoin(Words(s));
  }

  lemma {:induction false} NonSpaceMember(s: string, i: nat)
    requires i < |s| && !IsSpace(s[i])
    ensures s[i] in NonSpace(s)
    decreases |s|
  {
    if i > 0 {
      NonSpaceMember(s[1..], i - 1);
    }
  }

  lemma {:induction false} NonSpaceSubset(s: string, c: char)
    requires c in NonSpace(s)
    ensures c in s
    decreases |s|
  {
    if s != [] && c != s[0] {
      NonSpaceSubset(s[1..], c);
    }
  }

  /** Normalising neither creates nor destroys digits. */
  lemma NormalizeKeepsDigits(s: string)
    ensures ContainsDigit(Normalize(s)) <==> ContainsDigit(s)
  {
    var t := Normalize(s);
    NormalizeKeepsText(s);
    if ContainsDigit(t) {
      var i :| 0 <= i < |t| && IsDigit(t[i]);
      NonSpaceMember(t, i);
      NonSpaceSubset(s, t[i]);
      var j :| 0 <= j < |s| && s[j] == t[i];
      assert IsDigit(s[j]);
    }
    if ContainsDigit(s) {
      var i :| 0 <= i < |s| && IsDigit(s[i]);
      NonSpaceMember(s, i);
      NonSpaceSubset(t, s[i]);
      var j :| 0 <= j < |t| && t[j] == s[i];
      assert IsDigit(t[j]);
    }
  }

  /** Python's `<` on `str`: lexicographic by code point, a proper prefix first. */
  predicate Less(a: string, b: string) {
    if a == [] then b != []
    else if b == [] then false
    else if a[0] != b[0] then a[0] < b[0]
    else Less(a[1..], b[1..])
  }

  lemma {:induction false} LessIrreflexive(a: string)
    ensures !Less(a, a)
    decreases |a|
  {
    if a != [] {
      LessIrreflexive(a[1..]);
    }
  }

  lemma {:induction false} LessAsymmetric(a: string, b: string)
    requires Less(a, b)
    ensures !Less(b, a)
    decreases |a|
  {
    if a != [] && b != [] && a[0] == b[0] {
      LessAsymmetric(a[1..], b[1..]);
    }
  }

  lemma {:induction false} LessTransitive(a: string, b: string, c: string)
    requires Less(a, b) && Less(b, c)
    ensures Less(a, c)
    decreases |a|
  {
    if a != [] && a[0] == b[0] && b[0] == c[0] {
      LessTransitive(a[1..], b[1..], c[1..]);
    }
  }

  lemma {:induction false} LessTotal(a: string, b: string)
    requires a != b
    ensures Less(a, b) || Less(b, a)
    decreases |a|
  {
    if a != [] && b != [] && a[0] == b[0] {
      assert a == [a[0]] + a[1..] && b == [b[0]] + b[1..];
      LessTotal(a[1..], b[1..]);
    }
  }
}
