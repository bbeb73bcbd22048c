/** The string primitives the auditor relies on: `str.lower()`, `str.split()`
    with no separator, and the `in` substring test, restricted to ASCII. */
module Ascii {

  /** The ASCII characters Python's `str.isspace()` accepts, which are the
      separators of `str.split()` called without an argument. */
  predicate IsSpace(c: char) {
    c == ' ' || (9 <= c as int <= 13) || (28 <= c as int <= 31)
  }

  predicate IsUpper(c: char) {
    'A' <= c <= 'Z'
  }

  /** `c.lower()` on one ASCII character. */
  function LowerChar(c: char): (r: char)
    ensures !IsUpper(r)
    ensures IsUpper(c) ==> r as int == c as int + 32
    ensures !IsUpper(c) ==> r == c
  {
    if IsUpper(c) then (c as int + 32) as char else c
  }

  /** No character of `s` is an upper-case ASCII letter. */
  predicate IsLower(s: string) {
    forall i :: 0 <= i < |s| ==> !IsUpper(s[i])
  }

  /** `s.lower()`: every character lowered in place, nothing else moved. */
  function Lower(s: string): (r: string)
    ensures |r| == |s|
    ensures forall i :: 0 <= i < |s| ==> r[i] == LowerChar(s[i])
    ensures IsLower(r)
  {
    if s == [] then [] else [LowerChar(s[0])] + Lower(s[1..])
  }

  /** Lowering twice is lowering once. */
  lemma LowerIdempotent(s: string)
    ensures Lower(Lower(s)) == Lower(s)
  {
  }

  /** A string without upper-case letters is its own lower-case form. */
  lemma LowerOfLower(s: string)
    requires IsLower(s)
    ensures Lower(s) == s
  {
  }

  /** Lowering distributes over concatenation, so `(a + b).lower()` is
      `a.lower() + b.lower()`. */
  lemma LowerConcat(a: string, b: string)
    ensures Lower(a + b) == Lower(a) + Lower(b)
  {
  }

  // ---------------------------------------------------------------------
  // Splitting on whitespace

  predicate NoSpace(w: string) {
    forall i :: 0 <= i < |w| ==> !IsSpace(w[i])
  }

  /** A token `str.split()` can produce: non-empty and free of whitespace. */
  predicate IsWord(w: string) {
    w != [] && NoSpace(w)
  }

  predicate AllWords(ws: seq<string>) {
    forall i :: 0 <= i < |ws| ==> IsWord(ws[i])
  }

  /** The characters of `s` that are not whitespace, in order. */
  function NonSpace(s: string): string {
    if s == [] then []
    else (if IsSpace(s[0]) then [] else [s[0]]) + NonSpace(s[1..])
  }

  function Concat(ws: seq<string>): string {
    if ws == [] then [] else ws[0] + Concat(ws[1..])
  }

  /** Words joined by single spaces, the inverse of `Split` on well-formed
      input. */
  function JoinSpace(ws: seq<string>): string {
    if ws == [] then []
    else if |ws| == 1 then ws[0]
    else ws[0] + " " + JoinSpace(ws[1..])
  }

  /** The scan behind `Split`: `word` is the token read so far. */
  function SplitFrom(s: string, word: string): (r: seq<string>)
    requires NoSpace(word)
    ensures AllWords(r)
    ensures Concat(r) == word + NonSpace(s)
    decreases |s|
  {
    if s == [] then
      (if word == [] then [] else [word])
    else if IsSpace(s[0]) then
      var rest := SplitFrom(s[1..], []);
      if word == [] then rest
      else
        assert ([word] + rest)[1..] == rest;
        [word] + rest
    else
      var rest := SplitFrom(s[1..], word + [s[0]]);
      assert word + [s[0]] + NonSpace(s[1..]) == word + NonSpace(s);
      rest
  }

  /** `s.split()`: the maximal whitespace-free runs of `s`, in order. Every
      token is non-empty and the tokens together hold exactly the
      non-whitespace characters of `s`. */
  function Split(s: string): (r: seq<string>)
    ensures AllWords(r)
    ensures Concat(r) == NonSpace(s)
  {
    SplitFrom(s, [])
  }

  lemma {:induction false} SplitFromWord(w: string, s: string, word: string)
    requires NoSpace(word) && NoSpace(w)
    ensures SplitFrom(w + s, word) == SplitFrom(s, word + w)
    decreases |w|
  {
    if w == [] {
      assert w + s == s;
      assert word + w == word;
    } else {
      assert (w + s)[0] == w[0];
      assert (w + s)[1..] == w[1..] + s;
      SplitFromWord(w[1..], s, word + [w[0]]);
      assert word + [w[0]] + w[1..] == word + w;
    }
  }

  /** Splitting words joined by single spaces gives the words back. */
  lemma {:induction false} SplitJoin(ws: seq<string>)
    requires AllWords(ws)
    ensures Split(JoinSpace(ws)) == ws
    decreases |ws|
  {
    if ws == [] {
    } else if |ws| == 1 {
      SplitFromWord(ws[0], [], []);
      assert ws[0] + [] == ws[0];
      assert [] + ws[0] == ws[0];
    } else {
      var rest := JoinSpace(ws[1..]);
      assert JoinSpace(ws) == ws[0] + (" " + rest);
      SplitFromWord(ws[0], " " + rest, []);
      assert [] + ws[0] == ws[0];
      assert (" " + rest)[1..] == rest;
      SplitJoin(ws[1..]);
      assert ws == [ws[0]] + ws[1..];
    }
  }

  /** Every character of `s` is whitespace; `s` may be empty. */
  predicate AllSpace(s: string) {
    forall i :: 0 <= i < |s| ==> IsSpace(s[i])
  }

  /** Separators for `n` words: a whitespace run before the first word,
      one between each two words and one after the last. The two outer runs
      may be empty; the inner ones may not. */
  predicate Gaps(seps: seq<string>, n: nat) {
    && |seps| == n + 1
    && (forall i :: 0 <= i < |seps| ==> AllSpace(seps[i]))
    && (forall i :: 0 < i < n ==> seps[i] != [])
  }

  /** `seps[0] + ws[0] + seps[1] + ... + ws[n - 1] + seps[n]`: any string
      whose whitespace-free runs are the words `ws`. */
  function JoinWith(ws: seq<string>, seps: seq<string>): string
    requires |seps| == |ws| + 1
  {
    if ws == [] then seps[0]
    else seps[0] + ws[0] + JoinWith(ws[1..], seps[1..])
  }

  /** Leading whitespace is skipped between tokens. */
  lemma {:induction false} SplitFromSpaces(sp: string, s: string)
    requires AllSpace(sp)
    ensures SplitFrom(sp + s, []) == SplitFrom(s, [])
    decreases |sp|
  {
    if sp != [] {
      var t := sp + s;
      assert t[0] == sp[0] && IsSpace(t[0]);
      assert t[1..] == sp[1..] + s;
      assert SplitFrom(t, []) == SplitFrom(t[1..], []);
      SplitFromSpaces(sp[1..], s);
    } else {
      assert sp + s == s;
    }
  }

  /** Whitespace after a token ends it. */
  lemma WordEndsAtSpace(s: string, word: string)
    requires s != [] && IsSpace(s[0]) && IsWord(word)
    ensures SplitFrom(s, word) == [word] + SplitFrom(s[1..], [])
  {
  }

  /** A finished token followed only by whitespace ends the scan. */
  lemma TrailingSpaces(sp: string, word: string)
    requires AllSpace(sp) && IsWord(word)
    ensures SplitFrom(sp, word) == [word]
  {
    if sp != [] {
      WordEndsAtSpace(sp, word);
      SplitFromSpaces(sp[1..], []);
      assert sp[1..] + [] == sp[1..];
    }
  }

  /** The scan over a joined string reads the leading whitespace and the
      first word, and then stands at the separator after it. */
  lemma SplitJoinWithFirst(ws: seq<string>, seps: seq<string>)
    requires AllWords(ws) && Gaps(seps, |ws|) && ws != []
    ensures Split(JoinWith(ws, seps)) == SplitFrom(JoinWith(ws[1..], seps[1..]), ws[0])
  {
    var rest := JoinWith(ws[1..], seps[1..]);
    assert JoinWith(ws, seps) == seps[0] + (ws[0] + rest);
    SplitFromSpaces(seps[0], ws[0] + rest);
    SplitFromWord(ws[0], rest, []);
    assert [] + ws[0] == ws[0];
  }

  /** Dropping the first character of a non-empty inner separator leaves a
      join whose leading run is shorter by one. */
  lemma JoinWithDropSpace(ws: seq<string>, seps: seq<string>)
    requires |seps| == |ws| + 1 && ws != [] && seps[0] != []
    ensures JoinWith(ws, seps)[1..] == JoinWith(ws, [seps[0][1..]] + seps[1..])
  {
    var seps' := [seps[0][1..]] + seps[1..];
    assert seps'[0] == seps[0][1..] && seps'[1..] == seps[1..];
    var tail := ws[0] + JoinWith(ws[1..], seps[1..]);
    JoinWithFirstGap(ws, seps);
    JoinWithFirstGap(ws, seps');
    DropFirst(seps[0], tail);
  }

  /** A join of at least one word is its leading run followed by the rest. */
  lemma JoinWithFirstGap(ws: seq<string>, seps: seq<string>)
    requires |seps| == |ws| + 1 && ws != []
    ensures JoinWith(ws, seps) == seps[0] + (ws[0] + JoinWith(ws[1..], seps[1..]))
  {
  }

  lemma DropFirst(a: string, b: string)
    requires a != []
    ensures (a + b)[1..] == a[1..] + b
  {
  }

  /** Whatever whitespace separates the words, and whatever surrounds them,
      `str.split()` gives exactly the words back: the tokens are the maximal
      whitespace-free runs. */
  lemma {:induction false} SplitJoinWith(ws: seq<string>, seps: seq<string>)
    requires AllWords(ws) && Gaps(seps, |ws|)
    ensures Split(JoinWith(ws, seps)) == ws
    decreases |ws|
  {
    if ws == [] {
      SplitFromSpaces(seps[0], []);
      assert seps[0] + [] == seps[0];
    } else {
      var rest := JoinWith(ws[1..], seps[1..]);
      SplitJoinWithFirst(ws, seps);
      if |ws| == 1 {
        TrailingSpaces(seps[1], ws[0]);
      } else {
        var seps' := [seps[1][1..]] + seps[2..];
        assert seps[1] != [];
        assert rest[0] == seps[1][0];
        WordEndsAtSpace(rest, ws[0]);
        JoinWithDropSpace(ws[1..], seps[1..]);
        assert seps[1..][1..] == seps[2..];
        assert Gaps(seps', |ws| - 1) by {
          assert forall i :: 1 <= i < |seps'| ==> seps'[i] == seps[i + 1];
        }
        SplitJoinWith(ws[1..], seps');
        assert ws == [ws[0]] + ws[1..];
      }
    }
  }

  /** The whitespace runs around and between the tokens `SplitFrom(s, word)`
      reads; `word` is glued to the front of `s`, so the leading run is empty
      whenever `word` is not. */
  function GapsFrom(s: string, word: string): (r: seq<string>)
    requires NoSpace(word)
    ensures |r| == |SplitFrom(s, word)| + 1
    decreases |s|
  {
    if s == [] then
      (if word == [] then [[]] else [[], []])
    else if IsSpace(s[0]) then
      var g := GapsFrom(s[1..], []);
      if word == [] then [[s[0]] + g[0]] + g[1..]
      else [[], [s[0]] + g[0]] + g[1..]
    else
      GapsFrom(s[1..], word + [s[0]])
  }

  /** A whitespace character in front of a join lengthens its leading run. */
  lemma JoinWithSpaceFront(ws: seq<string>, seps: seq<string>, c: char)
    requires |seps| == |ws| + 1
    ensures [c] + JoinWith(ws, seps) == JoinWith(ws, [[c] + seps[0]] + seps[1..])
  {
    var seps' := [[c] + seps[0]] + seps[1..];
    assert seps'[1..] == seps[1..];
    if ws != [] {
      assert [c] + (seps[0] + ws[0] + JoinWith(ws[1..], seps[1..]))
        == ([c] + seps[0]) + ws[0] + JoinWith(ws[1..], seps[1..]);
    }
  }

  /** The covering property for one string and token so far. */
  predicate Covers(s: string, word: string)
    requires NoSpace(word)
  {
    && Gaps(GapsFrom(s, word), |SplitFrom(s, word)|)
    && JoinWith(SplitFrom(s, word), GapsFrom(s, word)) == word + s
    && (word != [] ==> GapsFrom(s, word)[0] == [])
  }

  lemma {:induction false} GapsFromCover(s: string, word: string)
    requires NoSpace(word)
    ensures Covers(s, word)
    decreases |s|
  {
    if s == [] {
      if word != [] {
        assert JoinWith([word], [[], []]) == [] + word + JoinWith([], [[]]);
      }
    } else if IsSpace(s[0]) {
      GapsFromCover(s[1..], []);
      if word == [] {
        CoverAfterSpace(s);
      } else {
        CoverAfterWordAndSpace(s, word);
      }
    } else {
      GapsFromCover(s[1..], word + [s[0]]);
      assert word + [s[0]] + s[1..] == word + s;
    }
  }

  lemma CoverAfterSpace(s: string)
    requires s != [] && IsSpace(s[0]) && Covers(s[1..], [])
    ensures Covers(s, [])
  {
    var r', g' := SplitFrom(s[1..], []), GapsFrom(s[1..], []);
    JoinWithSpaceFront(r', g', s[0]);
    var h := [[s[0]] + g'[0]] + g'[1..];
    assert [s[0]] + s[1..] == s;
    assert forall i :: 1 <= i < |h| ==> h[i] == g'[i];
    assert GapsFrom(s, []) == h && SplitFrom(s, []) == r';
    assert [] + s == s;
    assert [] + s[1..] == s[1..];
  }

  lemma CoverAfterWordAndSpace(s: string, word: string)
    requires s != [] && IsSpace(s[0]) && IsWord(word) && Covers(s[1..], [])
    ensures Covers(s, word)
  {
    var r', g' := SplitFrom(s[1..], []), GapsFrom(s[1..], []);
    var h := [[s[0]] + g'[0]] + g'[1..];
    CoverAfterSpace(s);
    assert SplitFrom(s, []) == r' && GapsFrom(s, []) == h;
    assert SplitFrom(s, word) == [word] + r';
    assert GapsFrom(s, word) == [[]] + h;
    WordInFront(word, r', h);
  }

  /** A word glued to the front of a join whose leading run is not empty
      becomes its first token, with an empty leading run. */
  lemma WordInFront(word: string, ws: seq<string>, seps: seq<string>)
    requires IsWord(word) && Gaps(seps, |ws|) && seps[0] != []
    ensures Gaps([[]] + seps, |ws| + 1)
    ensures JoinWith([word] + ws, [[]] + seps) == word + JoinWith(ws, seps)
  {
    GapsInFront(seps, |ws|);
    JoinWithCons(word, ws, seps);
  }

  lemma JoinWithCons(word: string, ws: seq<string>, seps: seq<string>)
    requires |seps| == |ws| + 1
    ensures JoinWith([word] + ws, [[]] + seps) == word + JoinWith(ws, seps)
  {
    var ws', seps' := [word] + ws, [[]] + seps;
    assert ws'[0] == word && ws'[1..] == ws;
    assert seps'[0] == [] && seps'[1..] == seps;
    assert [] + word == word;
  }

  lemma GapsInFront(seps: seq<string>, n: nat)
    requires Gaps(seps, n) && seps[0] != []
    ensures Gaps([[]] + seps, n + 1)
  {
    var seps' := [[]] + seps;
    forall i | 0 <= i < |seps'|
      ensures AllSpace(seps'[i])
    {
      if i > 0 {
        assert seps'[i] == seps[i - 1];
      }
    }
    forall i | 0 < i < n + 1
      ensures seps'[i] != []
    {
      assert seps'[i] == seps[i - 1];
    }
  }

  /** Every string is the join of its tokens with the whitespace runs
      around and between them, so together with `SplitJoinWith` this pins
      `Split(s)` down as the one word list `s` is built from. */
  lemma SplitCovers(s: string)
    ensures Gaps(GapsFrom(s, []), |Split(s)|)
    ensures JoinWith(Split(s), GapsFrom(s, [])) == s
  {
    GapsFromCover(s, []);
    assert [] + s == s;
  }

  // ---------------------------------------------------------------------
  // Substring test

  /** `sub` occurs in `s` starting at index `i`. */
  predicate OccursAt(s: string, sub: string, i: nat) {
    i + |sub| <= |s| && s[i..i + |sub|] == sub
  }

  /** Python's `sub in s`. */
  function Contains(s: string, sub: string): (r: bool)
    ensures r <==> exists i: nat :: OccursAt(s, sub, i)
    decreases |s|
  {
    if |s| < |sub| then false
    else if s[..|sub|] == sub then
      assert OccursAt(s, sub, 0);
      true
    else
      var r := Contains(s[1..], sub);
      ShiftOccurrence(s, sub);
      r
  }

  lemma ShiftOccurrence(s: string, sub: string)
    requires |sub| <= |s| && s[..|sub|] != sub
    ensures (exists i: nat :: OccursAt(s[1..], sub, i)) <==> (exists i: nat :: OccursAt(s, sub, i))
  {
    forall i: nat | OccursAt(s[1..], sub, i)
      ensures OccursAt(s, sub, i + 1)
    {
      assert s[1..][i..i + |sub|] == s[i + 1..i + 1 + |sub|];
    }
    forall i: nat | OccursAt(s, sub, i)
      ensures i >= 1 && OccursAt(s[1..], sub, i - 1)
    {
      assert s[1..][i - 1..i - 1 + |sub|] == s[i..i + |sub|];
    }
  }

}
