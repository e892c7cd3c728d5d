/** Text primitives of the scorer and the job board, over ASCII: JavaScript's
    `toLowerCase`, the regular-expression classes `\w` and `\d`, `includes`,
    `split` (by one character and by runs of non-word characters) and `join`. */
module Text {
  import opened Seqs

  /** `\d`: an ASCII decimal digit. */
  predicate IsDigit(c: char) {
    '0' <= c <= '9'
  }

  /** `\w`: `[A-Za-z0-9_]`. */
  predicate IsWordChar(c: char) {
    'a' <= c <= 'z' || 'A' <= c <= 'Z' || IsDigit(c) || c == '_'
  }

  predicate AllWordChars(s: string) {
    forall i | 0 <= i < |s| :: IsWordChar(s[i])
  }

  function LowerChar(c: char): char {
    if 'A' <= c <= 'Z' then (c as int + 32) as char else c
  }

  /** `s.toLowerCase()`, restricted to the ASCII letters. */
  function Lower(s: string): (r: string)
    ensures |r| == |s|
    ensures forall i | 0 <= i < |s| :: r[i] == LowerChar(s[i])
  {
    seq(|s|, i requires 0 <= i < |s| => LowerChar(s[i]))
  }

  /** `sub` occurs in `s` starting at position `i`. */
  predicate OccursAt(s: string, sub: string, i: nat) {
    i + |sub| <= |s| && s[i..i + |sub|] == sub
  }

  /** `s.includes(sub)`. */
  predicate Contains(s: string, sub: string) {
    exists i: nat | i <= |s| :: OccursAt(s, sub, i)
  }

  /** The number of occurrences of `c` in `s`. */
  function Count(s: string, c: char): nat {
    if s == [] then 0 else (if s[0] == c then 1 else 0) + Count(s[1..], c)
  }

  /** `parts.join(sep)`. */
  function Join(parts: seq<string>, sep: string): string {
    if |parts| == 0 then []
    else if |parts| == 1 then parts[0]
    else parts[0] + sep + Join(parts[1..], sep)
  }

  /** `s.split(c)` for a one-character separator: the pieces between the
      occurrences of `c`, so one more piece than there are separators, and
      joining them back with `c` gives `s` again. */
  function SplitOn(s: string, c: char): (parts: seq<string>)
    ensures |parts| == Count(s, c) + 1
    ensures forall p | p in parts :: c !in p
    ensures Join(parts, [c]) == s
  {
    if s == [] then [[]]
    else
      var rest := SplitOn(s[1..], c);
      if s[0] == c then
        assert [c] + Join(rest, [c]) == s;
        [[]] + rest
      else
        var r := [[s[0]] + rest[0]] + rest[1..];
        assert |rest| > 1 ==> Join(rest, [c]) == rest[0] + [c] + Join(rest[1..], [c]);
        assert r[1..] == rest[1..];
        assert s == [s[0]] + s[1..];
        r
  }

  /** `s.split(/[^\w]+/)`: the pieces between maximal runs of non-word
      characters. A leading or trailing run yields an empty first or last
      piece, and the empty text yields one empty piece. */
  function SplitWords(s: string): (tokens: seq<string>)
    ensures |tokens| >= 1
    ensures forall t | t in tokens :: AllWordChars(t)
    ensures s != [] && !IsWordChar(s[0]) ==> tokens[0] == []
  {
    if s == [] then [[]]
    else
      var rest := SplitWords(s[1..]);
      if IsWordChar(s[0]) then
        var r := [[s[0]] + rest[0]] + rest[1..];
        assert AllWordChars(r[0]) by {
          assert rest[0] in rest;
          forall i | 0 <= i < |r[0]| ensures IsWordChar(r[0][i]) {
            if i > 0 { assert r[0][i] == rest[0][i - 1]; } else { assert r[0][i] == s[0]; }
          }
        }
        assert forall t | t in r :: t == r[0] || t in rest;
        r
      else if |s| > 1 && !IsWordChar(s[1]) then [[]] + rest[1..]
      else [[]] + rest
  }

  /** Every text includes the empty string. */
  lemma ContainsEmpty(s: string)
    ensures Contains(s, [])
  {
    assert OccursAt(s, [], 0);
  }

  /** `includes` of a one-character string is membership of that character. */
  lemma ContainsChar(s: string, c: char)
    ensures Contains(s, [c]) <==> c in s
  {
    if Contains(s, [c]) {
      var i: nat :| i <= |s| && OccursAt(s, [c], i);
      assert s[i..i + 1][0] == s[i];
    }
    if c in s {
      var i :| 0 <= i < |s| && s[i] == c;
      assert OccursAt(s, [c], i);
    }
  }

  /** `includes` is transitive. */
  lemma ContainsTrans(s: string, m: string, sub: string)
    requires Contains(s, m) && Contains(m, sub)
    ensures Contains(s, sub)
  {
    var i: nat :| i <= |s| && OccursAt(s, m, i);
    var j: nat :| j <= |m| && OccursAt(m, sub, j);
    forall k | 0 <= k < |sub| ensures s[i + j + k] == sub[k] {
      assert sub[k] == m[j..j + |sub|][k] == m[j + k] == s[i..i + |m|][j + k];
    }
    assert s[i + j..i + j + |sub|] == sub;
    assert OccursAt(s, sub, i + j);
  }

  /** An occurrence in a prefix is an occurrence in the whole text. */
  lemma OccursInPrefix(a: string, b: string, sub: string, i: nat)
    requires OccursAt(a, sub, i)
    ensures OccursAt(a + b, sub, i)
  {
    assert (a + b)[i..i + |sub|] == a[i..i + |sub|];
  }

  /** A text includes both halves of itself. */
  lemma ContainsParts(a: string, b: string)
    ensures Contains(a + b, a) && Contains(a + b, b)
  {
    assert OccursAt(a + b, a, 0);
    assert OccursAt(a + b, b, |a|);
  }

  /** Lower-casing keeps every inclusion. */
  lemma ContainsLower(s: string, sub: string)
    requires Contains(s, sub)
    ensures Contains(Lower(s), Lower(sub))
  {
    var i: nat :| i <= |s| && OccursAt(s, sub, i);
    assert Lower(s)[i..i + |sub|] == Lower(sub);
    assert OccursAt(Lower(s), Lower(sub), i);
  }

  /** Lower-casing twice is lower-casing once, so the second `toLowerCase`
      applied to an already lower-cased keyword changes nothing. */
  lemma LowerIdempotent(s: string)
    ensures Lower(Lower(s)) == Lower(s)
  {
  }

  /** The converse round trip of `SplitOn`: splitting pieces that hold no
      separator, after joining them, gives the same pieces back. */
  lemma {:induction false} SplitOnJoin(parts: seq<string>, c: char)
    requires |parts| >= 1
    requires forall p | p in parts :: c !in p
    ensures SplitOn(Join(parts, [c]), c) == parts
  {
    if |parts| == 1 {
      SplitOnNoSeparator(parts[0], [], c);
      assert parts[0] + [] == parts[0];
    } else {
      SplitOnJoin(parts[1..], c);
      var tail := Join(parts[1..], [c]);
      assert Join(parts, [c]) == parts[0] + ([c] + tail);
      SplitOnNoSeparator(parts[0], [c] + tail, c);
      assert ([c] + tail)[1..] == tail;
      assert SplitOn([c] + tail, c) == [[]] + parts[1..];
      assert parts[0] + [] == parts[0];
      assert parts == [parts[0]] + parts[1..];
    }
  }

  /** A prefix without the separator glues onto the first piece. */
  lemma {:induction false} SplitOnNoSeparator(p: string, t: string, c: char)
    requires c !in p
    ensures SplitOn(p + t, c) == [p + SplitOn(t, c)[0]] + SplitOn(t, c)[1..]
  {
    if p == [] {
      assert p + t == t;
      assert p + SplitOn(t, c)[0] == SplitOn(t, c)[0];
      assert SplitOn(t, c) == [SplitOn(t, c)[0]] + SplitOn(t, c)[1..];
    } else {
      assert (p + t)[1..] == p[1..] + t;
      assert (p + t)[0] == p[0] != c;
      SplitOnNoSeparator(p[1..], t, c);
      var st := SplitOn(t, c);
      var rest := SplitOn(p[1..] + t, c);
      assert rest[0] == p[1..] + st[0] && rest[1..] == st[1..];
      assert [p[0]] + (p[1..] + st[0]) == p + st[0];
    }
  }

  /** A text made only of word characters is one piece. */
  lemma {:induction false} SplitWordsOfWord(s: string)
    requires AllWordChars(s)
    ensures SplitWords(s) == [s]
  {
    if s != [] {
      SplitWordsOfWord(s[1..]);
      assert s == [s[0]] + s[1..];
    }
  }

  /** A non-empty run of non-word characters, one match of `/[^\w]+/`. */
  predicate IsSeparatorRun(sep: string) {
    |sep| > 0 && forall i | 0 <= i < |sep| :: !IsWordChar(sep[i])
  }

  /** `parts[0] + seps[0] + parts[1] + seps[1] + ... + parts[|seps|]`. */
  function Interleave(parts: seq<string>, seps: seq<string>): string
    requires |parts| == |seps| + 1
    decreases |seps|
  {
    if seps == [] then parts[0] else parts[0] + seps[0] + Interleave(parts[1..], seps[1..])
  }

  /** The shape of a text cut by `/[^\w]+/`: word-character pieces between
      separator runs, where only the first and the last piece may be empty
      (two adjacent runs would be one run). */
  predicate WellSplit(parts: seq<string>, seps: seq<string>) {
    && |parts| == |seps| + 1
    && (forall i | 0 <= i < |parts| :: AllWordChars(parts[i]))
    && (forall i | 0 <= i < |seps| :: IsSeparatorRun(seps[i]))
    && (forall i | 0 < i < |parts| - 1 :: parts[i] != [])
  }

  /** Splitting a text laid out as word pieces between separator runs gives
      back exactly the pieces: the split falls at every separator run and
      nowhere else. */
  lemma {:induction false} SplitWordsInterleave(parts: seq<string>, seps: seq<string>)
    requires WellSplit(parts, seps)
    ensures SplitWords(Interleave(parts, seps)) == parts
    decreases |seps|
  {
    if seps == [] {
      SplitWordsOfWord(parts[0]);
      assert parts == [parts[0]];
    } else {
      var u := Interleave(parts[1..], seps[1..]);
      WellSplitTail(parts, seps);
      SplitWordsInterleave(parts[1..], seps[1..]);
      InterleaveStart(parts[1..], seps[1..]);
      SplitWordsSeparatorPrefix(seps[0], u);
      var t := seps[0] + u;
      assert t[0] == seps[0][0];
      SplitWordsWordPrefix(parts[0], t);
      var tokens := SplitWords(t);
      assert tokens == [[]] + parts[1..];
      assert tokens[0] == [] && tokens[1..] == parts[1..];
      assert parts[0] + tokens[0] == parts[0];
      assert Interleave(parts, seps) == parts[0] + t;
      assert parts == [parts[0]] + parts[1..];
    }
  }

  /** The separator runs `/[^\w]+/` matches in `s`, in order. */
  function Separators(s: string): (seps: seq<string>)
    ensures s != [] && !IsWordChar(s[0]) ==> seps != []
  {
    if s == [] then []
    else
      var rest := Separators(s[1..]);
      if IsWordChar(s[0]) then rest
      else if |s| > 1 && !IsWordChar(s[1]) then [[s[0]] + rest[0]] + rest[1..]
      else [[s[0]]] + rest
  }

  /** Every text is its pieces laid out between its separator runs: the
      split loses nothing but the runs, and cuts at every run. */
  lemma {:induction false} SplitWordsDecomposes(s: string)
    ensures WellSplit(SplitWords(s), Separators(s))
    ensures Interleave(SplitWords(s), Separators(s)) == s
  {
    if s != [] {
      var c, t := s[0], s[1..];
      SplitWordsDecomposes(t);
      var tokens', seps' := SplitWords(t), Separators(t);
      assert s == [c] + t;
      if IsWordChar(c) {
        WordExtends(c, tokens', seps');
      } else if |s| > 1 && !IsWordChar(s[1]) {
        assert tokens'[0] == [];
        RunExtends(c, tokens', seps');
      } else {
        assert |s| > 1 ==> tokens'[0] != [];
        RunStarts(c, tokens', seps');
      }
    }
  }

  /** A word character in front extends the first piece. */
  lemma WordExtends(c: char, tokens: seq<string>, seps: seq<string>)
    requires IsWordChar(c) && WellSplit(tokens, seps)
    ensures var tokens' := [[c] + tokens[0]] + tokens[1..];
      WellSplit(tokens', seps) && Interleave(tokens', seps) == [c] + Interleave(tokens, seps)
  {
    var tokens' := [[c] + tokens[0]] + tokens[1..];
    InterleavePrepend(tokens, seps, [c]);
    assert AllWordChars(tokens'[0]) by {
      forall i | 0 < i < |tokens'[0]| ensures IsWordChar(tokens'[0][i]) {
        assert tokens'[0][i] == tokens[0][i - 1];
      }
    }
    assert forall i | 0 < i < |tokens'| :: tokens'[i] == tokens[i];
  }

  /** A non-word character in front of a text that starts with a separator
      run extends that run. */
  lemma RunExtends(c: char, tokens: seq<string>, seps: seq<string>)
    requires !IsWordChar(c) && WellSplit(tokens, seps) && tokens[0] == [] && seps != []
    ensures var tokens', seps' := [[]] + tokens[1..], [[c] + seps[0]] + seps[1..];
      WellSplit(tokens', seps') && Interleave(tokens', seps') == [c] + Interleave(tokens, seps)
  {
    RunExtendsShape(c, tokens, seps);
    InterleaveIntoFirstRun([c], seps[0], tokens[1..], seps[1..]);
    assert tokens == [[]] + tokens[1..] && seps == [seps[0]] + seps[1..];
  }

  /** Characters in front of an empty first piece join the first run. */
  lemma InterleaveIntoFirstRun(x: string, sep: string, parts: seq<string>, seps: seq<string>)
    requires |parts| == |seps| + 1
    ensures Interleave([[]] + parts, [x + sep] + seps) == x + Interleave([[]] + parts, [sep] + seps)
  {
    var rest := Interleave(parts, seps);
    InterleaveCons([], x + sep, parts, seps);
    InterleaveCons([], sep, parts, seps);
    assert [] + (x + sep) + rest == x + ([] + sep + rest);
  }

  /** One step of `Interleave`. */
  lemma InterleaveCons(part: string, sep: string, parts: seq<string>, seps: seq<string>)
    requires |parts| == |seps| + 1
    ensures Interleave([part] + parts, [sep] + seps) == part + sep + Interleave(parts, seps)
  {
    assert ([part] + parts)[1..] == parts && ([sep] + seps)[1..] == seps;
  }

  /** Growing the first run keeps the shape of a split. */
  lemma RunExtendsShape(c: char, tokens: seq<string>, seps: seq<string>)
    requires !IsWordChar(c) && WellSplit(tokens, seps) && tokens[0] == [] && seps != []
    ensures WellSplit([[]] + tokens[1..], [[c] + seps[0]] + seps[1..])
  {
    var tokens', seps' := [[]] + tokens[1..], [[c] + seps[0]] + seps[1..];
    assert IsSeparatorRun(seps'[0]) by {
      forall i | 0 < i < |seps'[0]| ensures !IsWordChar(seps'[0][i]) {
        assert seps'[0][i] == seps[0][i - 1];
      }
    }
    assert forall i | 0 < i < |seps'| :: seps'[i] == seps[i];
    assert forall i | 0 < i < |tokens'| :: tokens'[i] == tokens[i];
  }

  /** A non-word character in front of a text that starts with a word
      character, or is empty, is a run of its own before an empty piece. */
  lemma RunStarts(c: char, tokens: seq<string>, seps: seq<string>)
    requires !IsWordChar(c) && WellSplit(tokens, seps) && (|tokens| > 1 ==> tokens[0] != [])
    ensures var tokens', seps' := [[]] + tokens, [[c]] + seps;
      WellSplit(tokens', seps') && Interleave(tokens', seps') == [c] + Interleave(tokens, seps)
  {
    var tokens', seps' := [[]] + tokens, [[c]] + seps;
    assert tokens'[1..] == tokens && seps'[1..] == seps;
    assert Interleave(tokens', seps') == [] + [c] + Interleave(tokens, seps);
    assert forall i | 0 < i < |tokens'| :: tokens'[i] == tokens[i - 1];
    assert forall i | 0 < i < |seps'| :: seps'[i] == seps[i - 1];
  }

  /** Characters in front of the first piece stay in front. */
  lemma InterleavePrepend(parts: seq<string>, seps: seq<string>, x: string)
    requires |parts| == |seps| + 1
    ensures Interleave([x + parts[0]] + parts[1..], seps) == x + Interleave(parts, seps)
  {
    var parts' := [x + parts[0]] + parts[1..];
    assert parts'[1..] == parts[1..];
  }

  /** Dropping the first piece and the first run keeps the shape, and the
      rest starts at a word character unless it is empty. */
  lemma WellSplitTail(parts: seq<string>, seps: seq<string>)
    requires WellSplit(parts, seps) && seps != []
    ensures WellSplit(parts[1..], seps[1..])
    ensures |seps| > 1 ==> parts[1] != []
  {
    forall i | 0 < i < |parts[1..]| - 1 ensures parts[1..][i] != [] {
      assert parts[1..][i] == parts[i + 1];
    }
  }

  /** An interleaving starts with a word character unless it is empty. */
  lemma InterleaveStart(parts: seq<string>, seps: seq<string>)
    requires |parts| == |seps| + 1 && AllWordChars(parts[0])
    requires |seps| > 0 ==> parts[0] != []
    ensures var s := Interleave(parts, seps); s == [] || IsWordChar(s[0])
  {
    if seps != [] {
      assert Interleave(parts, seps)[0] == parts[0][0];
    }
  }

  /** Word characters in front of a text that starts at a split point join
      its first piece. */
  lemma {:induction false} SplitWordsWordPrefix(w: string, t: string)
    requires AllWordChars(w) && (t == [] || !IsWordChar(t[0]))
    ensures SplitWords(w + t) == [w + SplitWords(t)[0]] + SplitWords(t)[1..]
  {
    var tokens := SplitWords(t);
    if w == [] {
      assert w + t == t;
      assert [tokens[0]] + tokens[1..] == tokens;
    } else {
      SplitWordsWordPrefix(w[1..], t);
      assert (w + t)[1..] == w[1..] + t;
      assert (w + t)[0] == w[0];
      assert [w[0]] + (w[1..] + tokens[0]) == w + tokens[0];
    }
  }

  /** A separator run in front of a text that starts with a word character
      (or is empty) adds one empty piece in front of its pieces. */
  lemma {:induction false} SplitWordsSeparatorPrefix(sep: string, u: string)
    requires IsSeparatorRun(sep) && (u == [] || IsWordChar(u[0]))
    ensures SplitWords(sep + u) == [[]] + SplitWords(u)
    decreases |sep|
  {
    var s := sep + u;
    assert s[1..] == sep[1..] + u;
    assert s[0] == sep[0];
    if |sep| == 1 {
      assert s[1..] == u;
    } else {
      assert s[1] == sep[1];
      SplitWordsSeparatorPrefix(sep[1..], u);
    }
  }

  /** Every piece occurs in the joined text. */
  lemma {:induction false} JoinContainsParts(parts: seq<string>, sep: string)
    ensures forall i | 0 <= i < |parts| :: Contains(Join(parts, sep), parts[i])
  {
    if |parts| > 1 {
      JoinContainsParts(parts[1..], sep);
      var rest := Join(parts[1..], sep);
      assert Join(parts, sep) == parts[0] + (sep + rest);
      ContainsParts(parts[0], sep + rest);
      assert Join(parts, sep) == (parts[0] + sep) + rest;
      ContainsParts(parts[0] + sep, rest);
      forall i | 1 <= i < |parts| ensures Contains(Join(parts, sep), parts[i]) {
        assert parts[i] == parts[1..][i - 1];
        ContainsTrans(Join(parts, sep), rest, parts[i]);
      }
    } else if |parts| == 1 {
      assert OccursAt(parts[0], parts[0], 0);
    }
  }

  /** A character in none of the pieces and not in the separator is not in
      the joined text. */
  lemma {:induction false} JoinAvoids(parts: seq<string>, sep: string, c: char)
    requires c !in sep
    requires forall i | 0 <= i < |parts| :: c !in parts[i]
    ensures c !in Join(parts, sep)
  {
    if |parts| > 1 {
      JoinAvoids(parts[1..], sep, c);
    }
  }
}
