/** The string operations of Python that the scanner and the report rely on:
    the substring test `pat in s`, str.strip() and str.split() with no
    argument, and the newline-terminated concatenation of report lines
    together with the reading that recovers them. A space-join is defined
    too, to state that an entry splits back into its fields. */
module Text {

  /** The whitespace class that str.strip() and str.split() use. */
  predicate IsSpace(c: char) {
    || c == ' '
    || '\t' <= c <= '\r'
    || '\U{1C}' <= c <= '\U{1F}'
    || c == '\U{85}' || c == '\U{A0}' || c == '\U{1680}'
    || '\U{2000}' <= c <= '\U{200A}'
    || c == '\U{2028}' || c == '\U{2029}'
    || c == '\U{202F}' || c == '\U{205F}' || c == '\U{3000}'
  }

  predicate SpaceFree(w: string) {
    forall i :: 0 <= i < |w| ==> !IsSpace(w[i])
  }

  /** What str.split() can yield: a non-empty run of non-whitespace. */
  predicate IsToken(w: string) {
    |w| > 0 && SpaceFree(w)
  }

  // ---------------------------------------------------------------------
  // Substring test (Python's `pat in s`)

  predicate OccursAt(s: string, pat: string, i: nat) {
    i + |pat| <= |s| && s[i..i + |pat|] == pat
  }

  function Contains(s: string, pat: string): bool
    decreases |s|
  {
    if |s| < |pat| then false
    else if s[..|pat|] == pat then true
    else Contains(s[1..], pat)
  }

  /** `pat in s` holds exactly when pat occurs at some position of s. */
  lemma {:induction false} ContainsIff(s: string, pat: string)
    ensures Contains(s, pat) <==> exists i: nat :: OccursAt(s, pat, i)
    decreases |s|
  {
    if |s| < |pat| {
      forall i: nat ensures !OccursAt(s, pat, i) { }
    } else if s[..|pat|] == pat {
      assert OccursAt(s, pat, 0);
    } else {
      ContainsIff(s[1..], pat);
      if Contains(s, pat) {
        var i: nat :| OccursAt(s[1..], pat, i);
        assert s[i + 1..i + 1 + |pat|] == s[1..][i..i + |pat|];
        assert OccursAt(s, pat, i + 1);
      } else {
        forall i: nat | OccursAt(s, pat, i) ensures false {
          if i > 0 {
            assert s[1..][i - 1..i - 1 + |pat|] == s[i..i + |pat|];
            assert OccursAt(s[1..], pat, i - 1);
          }
        }
      }
    }
  }

  // ---------------------------------------------------------------------
  // Whitespace tokenizer (Python's str.split() with no argument)

  /** Splits s, one character at a time, where `word` is the token read so
      far: a whitespace character ends the token in progress, any other
      character extends it. */
  function SplitFrom(s: string, word: string): seq<string> {
    if s == [] then
      if word == [] then [] else [word]
    else if IsSpace(s[0]) then
      (if word == [] then [] else [word]) + SplitFrom(s[1..], [])
    else
      SplitFrom(s[1..], word + [s[0]])
  }

  /** The maximal runs of non-whitespace of s, in order: str.split(). */
  function Tokens(s: string): seq<string> {
    SplitFrom(s, [])
  }

  lemma {:induction false} SplitFromAreTokens(s: string, word: string)
    requires SpaceFree(word)
    ensures forall k :: 0 <= k < |SplitFrom(s, word)| ==> IsToken(SplitFrom(s, word)[k])
    decreases |s|
  {
    if s != [] {
      if IsSpace(s[0]) {
        SplitFromAreTokens(s[1..], []);
      } else {
        SplitFromAreTokens(s[1..], word + [s[0]]);
      }
    }
  }

  /** Every piece str.split() yields is non-empty and free of whitespace. */
  lemma TokensAreTokens(s: string)
    ensures forall k :: 0 <= k < |Tokens(s)| ==> IsToken(Tokens(s)[k])
  {
    SplitFromAreTokens(s, []);
  }

  /** Reading a run of non-whitespace extends the token in progress. */
  lemma {:induction false} SplitFromWord(w: string, rest: string, word: string)
    requires SpaceFree(w)
    ensures SplitFrom(w + rest, word) == SplitFrom(rest, word + w)
    decreases |w|
  {
    if w == [] {
      assert w + rest == rest;
      assert word + w == word;
    } else {
      assert (w + rest)[1..] == w[1..] + rest;
      assert word + [w[0]] + w[1..] == word + w;
      SplitFromWord(w[1..], rest, word + [w[0]]);
    }
  }

  /** A token followed by a space splits off as the first token. */
  lemma TokensOfTokenSpace(w: string, rest: string)
    requires IsToken(w)
    ensures Tokens(w + " " + rest) == [w] + Tokens(rest)
  {
    SplitFromWord(w, " " + rest, []);
    assert w + " " + rest == w + (" " + rest);
    assert [] + w == w;
    assert (" " + rest)[1..] == rest;
  }

  /** A single token splits into itself. */
  lemma TokensOfToken(w: string)
    requires IsToken(w)
    ensures Tokens(w) == [w]
  {
    SplitFromWord(w, [], []);
    assert w + [] == w;
    assert [] + w == w;
  }

  /** ts joined with single spaces, as lines 48 and 62 join three fields. */
  function JoinSpaced(ts: seq<string>): string {
    if |ts| == 0 then ""
    else if |ts| == 1 then ts[0]
    else ts[0] + " " + JoinSpaced(ts[1..])
  }

  /** Splitting a space-joined list of tokens gives the tokens back. */
  lemma {:induction false} TokensJoinSpaced(ts: seq<string>)
    requires forall k :: 0 <= k < |ts| ==> IsToken(ts[k])
    ensures Tokens(JoinSpaced(ts)) == ts
    decreases |ts|
  {
    if |ts| == 1 {
      TokensOfToken(ts[0]);
    } else if |ts| > 1 {
      TokensOfTokenSpace(ts[0], JoinSpaced(ts[1..]));
      TokensJoinSpaced(ts[1..]);
      assert ts == [ts[0]] + ts[1..];
    }
  }

  /** A trailing whitespace character does not change the split. */
  lemma {:induction false} SplitFromAppendSpace(u: string, c: char, word: string)
    requires IsSpace(c)
    ensures SplitFrom(u + [c], word) == SplitFrom(u, word)
    decreases |u|
  {
    if u == [] {
      assert [c][1..] == [];
    } else {
      assert (u + [c])[1..] == u[1..] + [c];
      if IsSpace(u[0]) {
        SplitFromAppendSpace(u[1..], c, []);
      } else {
        SplitFromAppendSpace(u[1..], c, word + [u[0]]);
      }
    }
  }

  /** s without its leading whitespace. */
  function StripStart(s: string): string {
    if s != [] && IsSpace(s[0]) then StripStart(s[1..]) else s
  }

  /** s without its trailing whitespace. */
  function StripEnd(s: string): string {
    if s != [] && IsSpace(s[|s| - 1]) then StripEnd(s[..|s| - 1]) else s
  }

  /** Python's str.strip() with no argument. */
  function Strip(s: string): string {
    StripEnd(StripStart(s))
  }

  lemma {:induction false} TokensStripStart(s: string)
    ensures Tokens(StripStart(s)) == Tokens(s)
    decreases |s|
  {
    if s != [] && IsSpace(s[0]) {
      TokensStripStart(s[1..]);
    }
  }

  lemma {:induction false} TokensStripEnd(s: string)
    ensures Tokens(StripEnd(s)) == Tokens(s)
    decreases |s|
  {
    if s != [] && IsSpace(s[|s| - 1]) {
      var init := s[..|s| - 1];
      assert s == init + [s[|s| - 1]];
      SplitFromAppendSpace(init, s[|s| - 1], []);
      TokensStripEnd(init);
    }
  }

  /** `line.strip().split()` splits exactly as `line.split()`. */
  lemma TokensStrip(s: string)
    ensures Tokens(Strip(s)) == Tokens(s)
  {
    TokensStripEnd(StripStart(s));
    TokensStripStart(s);
  }

  // ---------------------------------------------------------------------
  // Newline-terminated lines

  /** The concatenation of r + "\n" over rs, built as the report loops
      build it: one line appended at a time. */
  function Lines(rs: seq<string>): string {
    if rs == [] then "" else Lines(rs[..|rs| - 1]) + rs[|rs| - 1] + "\n"
  }

  /** Position of the first newline of s, or |s| when there is none. */
  function NewlineAt(s: string): (k: nat)
    ensures k <= |s|
    ensures forall i :: 0 <= i < k ==> s[i] != '\n'
    ensures k < |s| ==> s[k] == '\n'
  {
    if s == [] || s[0] == '\n' then 0 else 1 + NewlineAt(s[1..])
  }

  // The uniqueness half of NewlineAt's contract.
  lemma NewlineAtUnique(s: string, k: nat)
    requires k <= |s|
    requires forall i :: 0 <= i < k ==> s[i] != '\n'
    requires k < |s| ==> s[k] == '\n'
    ensures NewlineAt(s) == k
  {
  }

  /** Reads text back into its lines: the pieces between newlines, with a
      final unterminated piece kept when it is non-empty. */
  function Unlines(s: string): seq<string>
    decreases |s|
  {
    if s == [] then []
    else
      var k := NewlineAt(s);
      if k == |s| then [s] else [s[..k]] + Unlines(s[k + 1..])
  }

  predicate NewlineFree(rs: seq<string>) {
    forall k :: 0 <= k < |rs| ==> '\n' !in rs[k]
  }

  /** Joining two lists of lines is joining each of them in turn. */
  lemma {:induction false} LinesAppend(a: seq<string>, b: seq<string>)
    ensures Lines(a + b) == Lines(a) + Lines(b)
    decreases |b|
  {
    if b == [] {
      assert a + b == a;
    } else {
      var n := |b| - 1;
      assert (a + b)[..|a + b| - 1] == a + b[..n];
      LinesAppend(a, b[..n]);
    }
  }

  /** Reading the joined lines back gives the lines, when none of them
      holds a newline of its own. */
  lemma {:induction false} UnlinesLines(rs: seq<string>)
    requires NewlineFree(rs)
    ensures Unlines(Lines(rs)) == rs
    decreases |rs|
  {
    if rs != [] {
      var r, rest := rs[0], rs[1..];
      assert rs == [r] + rest;
      assert [r][..0] == [];
      LinesAppend([r], rest);
      var s := Lines(rs);
      assert s == r + "\n" + Lines(rest);
      forall i | 0 <= i < |r| ensures s[i] != '\n' {
        assert s[i] == r[i];
        assert r[i] in r;
      }
      NewlineAtUnique(s, |r|);
      assert s[..|r|] == r;
      assert s[|r| + 1..] == Lines(rest);
      assert NewlineFree(rest) by {
        forall k | 0 <= k < |rest| ensures '\n' !in rest[k] {
          assert rest[k] == rs[k + 1];
        }
      }
      UnlinesLines(rest);
    }
  }
}
