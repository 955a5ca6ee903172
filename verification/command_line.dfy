/** Command lines and their words. */
module CommandLine {
  import opened CString
  import opened Strtok

  const DELIMITERS: string := " \t\n"

  /** The tokens of a command line. */
  function LineTokens(line: string): seq<Span>
    requires NUL !in line
  {
    LineEnds(line);
    Tokens(line + [NUL], DELIMITERS, true, 0)
  }

  /** The texts of tokens. */
  function Texts(m: string, ts: seq<Span>): (r: seq<string>)
    requires forall i :: 0 <= i < |ts| ==> ts[i].start <= ts[i].end <= |m|
    ensures |r| == |ts| && forall i :: 0 <= i < |ts| ==> r[i] == m[ts[i].start..ts[i].end]
  {
    seq(|ts|, i requires 0 <= i < |ts| => m[ts[i].start..ts[i].end])
  }

  function Words(line: string): (r: seq<string>)
    requires NUL !in line
    ensures |r| == |LineTokens(line)|
  {
    WordBounds(line);
    Texts(line + [NUL], LineTokens(line))
  }

  lemma LineEnds(line: string)
    requires NUL !in line
    ensures Terminated(line + [NUL], 0) && StringEnd(line + [NUL], 0) == |line|
  {
    var m := line + [NUL];
    forall i | 0 <= i < |line| ensures m[i] != NUL {
      assert m[i] == line[i];
    }
    EndAt(m, 0, |line|);
  }

  lemma WordBounds(line: string)
    requires NUL !in line
    ensures forall i :: 0 <= i < |LineTokens(line)| ==>
      LineTokens(line)[i].start <= LineTokens(line)[i].end <= |line|
  {
    LineEnds(line);
    TokensInOrder(line + [NUL], DELIMITERS, true, 0);
  }

  /** What separates words. */
  predicate IsBlank(c: char) {
    c == ' ' || c == '\t' || c == '\n'
  }

  lemma BlanksDelimit(c: char)
    ensures c in DELIMITERS <==> IsBlank(c)
  {
    assert DELIMITERS[0] == ' ' && DELIMITERS[1] == '\t' && DELIMITERS[2] == '\n';
  }

  /** A non-empty stretch of a line without blanks, tabs and newlines, bounded by them or by its ends. */
  ghost predicate WordStretch(line: string, j: nat, k: nat) {
    && j < k <= |line|
    && (forall i :: j <= i < k ==> !IsBlank(line[i]))
    && (j == 0 || IsBlank(line[j - 1])) && (k == |line| || IsBlank(line[k]))
  }

  /** The words of a line are its maximal stretches without blanks, tabs and newlines. */
  lemma WordsAreStretches(line: string, j: nat, k: nat)
    requires NUL !in line
    ensures Span(j, k) in LineTokens(line) <==> WordStretch(line, j, k)
  {
    LineEnds(line);
    TokensAreStretches(line + [NUL], DELIMITERS, true, 0, j, k);
    forall c ensures c in DELIMITERS <==> IsBlank(c) {
      BlanksDelimit(c);
    }
    var m := line + [NUL];
    assert forall i :: 0 <= i < |line| ==> m[i] == line[i];
  }

  // ----- lines put together from words -----

  /** Words with what stands before, between and behind them. */
  function Joined(words: seq<string>, gaps: seq<string>): string
    requires |gaps| == |words| + 1
  {
    if words == [] then gaps[0] else gaps[0] + words[0] + Joined(words[1..], gaps[1..])
  }

  predicate AllBlank(s: string) {
    forall i :: 0 <= i < |s| ==> IsBlank(s[i])
  }

  predicate ProperWord(s: string) {
    s != "" && forall i :: 0 <= i < |s| ==> !IsBlank(s[i]) && s[i] != '\0'
  }

  /** Words, and blanks, tabs and newlines that can stand around them. */
  ghost predicate Parts(words: seq<string>, gaps: seq<string>) {
    && |gaps| == |words| + 1
    && (forall i :: 0 <= i < |words| ==> ProperWord(words[i]))
    && (forall i :: 0 <= i < |gaps| ==> AllBlank(gaps[i]))
    && (forall i :: 0 < i < |words| ==> gaps[i] != "")
  }

  /** The line consists of these words, with blanks, tabs and newlines around them. */
  ghost predicate Spells(line: string, words: seq<string>, gaps: seq<string>) {
    Parts(words, gaps) && line == Joined(words, gaps)
  }

  lemma {:induction false} SkipsGap(m: string, q: nat, n: nat)
    requires Terminated(m, q) && q + n < |m| && AllBlank(m[q..q + n]) && !IsBlank(m[q + n])
    ensures SkipDelimiters(m, DELIMITERS, q) == q + n
    decreases n
  {
    BlanksDelimit(m[q]);
    if 0 < n {
      assert IsBlank(m[q..q + n][0]);
      assert m[q + 1..q + n] == m[q..q + n][1..];
      SkipsGap(m, q + 1, n - 1);
    }
  }

  lemma {:induction false} WordEnds(m: string, q: nat, n: nat)
    requires Terminated(m, q) && q + n < |m|
    requires forall i :: q <= i < q + n ==> !IsBlank(m[i]) && m[i] != NUL
    requires IsBlank(m[q + n]) || m[q + n] == NUL
    ensures TokenEnd(m, DELIMITERS, q) == q + n
    decreases n
  {
    BlanksDelimit(m[q]);
    if 0 < n {
      WordEnds(m, q + 1, n - 1);
    }
  }

  lemma {:induction false} JoinedPlain(words: seq<string>, gaps: seq<string>)
    requires Parts(words, gaps)
    ensures NUL !in Joined(words, gaps)
  {
    assert AllBlank(gaps[0]);
    if words != [] {
      TailParts(words, gaps);
      assert ProperWord(words[0]);
      JoinedPlain(words[1..], gaps[1..]);
    }
  }

  lemma TailParts(words: seq<string>, gaps: seq<string>)
    requires words != [] && Parts(words, gaps)
    ensures Parts(words[1..], gaps[1..])
  {
    forall i | 0 < i < |words[1..]| ensures gaps[1..][i] != "" {
      assert gaps[i + 1] != "";
    }
  }

  /** The first separator behind a word belongs to the word: what follows is a line again. */
  lemma GapShortened(words: seq<string>, gaps: seq<string>)
    requires Parts(words, gaps) && gaps[0] != ""
    ensures var gaps' := gaps[0 := gaps[0][1..]];
            && Parts(words, gaps')
            && Joined(words, gaps) == [gaps[0][0]] + Joined(words, gaps')
            && IsBlank(gaps[0][0])
  {
    assert AllBlank(gaps[0]);
    assert gaps[0] == [gaps[0][0]] + gaps[0][1..];
  }

  /** If anything follows the first word, it starts with a separator. */
  lemma BehindWord(words: seq<string>, gaps: seq<string>)
    requires words != [] && Parts(words, gaps)
    ensures Joined(words[1..], gaps[1..]) == "" ==> words[1..] == []
    ensures Joined(words[1..], gaps[1..]) != "" ==> gaps[1] != "" && IsBlank(Joined(words[1..], gaps[1..])[0])
  {
    assert AllBlank(gaps[1]);
    if 1 < |words| {
      assert gaps[1] != "";
    }
  }

  /** The tokens are these words. */
  ghost predicate TextsAre(m: string, ts: seq<Span>, words: seq<string>) {
    && |ts| == |words|
    && forall i :: 0 <= i < |ts| ==> ts[i].start <= ts[i].end <= |m| && m[ts[i].start..ts[i].end] == words[i]
  }

  /** The tokens of the string at `q` are these words. */
  ghost predicate Tokenized(m: string, q: nat, words: seq<string>) {
    Terminated(m, q) && TextsAre(m, Tokens(m, DELIMITERS, true, q), words)
  }

  lemma LineTerminated(m: string, p: string, line: string)
    requires m == p + line + [NUL] && NUL !in line
    ensures Terminated(m, |p|) && StringEnd(m, |p|) == |m| - 1
  {
    forall i | |p| <= i < |m| - 1 ensures m[i] != NUL {
      assert m[i] == line[i - |p|];
    }
    EndAt(m, |p|, |m| - 1);
  }

  /** Where the parts of a line lie in memory. */
  ghost predicate LaidOut(m: string, q: nat, j: nat, k: nat, gap: string, word: string, rest: string) {
    && q <= j <= k < |m| && m[q..j] == gap && m[j..k] == word && m[k..] == rest + [NUL]
  }

  lemma Pieces(m: string, p: string, gap: string, word: string, rest: string)
    requires m == p + (gap + word + rest) + [NUL]
    ensures LaidOut(m, |p|, |p| + |gap|, |p| + |gap| + |word|, gap, word, rest)
  {
    var q, j, k := |p|, |p| + |gap|, |p| + |gap| + |word|;
    var t := gap + word + rest;
    assert m[q..] == t + [NUL];
    assert m[q..j] == m[q..][..j - q] == gap;
    assert m[j..k] == m[q..][j - q..k - q] == word;
    assert m[k..] == m[q..][k - q..] == rest + [NUL];
  }

  /** The first token is the first word. */
  lemma FirstToken(m: string, q: nat, j: nat, k: nat, gap: string, word: string, rest: string)
    requires LaidOut(m, q, j, k, gap, word, rest) && AllBlank(gap) && ProperWord(word)
    requires NUL !in rest && (rest != "" ==> IsBlank(rest[0])) && Terminated(m, q)
    ensures m[j] != NUL && m[j..k] == word && (m[k] == NUL <==> rest == "")
    ensures TokenStart(m, DELIMITERS, true, q) == j && TokenEnd(m, DELIMITERS, j) == k
  {
    forall i | j <= i < k ensures !IsBlank(m[i]) && m[i] != NUL {
      assert m[i] == m[j..k][i - j];
    }
    assert m[k] == m[k..][0];
    SkipsGap(m, q, |gap|);
    WordEnds(m, j, |word|);
  }

  lemma TextsCons(m: string, t: Span, ts: seq<Span>, words: seq<string>)
    requires words != [] && t.start <= t.end <= |m| && m[t.start..t.end] == words[0] && TextsAre(m, ts, words[1..])
    ensures TextsAre(m, [t] + ts, words)
  {
  }

  lemma {:induction false} JoinedTokens(m: string, p: string, words: seq<string>, gaps: seq<string>)
    requires Parts(words, gaps) && m == p + Joined(words, gaps) + [NUL]
    ensures Tokenized(m, |p|, words)
    decreases |words|, 1
  {
    JoinedPlain(words, gaps);
    LineTerminated(m, p, Joined(words, gaps));
    if words == [] {
      var n := |gaps[0]|;
      assert AllBlank(gaps[0]);
      assert m[|p|..|p| + n] == gaps[0];
      SkipsGap(m, |p|, n);
      NoTokens(m, DELIMITERS, true, |p|);
    } else {
      WordThenRest(m, p, words, gaps, Joined(words[1..], gaps[1..]));
    }
  }

  /** The first word of the line is the first token. */
  lemma WordIsToken(m: string, p: string, words: seq<string>, gaps: seq<string>, rest: string, j: nat, k: nat)
    requires words != [] && Parts(words, gaps) && m == p + Joined(words, gaps) + [NUL]
    requires rest == Joined(words[1..], gaps[1..]) && Terminated(m, |p|)
    requires j == |p| + |gaps[0]| && k == j + |words[0]|
    ensures LaidOut(m, |p|, j, k, gaps[0], words[0], rest)
    ensures m[j] != NUL && (m[k] == NUL <==> rest == "")
    ensures TokenStart(m, DELIMITERS, true, |p|) == j && TokenEnd(m, DELIMITERS, j) == k
  {
    assert AllBlank(gaps[0]) && ProperWord(words[0]);
    TailParts(words, gaps);
    JoinedPlain(words[1..], gaps[1..]);
    BehindWord(words, gaps);
    Pieces(m, p, gaps[0], words[0], rest);
    FirstToken(m, |p|, j, k, gaps[0], words[0], rest);
  }

  lemma WordThenRest(m: string, p: string, words: seq<string>, gaps: seq<string>, rest: string)
    requires words != [] && Parts(words, gaps) && m == p + Joined(words, gaps) + [NUL]
    requires rest == Joined(words[1..], gaps[1..]) && Terminated(m, |p|)
    ensures Tokenized(m, |p|, words)
    decreases |words|, 0
  {
    var j := |p| + |gaps[0]|;
    var k := j + |words[0]|;
    WordIsToken(m, p, words, gaps, rest, j, k);
    BehindWord(words, gaps);
    if rest == "" {
      LastToken(m, |p|, j, k, words);
    } else {
      TailParts(words, gaps);
      RestTokenized(m, k, words[1..], gaps[1..]);
      TokenThenRest(m, |p|, j, k, words);
    }
  }

  lemma TextsOne(m: string, t: Span, words: seq<string>)
    requires |words| == 1 && t.start <= t.end <= |m| && m[t.start..t.end] == words[0]
    ensures TextsAre(m, [t], words)
  {
  }

  lemma LastToken(m: string, q: nat, j: nat, k: nat, words: seq<string>)
    requires Terminated(m, q) && j == TokenStart(m, DELIMITERS, true, q) && m[j] != NUL && k == TokenEnd(m, DELIMITERS, j)
    requires |words| == 1 && m[j..k] == words[0] && m[k] == NUL
    ensures Tokenized(m, q, words)
  {
    TokensStep(m, DELIMITERS, true, q, j, k);
    TextsOne(m, Span(j, k), words);
  }

  lemma TokenThenRest(m: string, q: nat, j: nat, k: nat, words: seq<string>)
    requires Terminated(m, q) && j == TokenStart(m, DELIMITERS, true, q) && m[j] != NUL && k == TokenEnd(m, DELIMITERS, j)
    requires words != [] && m[j..k] == words[0] && m[k] != NUL && Tokenized(m, k + 1, words[1..])
    ensures Tokenized(m, q, words)
  {
    TokensStep(m, DELIMITERS, true, q, j, k);
    TextsCons(m, Span(j, k), Tokens(m, DELIMITERS, true, k + 1), words);
  }

  /** What follows a word, from behind its first separator on. */
  lemma RestTokenized(m: string, k: nat, words: seq<string>, gaps: seq<string>)
    requires Parts(words, gaps) && gaps[0] != "" && k <= |m| && m[k..] == Joined(words, gaps) + [NUL]
    ensures Tokenized(m, k + 1, words)
    decreases |words|, 2
  {
    GapShortened(words, gaps);
    var gaps' := gaps[0 := gaps[0][1..]];
    assert m[k..][1..] == Joined(words, gaps') + [NUL];
    assert m == m[..k + 1] + m[k + 1..] && m[k + 1..] == m[k..][1..];
    assert m == m[..k + 1] + Joined(words, gaps') + [NUL];
    JoinedTokens(m, m[..k + 1], words, gaps');
  }

  /** The words of a line are those it was put together from. */
  lemma SpelledWords(line: string, words: seq<string>, gaps: seq<string>)
    requires Spells(line, words, gaps)
    ensures NUL !in line && Words(line) == words
  {
    JoinedPlain(words, gaps);
    assert line + [NUL] == "" + line + [NUL];
    JoinedTokens(line + [NUL], "", words, gaps);
    assert Texts(line + [NUL], LineTokens(line)) == words;
  }
}
