/** The re-entrant tokenizer. It cuts a terminated string in place by overwriting the
    delimiter behind each token, and keeps its position in `lasts`. */
module Strtok {
  import opened CString
  import opened Memory

  predicate ProperDelimiters(delim: string) {
    NUL !in delim
  }

  /** The first position from `q` on that holds no delimiter. */
  function SkipDelimiters(m: seq<char>, delim: string, q: nat): (j: nat)
    requires Terminated(m, q) && ProperDelimiters(delim)
    ensures q <= j <= StringEnd(m, q)
    ensures m[j] !in delim
    ensures StringEnd(m, j) == StringEnd(m, q)
    decreases |m| - q
  {
    if m[q] in delim then SkipDelimiters(m, delim, q + 1) else q
  }

  /** The first position from `q` on that holds a delimiter or the terminator. */
  function TokenEnd(m: seq<char>, delim: string, q: nat): (k: nat)
    requires Terminated(m, q)
    ensures q <= k <= StringEnd(m, q)
    ensures m[k] in delim || m[k] == NUL
    ensures StringEnd(m, k) == StringEnd(m, q)
    decreases |m| - q
  {
    if m[q] in delim || m[q] == NUL then q else TokenEnd(m, delim, q + 1)
  }

  lemma {:induction false} SkippedAreDelimiters(m: seq<char>, delim: string, q: nat)
    requires Terminated(m, q) && ProperDelimiters(delim)
    ensures forall i :: q <= i < SkipDelimiters(m, delim, q) ==> m[i] in delim
    decreases |m| - q
  {
    if m[q] in delim {
      SkippedAreDelimiters(m, delim, q + 1);
    }
  }

  lemma {:induction false} InsideIsPlain(m: seq<char>, delim: string, q: nat)
    requires Terminated(m, q)
    ensures forall i :: q <= i < TokenEnd(m, delim, q) ==> m[i] !in delim && m[i] != NUL
    decreases |m| - q
  {
    if m[q] !in delim && m[q] != NUL {
      InsideIsPlain(m, delim, q + 1);
    }
  }

  /** Where the next token starts, if there is one. */
  function TokenStart(m: seq<char>, delim: string, skip: bool, q: nat): (j: nat)
    requires Terminated(m, q) && ProperDelimiters(delim)
    ensures q <= j <= StringEnd(m, q) && StringEnd(m, j) == StringEnd(m, q)
  {
    if skip then SkipDelimiters(m, delim, q) else q
  }

  /** One call: the token (or NULL), the new position (or NULL), the new memory. */
  datatype Outcome = Outcome(tok: Option<nat>, lasts: Option<nat>, m: seq<char>)

  function Cut(m: seq<char>, delim: string, skip: bool, q: nat): Outcome
    requires Terminated(m, q) && ProperDelimiters(delim)
  {
    var j := TokenStart(m, delim, skip, q);
    if m[j] == NUL then Outcome(None, None, m)
    else
      var k := TokenEnd(m, delim, j);
      if m[k] == NUL then Outcome(Some(j), None, m) else Outcome(Some(j), Some(k + 1), m[k := NUL])
  }

  /** A call with `s` NULL goes on at `lasts`, and returns NULL if that is NULL too. */
  function Call(m: seq<char>, s: Option<nat>, delim: string, lasts: Option<nat>, skip: bool): Outcome
    requires ProperDelimiters(delim)
    requires s.Some? ==> Terminated(m, s.value)
    requires s.None? && lasts.Some? ==> Terminated(m, lasts.value)
  {
    if s.Some? then Cut(m, delim, skip, s.value)
    else if lasts.Some? then Cut(m, delim, skip, lasts.value)
    else Outcome(None, None, m)
  }

  // ----- the tokenizer -----

  /** Scan the delimiters, up to their terminator. */
  method IsDelimiter(c: char, delim: string) returns (found: bool)
    ensures found <==> c in delim
  {
    var spanp := 0;
    while spanp < |delim|
      invariant spanp <= |delim| && c !in delim[..spanp]
    {
      if c == delim[spanp] {
        return true;
      }
      spanp := spanp + 1;
    }
    return false;
  }

  /** Pass over leading delimiters, or stop at the first in the mode that keeps empty tokens. */
  method FindStart(a: array<char>, q: nat, delim: string, skip: bool) returns (j: nat, empty: bool)
    requires ProperDelimiters(delim) && Terminated(a[..], q)
    ensures j == TokenStart(a[..], delim, skip, q)
    ensures empty == (!skip && a[j] in delim)
  {
    j := q;
    while true
      invariant q <= j <= StringEnd(a[..], q) && (!skip ==> j == q)
      invariant StringEnd(a[..], j) == StringEnd(a[..], q)
      invariant TokenStart(a[..], delim, skip, j) == TokenStart(a[..], delim, skip, q)
      decreases StringEnd(a[..], q) - j
    {
      var found := IsDelimiter(a[j], delim);
      if !found {
        return j, false;
      }
      if !skip {
        return j, true;
      }
      j := j + 1;
    }
  }

  /** Scan to the delimiter or terminator that ends a token. */
  method FindEnd(a: array<char>, j: nat, delim: string) returns (k: nat)
    requires Terminated(a[..], j)
    ensures k == TokenEnd(a[..], delim, j)
  {
    k := j;
    while true
      invariant j <= k <= StringEnd(a[..], j)
      invariant StringEnd(a[..], k) == StringEnd(a[..], j)
      invariant TokenEnd(a[..], delim, k) == TokenEnd(a[..], delim, j)
      decreases StringEnd(a[..], j) - k
    {
      var found := IsDelimiter(a[k], delim);
      if found || a[k] == NUL {
        return k;
      }
      k := k + 1;
    }
  }

  method StrtokWithMode(a: array<char>, s: Option<nat>, delim: string, lasts: Option<nat>, skip: bool)
    returns (tok: Option<nat>, lasts': Option<nat>)
    requires ProperDelimiters(delim)
    requires s.Some? ==> Terminated(a[..], s.value)
    requires s.None? && lasts.Some? ==> Terminated(a[..], lasts.value)
    modifies a
    ensures Outcome(tok, lasts', a[..]) == Call(old(a[..]), s, delim, lasts, skip)
  {
    var p := if s.Some? then s else lasts;
    if p.None? {
      return None, None;
    }
    var start, empty := FindStart(a, p.value, delim, skip);
    if empty {
      a[start] := NUL;
      return Some(start), Some(start + 1);
    }
    if a[start] == NUL {
      return None, None;
    }
    var end := FindEnd(a, start, delim);
    if a[end] == NUL {
      return Some(start), None;
    }
    a[end] := NUL;
    return Some(start), Some(end + 1);
  }

  method StrtokR(a: array<char>, s: Option<nat>, delim: string, lasts: Option<nat>)
    returns (tok: Option<nat>, lasts': Option<nat>)
    requires ProperDelimiters(delim)
    requires s.Some? ==> Terminated(a[..], s.value)
    requires s.None? && lasts.Some? ==> Terminated(a[..], lasts.value)
    modifies a
    ensures Outcome(tok, lasts', a[..]) == Call(old(a[..]), s, delim, lasts, true)
  {
    tok, lasts' := StrtokWithMode(a, s, delim, lasts, true);
  }

  // ----- the tokens of a string -----

  /** A token in memory: from `start` up to `end`. */
  datatype Span = Span(start: nat, end: nat)

  /** The tokens from `q` on. */
  function Tokens(m: seq<char>, delim: string, skip: bool, q: nat): seq<Span>
    requires Terminated(m, q) && ProperDelimiters(delim)
    decreases |m| - q
  {
    var j := TokenStart(m, delim, skip, q);
    if m[j] == NUL then []
    else
      var k := TokenEnd(m, delim, j);
      if m[k] == NUL then [Span(j, k)] else [Span(j, k)] + Tokens(m, delim, skip, k + 1)
  }

  /** A stretch without delimiters that is bounded by delimiters or by the ends of the string `[q, e)`. */
  ghost predicate Stretch(m: seq<char>, delim: string, q: nat, e: nat, j: nat, k: nat) {
    && q <= j <= k <= e <= |m|
    && (forall i :: j <= i < k ==> m[i] !in delim)
    && (j == q || m[j - 1] in delim)
    && (k == e || m[k] in delim)
  }

  /** Which stretches count as tokens. */
  ghost predicate Wanted(m: seq<char>, skip: bool, e: nat, j: nat, k: nat) {
    if skip then j < k else j < e
  }

  /** The first token is a stretch, and nothing before it counts as one. */
  lemma FirstStretch(m: seq<char>, delim: string, skip: bool, q: nat)
    requires Terminated(m, q) && ProperDelimiters(delim)
    ensures var s, e := TokenStart(m, delim, skip, q), StringEnd(m, q);
            && (s == q || m[s - 1] in delim)
            && (forall j: nat, k: nat :: Stretch(m, delim, q, e, j, k) && Wanted(m, skip, e, j, k) ==> s <= j && s < e)
            && (m[s] != NUL ==> Stretch(m, delim, q, e, s, TokenEnd(m, delim, s)) && s < e)
  {
    SkippedAreDelimiters(m, delim, q);
    var s, e := TokenStart(m, delim, skip, q), StringEnd(m, q);
    InsideIsPlain(m, delim, s);
    forall j: nat, k: nat | Stretch(m, delim, q, e, j, k) && Wanted(m, skip, e, j, k) ensures s <= j && s < e {
      if skip {
        assert m[j] !in delim;
      }
    }
  }

  /** A stretch that starts inside the first token is the first token. */
  lemma StretchInFirst(m: seq<char>, delim: string, q: nat, e: nat, s: nat, j: nat, k: nat)
    requires Terminated(m, s) && StringEnd(m, s) == e && Stretch(m, delim, q, e, j, k)
    requires q <= s <= j <= TokenEnd(m, delim, s)
    ensures j == s && k == TokenEnd(m, delim, s)
  {
    InsideIsPlain(m, delim, s);
  }

  lemma {:induction false} TokenIsStretch(m: seq<char>, delim: string, skip: bool, q: nat, j: nat, k: nat)
    requires Terminated(m, q) && ProperDelimiters(delim)
    requires Span(j, k) in Tokens(m, delim, skip, q)
    ensures Stretch(m, delim, q, StringEnd(m, q), j, k) && Wanted(m, skip, StringEnd(m, q), j, k)
    decreases |m| - q
  {
    var s := TokenStart(m, delim, skip, q);
    var t := TokenEnd(m, delim, s);
    FirstStretch(m, delim, skip, q);
    if Span(j, k) != Span(s, t) {
      TokenIsStretch(m, delim, skip, t + 1, j, k);
    }
  }

  lemma {:induction false} StretchIsToken(m: seq<char>, delim: string, skip: bool, q: nat, j: nat, k: nat)
    requires Terminated(m, q) && ProperDelimiters(delim)
    requires Stretch(m, delim, q, StringEnd(m, q), j, k) && Wanted(m, skip, StringEnd(m, q), j, k)
    ensures Span(j, k) in Tokens(m, delim, skip, q)
    decreases |m| - q
  {
    var s := TokenStart(m, delim, skip, q);
    FirstStretch(m, delim, skip, q);
    var t := TokenEnd(m, delim, s);
    TokensStep(m, delim, skip, q, s, t);
    if j <= t {
      StretchInFirst(m, delim, q, StringEnd(m, q), s, j, k);
    } else {
      assert m[t] != NUL;
      StretchIsToken(m, delim, skip, t + 1, j, k);
    }
  }

  /** In the skipping mode the tokens are exactly the maximal non-empty delimiter-free
      stretches; in the other mode exactly the fields between single delimiters, except
      for an empty field at the very end. */
  lemma TokensAreStretches(m: seq<char>, delim: string, skip: bool, q: nat, j: nat, k: nat)
    requires Terminated(m, q) && ProperDelimiters(delim)
    ensures Span(j, k) in Tokens(m, delim, skip, q) <==>
              Stretch(m, delim, q, StringEnd(m, q), j, k) && Wanted(m, skip, StringEnd(m, q), j, k)
  {
    if Span(j, k) in Tokens(m, delim, skip, q) {
      TokenIsStretch(m, delim, skip, q, j, k);
    }
    if Stretch(m, delim, q, StringEnd(m, q), j, k) && Wanted(m, skip, StringEnd(m, q), j, k) {
      StretchIsToken(m, delim, skip, q, j, k);
    }
  }

  /** Tokens come in order, with at least a delimiter in between. */
  ghost predicate InOrder(ts: seq<Span>, q: nat, e: nat) {
    && (forall i :: 0 <= i < |ts| ==> q <= ts[i].start <= ts[i].end <= e)
    && (forall i, k :: 0 <= i < k < |ts| ==> ts[i].end < ts[k].start)
  }

  lemma InOrderCons(s: nat, t: nat, rest: seq<Span>, q: nat, e: nat)
    requires q <= s <= t <= e && InOrder(rest, t + 1, e)
    ensures InOrder([Span(s, t)] + rest, q, e)
  {
  }

  lemma InOrderOne(s: nat, t: nat, q: nat, e: nat)
    requires q <= s <= t <= e
    ensures InOrder([Span(s, t)], q, e)
  {
  }

  lemma OrderLast(m: seq<char>, delim: string, skip: bool, q: nat, s: nat, t: nat)
    requires Terminated(m, q) && ProperDelimiters(delim)
    requires s == TokenStart(m, delim, skip, q) && m[s] != NUL && t == TokenEnd(m, delim, s) && m[t] == NUL
    ensures InOrder(Tokens(m, delim, skip, q), q, StringEnd(m, q))
  {
    TokensStep(m, delim, skip, q, s, t);
    InOrderOne(s, t, q, StringEnd(m, q));
  }

  lemma OrderMore(m: seq<char>, delim: string, skip: bool, q: nat, s: nat, t: nat)
    requires Terminated(m, q) && ProperDelimiters(delim)
    requires s == TokenStart(m, delim, skip, q) && m[s] != NUL && t == TokenEnd(m, delim, s) && m[t] != NUL
    requires Terminated(m, t + 1) && InOrder(Tokens(m, delim, skip, t + 1), t + 1, StringEnd(m, q))
    ensures InOrder(Tokens(m, delim, skip, q), q, StringEnd(m, q))
  {
    TokensStep(m, delim, skip, q, s, t);
    InOrderCons(s, t, Tokens(m, delim, skip, t + 1), q, StringEnd(m, q));
  }

  lemma {:induction false} TokensInOrder(m: seq<char>, delim: string, skip: bool, q: nat)
    requires Terminated(m, q) && ProperDelimiters(delim)
    ensures InOrder(Tokens(m, delim, skip, q), q, StringEnd(m, q))
    decreases |m| - q
  {
    var s := TokenStart(m, delim, skip, q);
    var t := TokenEnd(m, delim, s);
    if m[s] == NUL {
      NoTokens(m, delim, skip, q);
    } else if m[t] == NUL {
      OrderLast(m, delim, skip, q, s, t);
    } else {
      TokensStep(m, delim, skip, q, s, t);
      TokensInOrder(m, delim, skip, t + 1);
      OrderMore(m, delim, skip, q, s, t);
    }
  }

  // ----- repeated calls -----

  /** The results of `n` further calls that go on at `lasts`. */
  function Results(m: seq<char>, delim: string, skip: bool, lasts: Option<nat>, n: nat): seq<Option<nat>>
    requires ProperDelimiters(delim) && (lasts.Some? ==> Terminated(m, lasts.value))
    decreases n
  {
    if n == 0 then []
    else
      var o := Call(m, None, delim, lasts, skip);
      CallKeepsTerminated(m, delim, skip, lasts);
      [o.tok] + Results(o.m, delim, skip, o.lasts, n - 1)
  }

  /** The memory after `n` further calls. */
  function MemoryAfter(m: seq<char>, delim: string, skip: bool, lasts: Option<nat>, n: nat): (r: seq<char>)
    requires ProperDelimiters(delim) && (lasts.Some? ==> Terminated(m, lasts.value))
    ensures |r| == |m|
    decreases n
  {
    if n == 0 then m
    else
      var o := Call(m, None, delim, lasts, skip);
      CallKeepsTerminated(m, delim, skip, lasts);
      MemoryAfter(o.m, delim, skip, o.lasts, n - 1)
  }

  lemma CallKeepsTerminated(m: seq<char>, delim: string, skip: bool, lasts: Option<nat>)
    requires ProperDelimiters(delim) && (lasts.Some? ==> Terminated(m, lasts.value))
    ensures var o := Call(m, None, delim, lasts, skip);
            o.lasts.Some? ==> Terminated(o.m, o.lasts.value) && StringEnd(o.m, o.lasts.value) == StringEnd(m, lasts.value)
  {
    var o := Call(m, None, delim, lasts, skip);
    if o.lasts.Some? {
      SameEnd(m, o.m, o.lasts.value);
    }
  }

  lemma {:induction false} SameEnd(m: seq<char>, m': seq<char>, q: nat)
    requires |m| == |m'| && forall i :: q <= i < |m| ==> m[i] == m'[i]
    ensures StringEnd(m, q) == StringEnd(m', q)
    decreases |m| - q
  {
    if q < |m| && m[q] != NUL {
      SameEnd(m, m', q + 1);
    }
  }

  /** The `k`-th of a list of results: the tokens in order, then NULL for ever. */
  function Expected(ts: seq<Span>, k: nat): Option<nat> {
    if k < |ts| then Some(ts[k].start) else None
  }

  function TokensLeft(m: seq<char>, delim: string, skip: bool, lasts: Option<nat>): seq<Span>
    requires ProperDelimiters(delim) && (lasts.Some? ==> Terminated(m, lasts.value))
  {
    if lasts.Some? then Tokens(m, delim, skip, lasts.value) else []
  }

  /** The token list one step on. */
  lemma TokensStep(m: seq<char>, delim: string, skip: bool, q: nat, j: nat, k: nat)
    requires Terminated(m, q) && ProperDelimiters(delim)
    requires j == TokenStart(m, delim, skip, q) && m[j] != NUL && k == TokenEnd(m, delim, j)
    ensures m[k] != NUL ==> Terminated(m, k + 1) && StringEnd(m, k + 1) == StringEnd(m, q)
    ensures Tokens(m, delim, skip, q) == if m[k] == NUL then [Span(j, k)] else [Span(j, k)] + Tokens(m, delim, skip, k + 1)
  {
  }

  lemma NoTokens(m: seq<char>, delim: string, skip: bool, q: nat)
    requires Terminated(m, q) && ProperDelimiters(delim) && m[TokenStart(m, delim, skip, q)] == NUL
    ensures Tokens(m, delim, skip, q) == [] && Cut(m, delim, skip, q) == Outcome(None, None, m)
  {
  }

  /** `m` still holds what `m0` holds from `q` up to the terminator. */
  ghost predicate Agree(m0: seq<char>, m: seq<char>, q: nat) {
    && Terminated(m0, q) && StringEnd(m0, q) < |m|
    && forall i :: q <= i <= StringEnd(m0, q) ==> m[i] == m0[i]
  }

  ghost predicate AgreeFrom(m0: seq<char>, m: seq<char>, lasts: Option<nat>) {
    lasts.Some? ==> Agree(m0, m, lasts.value) && Terminated(m, lasts.value)
  }

  lemma {:induction false} AgreeEnd(m0: seq<char>, m: seq<char>, q: nat)
    requires Agree(m0, m, q)
    ensures Terminated(m, q) && StringEnd(m, q) == StringEnd(m0, q)
    decreases |m0| - q
  {
    if m0[q] != NUL {
      AgreeEnd(m0, m, q + 1);
    }
  }

  lemma {:induction false} AgreeSkip(m0: seq<char>, m: seq<char>, delim: string, q: nat)
    requires Agree(m0, m, q) && Terminated(m, q) && ProperDelimiters(delim)
    ensures SkipDelimiters(m, delim, q) == SkipDelimiters(m0, delim, q)
    decreases |m0| - q
  {
    if m0[q] in delim {
      AgreeSkip(m0, m, delim, q + 1);
    }
  }

  lemma {:induction false} AgreeTokenEnd(m0: seq<char>, m: seq<char>, delim: string, q: nat)
    requires Agree(m0, m, q) && Terminated(m, q)
    ensures TokenEnd(m, delim, q) == TokenEnd(m0, delim, q)
    decreases |m0| - q
  {
    if m0[q] !in delim && m0[q] != NUL {
      AgreeTokenEnd(m0, m, delim, q + 1);
    }
  }

  lemma ConsTail<T>(x: T, rest: seq<T>)
    ensures ([x] + rest)[1..] == rest && ([x] + rest)[0] == x && [x] + rest != []
    ensures rest == [] ==> [x][1..] == []
  {
  }

  /** What a call does, told by the memory before anything was cut. */
  lemma CutToken(m0: seq<char>, m: seq<char>, delim: string, skip: bool, q: nat, j: nat, k: nat)
    requires ProperDelimiters(delim) && Agree(m0, m, q) && Terminated(m, q)
    requires j == TokenStart(m0, delim, skip, q) && m0[j] != NUL && k == TokenEnd(m0, delim, j)
    ensures k < |m|
    ensures Cut(m, delim, skip, q) == Outcome(Some(j), if m0[k] == NUL then None else Some(k + 1), m[k := NUL])
  {
    if skip {
      AgreeSkip(m0, m, delim, q);
    }
    AgreeEnd(m0, m, j);
    AgreeTokenEnd(m0, m, delim, j);
    if m[k] == NUL {
      assert m[k := NUL] == m;
    }
  }

  lemma CutNothing(m0: seq<char>, m: seq<char>, delim: string, skip: bool, q: nat)
    requires ProperDelimiters(delim) && Agree(m0, m, q) && Terminated(m, q)
    requires m0[TokenStart(m0, delim, skip, q)] == NUL
    ensures Cut(m, delim, skip, q) == Outcome(None, None, m)
  {
    if skip {
      AgreeSkip(m0, m, delim, q);
    }
  }

  lemma AgreeOn(m0: seq<char>, m: seq<char>, q: nat, k: nat)
    requires Agree(m0, m, q) && q <= k <= StringEnd(m0, q) && StringEnd(m0, k) == StringEnd(m0, q)
    ensures Agree(m0, m, k)
  {
  }

  lemma AgreeBehind(m0: seq<char>, m: seq<char>, k: nat)
    requires Agree(m0, m, k) && m0[k] != NUL
    ensures Agree(m0, m[k := NUL], k + 1) && Terminated(m[k := NUL], k + 1)
  {
    AgreeEnd(m0, m[k := NUL], k + 1);
  }

  /** The string behind the cut is still as it was. */
  lemma CutAgrees(m0: seq<char>, m: seq<char>, delim: string, skip: bool, q: nat, j: nat, k: nat)
    requires ProperDelimiters(delim) && Agree(m0, m, q) && Terminated(m, q)
    requires j == TokenStart(m0, delim, skip, q) && m0[j] != NUL && k == TokenEnd(m0, delim, j)
    ensures var o := Cut(m, delim, skip, q); AgreeFrom(m0, o.m, o.lasts)
  {
    CutToken(m0, m, delim, skip, q, j, k);
    if m0[k] != NUL {
      AgreeOn(m0, m, q, k);
      AgreeBehind(m0, m, k);
    }
  }

  lemma CutTakesToken(m0: seq<char>, m: seq<char>, delim: string, skip: bool, q: nat, j: nat, k: nat)
    requires ProperDelimiters(delim) && Agree(m0, m, q) && Terminated(m, q)
    requires j == TokenStart(m0, delim, skip, q) && m0[j] != NUL && k == TokenEnd(m0, delim, j)
    ensures var o, ts := Cut(m, delim, skip, q), Tokens(m0, delim, skip, q);
            && AgreeFrom(m0, o.m, o.lasts)
            && ts != [] && ts[0] == Span(j, k) && k < |m|
            && o.tok == Some(j) && o.m == m[k := NUL] && TokensLeft(m0, delim, skip, o.lasts) == ts[1..]
  {
    CutToken(m0, m, delim, skip, q, j, k);
    CutAgrees(m0, m, delim, skip, q, j, k);
    TokensStep(m0, delim, skip, q, j, k);
    ConsTail(Span(j, k), if m0[k] == NUL then [] else Tokens(m0, delim, skip, k + 1));
  }

  /** One call takes the first token off the list. */
  lemma CallTakesToken(m0: seq<char>, m: seq<char>, delim: string, skip: bool, lasts: Option<nat>)
    requires ProperDelimiters(delim) && AgreeFrom(m0, m, lasts)
    ensures var o, ts := Call(m, None, delim, lasts, skip), TokensLeft(m0, delim, skip, lasts);
            && AgreeFrom(m0, o.m, o.lasts)
            && (if ts == [] then o == Outcome(None, None, m)
                else
                  && o.tok == Some(ts[0].start) && TokensLeft(m0, delim, skip, o.lasts) == ts[1..]
                  && ts[0].end < |m| && o.m == m[ts[0].end := NUL])
  {
    if lasts.Some? {
      var q := lasts.value;
      var j := TokenStart(m0, delim, skip, q);
      if m0[j] == NUL {
        CutNothing(m0, m, delim, skip, q);
        NoTokens(m0, delim, skip, q);
      } else {
        CutTakesToken(m0, m, delim, skip, q, j, TokenEnd(m0, delim, j));
      }
    }
  }

  /** Any number of calls returns the tokens of the string in order, then NULL for ever. */
  lemma {:induction false} CallsReturnTokens(m0: seq<char>, m: seq<char>, delim: string, skip: bool, lasts: Option<nat>, n: nat)
    requires ProperDelimiters(delim) && AgreeFrom(m0, m, lasts)
    ensures var rs, ts := Results(m, delim, skip, lasts, n), TokensLeft(m0, delim, skip, lasts);
            |rs| == n && forall k :: 0 <= k < n ==> rs[k] == Expected(ts, k)
    decreases n
  {
    if 0 < n {
      var o, ts := Call(m, None, delim, lasts, skip), TokensLeft(m0, delim, skip, lasts);
      CallTakesToken(m0, m, delim, skip, lasts);
      CallsReturnTokens(m0, o.m, delim, skip, o.lasts, n - 1);
      ResultsInOrder(o.tok, Results(o.m, delim, skip, o.lasts, n - 1), ts, TokensLeft(m0, delim, skip, o.lasts));
    }
  }

  lemma ResultsInOrder(tok: Option<nat>, rest: seq<Option<nat>>, ts: seq<Span>, left: seq<Span>)
    requires if ts == [] then tok == None && left == [] else tok == Some(ts[0].start) && left == ts[1..]
    requires forall k :: 0 <= k < |rest| ==> rest[k] == Expected(left, k)
    ensures forall k :: 0 <= k < |rest| + 1 ==> ([tok] + rest)[k] == Expected(ts, k)
  {
    forall k | 0 <= k < |rest| + 1 ensures ([tok] + rest)[k] == Expected(ts, k) {
      if 0 < k {
        assert rest[k - 1] == Expected(left, k - 1);
      }
    }
  }

  /** The first stretch from `q` on that counts as a token. */
  ghost predicate FirstWanted(m: seq<char>, delim: string, skip: bool, q: nat, e: nat, j: nat, k: nat) {
    && Stretch(m, delim, q, e, j, k) && Wanted(m, skip, e, j, k)
    && forall x: nat, y: nat :: Stretch(m, delim, q, e, x, y) && Wanted(m, skip, e, x, y) ==> j <= x
  }

  /** A call that names a string, whatever the old position is: it returns the first wanted stretch
      of that string and cuts behind it, or returns NULL if there is none. */
  lemma NamedCall(m: seq<char>, delim: string, skip: bool, q: nat, lasts: Option<nat>)
    requires ProperDelimiters(delim) && Terminated(m, q)
    ensures var o, e := Call(m, Some(q), delim, lasts, skip), StringEnd(m, q);
            match o.tok
            case None =>
              && o.lasts == None && o.m == m
              && forall x: nat, y: nat :: Stretch(m, delim, q, e, x, y) ==> !Wanted(m, skip, e, x, y)
            case Some(j) =>
              exists k: nat :: FirstWanted(m, delim, skip, q, e, j, k) && o.m == m[k := '\0']
                          && o.lasts == if k == e then None else Some(k + 1)
  {
    FirstStretch(m, delim, skip, q);
    var j, e := TokenStart(m, delim, skip, q), StringEnd(m, q);
    if m[j] == NUL {
      assert j == e;
    } else {
      var k := TokenEnd(m, delim, j);
      FirstIsWanted(m, delim, skip, q, j, k);
      assert m[k] == NUL ==> m[k := '\0'] == m;
    }
  }

  lemma FirstIsWanted(m: seq<char>, delim: string, skip: bool, q: nat, j: nat, k: nat)
    requires ProperDelimiters(delim) && Terminated(m, q)
    requires j == TokenStart(m, delim, skip, q) && m[j] != NUL && k == TokenEnd(m, delim, j)
    ensures FirstWanted(m, delim, skip, q, StringEnd(m, q), j, k)
    ensures m[k] == NUL <==> k == StringEnd(m, q)
  {
    FirstStretch(m, delim, skip, q);
    BeforeEnd(m, q);
    if skip {
      assert m[j] !in delim;
    }
  }

  /** The results of a call that names the string at `q` and `n` calls behind it. */
  function NamedResults(m: seq<char>, delim: string, skip: bool, q: nat, lasts: Option<nat>, n: nat): seq<Option<nat>>
    requires ProperDelimiters(delim) && Terminated(m, q)
  {
    var o := Call(m, Some(q), delim, lasts, skip);
    CallKeepsTerminated(m, delim, skip, Some(q));
    [o.tok] + Results(o.m, delim, skip, o.lasts, n)
  }

  /** Calls on a fresh string: the first names it, whatever the old position is, and the others go
      on. They return its tokens in order, then NULL for ever. */
  lemma StringIsTokenized(m: seq<char>, delim: string, skip: bool, q: nat, lasts: Option<nat>, n: nat)
    requires ProperDelimiters(delim) && Terminated(m, q)
    ensures Call(m, Some(q), delim, lasts, skip) == Call(m, None, delim, Some(q), skip)
    ensures var rs := NamedResults(m, delim, skip, q, lasts, n);
            |rs| == n + 1 && forall k :: 0 <= k <= n ==> rs[k] == Expected(Tokens(m, delim, skip, q), k)
  {
    CallsReturnTokens(m, m, delim, skip, Some(q), n + 1);
  }

  /** The memory when the first `n` tokens have been returned: the delimiter behind each
      of them is overwritten, and nothing else. */
  ghost predicate CutBehind(m: seq<char>, m': seq<char>, ts: seq<Span>, n: nat) {
    && |m'| == |m|
    && forall i :: 0 <= i < |m| ==>
         m'[i] == if exists k :: 0 <= k < n && k < |ts| && ts[k].end == i then NUL else m[i]
  }

  lemma {:induction false} CallsCutBehind(m0: seq<char>, m: seq<char>, delim: string, skip: bool, lasts: Option<nat>, n: nat)
    requires ProperDelimiters(delim) && AgreeFrom(m0, m, lasts)
    ensures CutBehind(m, MemoryAfter(m, delim, skip, lasts, n), TokensLeft(m0, delim, skip, lasts), n)
    decreases n
  {
    var ts := TokensLeft(m0, delim, skip, lasts);
    if 0 < n {
      var o := Call(m, None, delim, lasts, skip);
      CallTakesToken(m0, m, delim, skip, lasts);
      CallsCutBehind(m0, o.m, delim, skip, o.lasts, n - 1);
      CutOne(m, o.m, MemoryAfter(m, delim, skip, lasts, n), ts, n);
    }
  }

  lemma CutOne(m: seq<char>, m1: seq<char>, m': seq<char>, ts: seq<Span>, n: nat)
    requires 0 < n && |m1| == |m|
    requires if ts == [] then m1 == m && CutBehind(m1, m', [], n - 1)
             else CutBehind(m1, m', ts[1..], n - 1) &&
                  forall i :: 0 <= i < |m| ==> m1[i] == if i == ts[0].end then NUL else m[i]
    ensures CutBehind(m, m', ts, n)
  {
    if ts != [] {
      var rest := ts[1..];
      forall i | 0 <= i < |m|
        ensures m'[i] == if exists k :: 0 <= k < n && k < |ts| && ts[k].end == i then NUL else m[i]
      {
        if exists k :: 0 <= k < n - 1 && k < |rest| && rest[k].end == i {
          var k :| 0 <= k < n - 1 && k < |rest| && rest[k].end == i;
          assert ts[k + 1].end == i;
        }
        if exists k :: 0 <= k < n && k < |ts| && ts[k].end == i {
          var k :| 0 <= k < n && k < |ts| && ts[k].end == i;
          if 0 < k {
            assert rest[k - 1].end == i;
          }
        }
      }
    }
  }

  lemma {:induction false} EndAt(m: seq<char>, j: nat, k: nat)
    requires j <= k < |m| && m[k] == NUL && forall i :: j <= i < k ==> m[i] != NUL
    ensures StringEnd(m, j) == k
    decreases k - j
  {
    if j < k {
      EndAt(m, j + 1, k);
    }
  }

  /** Every token already returned can still be read in place, whatever is cut after it. */
  lemma TokensStayReadable(m: seq<char>, delim: string, skip: bool, q: nat, n: nat, k: nat)
    requires ProperDelimiters(delim) && Terminated(m, q) && k < n && k < |Tokens(m, delim, skip, q)|
    ensures var ts, m' := Tokens(m, delim, skip, q), MemoryAfter(m, delim, skip, Some(q), n);
            && ts[k].start <= ts[k].end < |m|
            && Terminated(m', ts[k].start) && StringAt(m', ts[k].start) == m[ts[k].start..ts[k].end]
  {
    var ts, m' := Tokens(m, delim, skip, q), MemoryAfter(m, delim, skip, Some(q), n);
    TokensInOrder(m, delim, skip, q);
    CallsCutBehind(m, m, delim, skip, Some(q), n);
    assert ts[k] in ts;
    TokenIsStretch(m, delim, skip, q, ts[k].start, ts[k].end);
    CutReadable(m, m', ts, n, k, q);
  }

  lemma CutReadable(m: seq<char>, m': seq<char>, ts: seq<Span>, n: nat, k: nat, q: nat)
    requires CutBehind(m, m', ts, n) && InOrder(ts, q, StringEnd(m, q)) && k < n && k < |ts| && Terminated(m, q)
    ensures Terminated(m', ts[k].start) && StringAt(m', ts[k].start) == m[ts[k].start..ts[k].end]
  {
    var j, e := ts[k].start, ts[k].end;
    BeforeEnd(m, q);
    forall i | j <= i < e ensures m'[i] == m[i] != NUL {
      forall x | 0 <= x < n && x < |ts| ensures ts[x].end != i {
        assert x < k ==> ts[x].end < ts[k].start;
        assert k < x ==> ts[k].end < ts[x].start;
      }
    }
    assert m'[e] == NUL;
    EndAt(m', j, e);
  }

  lemma {:induction false} BeforeEnd(m: seq<char>, q: nat)
    ensures forall i :: q <= i < StringEnd(m, q) && i < |m| ==> m[i] != NUL
    decreases |m| - q
  {
    if q < |m| && m[q] != NUL {
      BeforeEnd(m, q + 1);
    }
  }

  /** Cutting behind one more token. */
  lemma CutMore(m: seq<char>, m': seq<char>, ts: seq<Span>, n: nat)
    requires CutBehind(m, m', ts, n) && n < |ts| && ts[n].end < |m|
    ensures CutBehind(m, m'[ts[n].end := NUL], ts, n + 1)
  {
    var r := m'[ts[n].end := NUL];
    forall i | 0 <= i < |m|
      ensures r[i] == if exists k :: 0 <= k < n + 1 && k < |ts| && ts[k].end == i then NUL else m[i]
    {
      if i == ts[n].end {
        assert 0 <= n < n + 1;
      } else if exists k :: 0 <= k < n && k < |ts| && ts[k].end == i {
        var k :| 0 <= k < n && k < |ts| && ts[k].end == i;
        assert 0 <= k < n + 1;
      }
    }
  }
}
