/** The shell's filter that carries out the backspaces of a line. */
module Backspace {
  import opened CString
  import opened Strtok

  const BS: char := '\U{8}'

  /** What a terminal shows: each backspace takes the character before it, if any. */
  function Shown(s: string): (r: string)
    ensures |r| <= |s| && BS !in r
  {
    if s == "" then ""
    else
      var r := Shown(s[..|s| - 1]);
      if s[|s| - 1] != BS then r + [s[|s| - 1]]
      else if r == "" then "" else r[..|r| - 1]
  }

  /** Text without backspaces is shown as it is. */
  lemma {:induction false} ShownPlain(s: string)
    requires '\U{8}' !in s
    ensures Shown(s) == s
  {
    if s != "" {
      ShownPlain(s[..|s| - 1]);
      assert s == s[..|s| - 1] + [s[|s| - 1]];
    }
  }

  /** A character and the backspace behind it cancel, wherever they stand. */
  lemma {:induction false} ShownCancels(a: string, c: char, b: string)
    requires c != '\U{8}'
    ensures Shown(a + [c, '\U{8}'] + b) == Shown(a + b)
    decreases |b|
  {
    var s := a + [c, BS] + b;
    if b == "" {
      assert s[..|s| - 1] == a + [c] && (a + [c])[..|a|] == a && a + b == a;
    } else {
      var b' := b[..|b| - 1];
      ShownCancels(a, c, b');
      assert s[..|s| - 1] == a + [c, BS] + b' && (a + b)[..|a + b| - 1] == a + b';
    }
  }

  /** A backspace at the start does nothing. */
  lemma {:induction false} ShownLeading(b: string)
    ensures Shown("\U{8}" + b) == Shown(b)
  {
    var s := [BS] + b;
    if b == "" {
      assert s[..0] == "";
    } else {
      var b' := b[..|b| - 1];
      ShownLeading(b');
      TakeBehind(b);
    }
  }

  lemma TakeBehind(b: string)
    requires b != ""
    ensures ([BS] + b)[..|b|] == [BS] + b[..|b| - 1]
  {
  }

  /** One more character. */
  lemma ShownStep(text: string, i: nat)
    requires i < |text|
    ensures var r := Shown(text[..i]);
            Shown(text[..i + 1]) == if text[i] != BS then r + [text[i]] else if r == "" then "" else r[..|r| - 1]
  {
    assert text[..i + 1][..i] == text[..i];
  }

  /** One character: store it behind the text, or take the last one off. */
  method Apply(d: array<char>, di: nat, c: char) returns (di': nat)
    requires di <= d.Length && (c != BS ==> di < d.Length)
    modifies d
    ensures di' == (if c != BS then di + 1 else if di == 0 then 0 else di - 1)
    ensures forall x :: 0 <= x < d.Length && !(x == di && c != BS) ==> d[x] == old(d[x])
    ensures c != BS ==> d[di] == c
  {
    if c == BS {
      var less := di - 1;
      if less < 0 {
        less := 0;
      }
      return less;
    }
    d[di] := c;
    return di + 1;
  }

  /** The text stored so far after one more character. */
  lemma Applied(shown: string, c: char, was: seq<char>, now: seq<char>, di': nat)
    requires |shown| <= |was| == |now| && was[..|shown|] == shown && (c != BS ==> |shown| < |was|)
    requires di' == (if c != BS then |shown| + 1 else if shown == "" then 0 else |shown| - 1)
    requires forall x :: 0 <= x < |was| && !(x == |shown| && c != BS) ==> now[x] == was[x]
    requires c != BS ==> now[|shown|] == c
    ensures now[..di'] == if c != BS then shown + [c] else if shown == "" then "" else shown[..|shown| - 1]
  {
    forall x | 0 <= x < |shown| ensures now[x] == shown[x] {
      assert was[..|shown|][x] == was[x];
    }
  }

  /** Removes backspaces; `d` and `s` may be the same buffer. */
  method Fix(d: array<char>, s: array<char>) returns (r: array<char>)
    requires Terminated(s[..], 0)
    requires var text := StringAt(s[..], 0);
             forall k :: 0 <= k <= |text| ==> |Shown(text[..k])| < d.Length
    modifies d
    ensures r == d
    ensures var t := Shown(old(StringAt(s[..], 0)));
            |t| < d.Length && d[..|t|] == t && d[|t|] == NUL
  {
    ghost var m := s[..];
    ghost var text := StringAt(m, 0);
    BeforeEnd(m, 0);
    var i, di := 0, 0;
    while s[i] != NUL
      invariant 0 <= i <= |text| < s.Length && 0 <= di <= i && di < d.Length
      invariant d[..di] == Shown(text[..i])
      invariant forall x :: i <= x < s.Length ==> s[x] == m[x]
      decreases |text| - i
    {
      ShownStep(text, i);
      ghost var was, shown := d[..], Shown(text[..i]);
      var c := s[i];
      var next := Apply(d, di, c);
      assert d[..][..di] == d[..di] && was[..di] == shown;
      Applied(shown, c, was, d[..], next);
      assert d[..next] == d[..][..next];
      di, i := next, i + 1;
    }
    assert text[..i] == text;
    d[di] := NUL;
    r := d;
  }
}
