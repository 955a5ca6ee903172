/** Terminated strings in memory. */
module CString {

  const NUL: char := '\0'

  /** Where the string at `q` ends. */
  function StringEnd(m: seq<char>, q: nat): (e: nat)
    ensures q <= |m| ==> q <= e <= |m|
    ensures e < |m| ==> m[e] == '\0'
    decreases |m| - q
  {
    if q < |m| && m[q] != NUL then StringEnd(m, q + 1) else q
  }

  predicate Terminated(m: seq<char>, q: nat) {
    StringEnd(m, q) < |m|
  }

  /** The text of the string at `q`. */
  function StringAt(m: seq<char>, q: nat): string
    requires Terminated(m, q)
  {
    if q <= StringEnd(m, q) then m[q..StringEnd(m, q)] else ""
  }
}
