/** Bytes of the dump text and of the stored values, written as characters below 256. */
module Bytes {

  type byte = c: char | c as int < 256 witness 'a'

  type bytes = seq<byte>

  datatype Option<+T> = None | Some(value: T)

  const NUL: byte := '\0'
  const NL: byte := '\n'
  const SP: byte := ' '
  const BS: byte := '\\'

  predicate NulFree(s: bytes) {
    forall i :: 0 <= i < |s| ==> s[i] != NUL
  }

  /** Number of bytes in front of the first newline, or the whole length. */
  function LineLen(s: bytes): (n: nat)
    ensures n <= |s|
    ensures forall i :: 0 <= i < n ==> s[i] != NL
    ensures n < |s| ==> s[n] == NL
  {
    if s == [] || s[0] == NL then 0 else 1 + LineLen(s[1..])
  }

  /** The two clauses of LineLen's contract determine it. */
  lemma LineLenUnique(s: bytes, n: nat)
    requires n <= |s|
    requires forall i :: 0 <= i < n ==> s[i] != NL
    requires n < |s| ==> s[n] == NL
    ensures LineLen(s) == n
  {
    var m := LineLen(s);
    assert !(m < n) && !(n < m);
  }

  /** A line followed by anything is found as that line. */
  lemma LineLenAppend(line: bytes, rest: bytes)
    requires forall i :: 0 <= i < |line| ==> line[i] != NL
    ensures LineLen(line + [NL] + rest) == |line|
  {
    var s := line + [NL] + rest;
    forall i | 0 <= i < |line| ensures s[i] != NL { assert s[i] == line[i]; }
    LineLenUnique(s, |line|);
  }
}
