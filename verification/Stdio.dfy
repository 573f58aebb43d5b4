/** The C library calls that mdbx_load.c reads its input with. */
module Stdio {
  import opened Bytes

  /** How many bytes fgets() with a size of n takes from s: through the first newline, at most n - 1. */
  function FgetsLen(s: bytes, n: nat): (k: nat)
    requires n >= 1
    ensures k <= |s| && k <= n - 1
  {
    var line := if LineLen(s) < |s| then LineLen(s) + 1 else |s|;
    if line <= n - 1 then line else n - 1
  }

  /** The standard input: what is still to be read of a text without NUL bytes. */
  class Stdin {
    var rest: bytes

    ghost predicate Valid() reads this { NulFree(rest) }

    constructor (text: bytes)
      requires NulFree(text)
      ensures Valid() && rest == text
    {
      rest := text;
    }

    method Fgetc() returns (c: Option<byte>)
      requires Valid()
      modifies this
      ensures Valid()
      ensures old(rest) == [] ==> c == None && rest == []
      ensures old(rest) != [] ==> c == Some(old(rest)[0]) && rest == old(rest)[1..]
    {
      if rest == [] {
        c := None;
      } else {
        c := Some(rest[0]);
        rest := rest[1..];
      }
    }

    /** Pushing back the character just read. */
    method Ungetc(c: byte)
      requires Valid() && c != NUL
      modifies this
      ensures Valid() && rest == [c] + old(rest)
    {
      rest := [c] + rest;
    }

    /** fgets(a + off, n, stdin); a null result is !ok, otherwise k bytes and a terminator were stored. */
    method Fgets(a: array<byte>, off: nat, n: nat) returns (ok: bool, ghost k: nat)
      requires Valid() && n >= 2 && off + n <= a.Length
      modifies this, a
      ensures Valid()
      ensures ok <==> old(rest) != []
      ensures ok ==> IsChunk(old(rest), n, k) && rest == old(rest)[k..]
      ensures ok ==> a[off + k] == NUL && forall i :: off <= i < off + k ==> a[i] == old(rest)[i - off]
      ensures !ok ==> rest == []
      ensures forall i :: 0 <= i < off ==> a[i] == old(a[i])
    {
      if rest == [] {
        return false, 0;
      }
      var s, i := rest, 0;
      while i < n - 1 && i < |s| && (i == 0 || s[i - 1] != NL)
        invariant i <= n - 1 && i <= |s|
        invariant forall j :: 0 <= j < i - 1 ==> s[j] != NL
        invariant forall j :: off <= j < off + i ==> a[j] == s[j - off]
        invariant forall j :: 0 <= j < off ==> a[j] == old(a[j])
      {
        a[off + i] := s[i];
        i := i + 1;
      }
      a[off + i] := NUL;
      rest := s[i..];
      ok, k := true, i;
    }
  }

  /** A nonempty prefix that ends after its first newline, or where the room or the text ends. */
  ghost predicate IsChunk(s: bytes, n: nat, k: nat) {
    && 0 < k <= |s| && k <= n - 1
    && (forall j :: 0 <= j < k - 1 ==> s[j] != NL)
    && (k == n - 1 || k == |s| || s[k - 1] == NL)
  }

  /** There is one such prefix. */
  lemma ChunkIsFgetsLen(s: bytes, n: nat, k: nat)
    requires IsChunk(s, n, k)
    ensures FgetsLen(s, n) == k
  {
    if s[k - 1] == NL {
      LineLenUnique(s, k - 1);
    } else {
      assert LineLen(s) >= k;
    }
  }

  /** strlen(a + off), where the first NUL stands at a + end. */
  method Strlen(a: array<byte>, off: nat, ghost end: nat) returns (n: nat)
    requires off <= end < a.Length && a[end] == NUL
    requires forall i :: off <= i < end ==> a[i] != NUL
    ensures n == end - off
  {
    n := 0;
    while a[off + n] != NUL
      invariant off + n <= end
      decreases end - n
    {
      n := n + 1;
    }
  }
}
