/** The body of readhdr()'s loop on the line in the buffer: values are terminated in place. */
module HeaderReader {
  import opened Bytes
  import opened Header
  import opened HeaderProofs
  import opened Readline

  /** strchr() for the newline, in a terminated text. */
  method FindNewline(a: array<byte>, from: nat, ghost n: nat) returns (at: nat)
    requires from <= n < a.Length && a[n] == NUL && forall i :: from <= i < n ==> a[i] != NUL
    ensures from <= at <= n && (at < n ==> a[at] == NL)
    ensures forall i :: from <= i < at ==> a[i] != NL
  {
    at := from;
    while a[at] != NUL && a[at] != NL
      invariant from <= at <= n && forall i :: from <= i < at ==> a[i] != NL
      decreases n - at
    {
      at := at + 1;
    }
  }

  /**
   * valstr(): the value begins at f.value and ends with the terminator that replaces the newline. The
   * search begins at the start of the line; keywords hold no newline.
   */
  method ValStrInPlace(line: array<byte>, ghost n: nat, item: bytes) returns (f: Field<nat>, end: nat)
    requires n < line.Length && line[n] == NUL && NulFree(line[..n]) && NulFree(item) && NoNewline(item)
    modifies line
    ensures var v := ValStr(old(line[..n]), item);
            && (f.NoField? <==> v.NoField?) && (f.Fatal? <==> v.Fatal?)
            && (f.Field? ==> f.value <= end <= n && line[f.value..end] == v.value && line[end] == NUL)
            && (!f.Field? ==> line[..] == old(line[..]))
  {
    ghost var text := line[..n];
    assert forall i :: 0 <= i < n ==> line[i] == text[i] != NUL;
    end := 0;
    var same := StartsWith(line, item, n, text);
    if !same { return NoField, 0; }
    assert |item| <= n && text[..|item|] == item;
    if line[|item|] != '=' {
      if AboveSpace(line[|item|]) { return NoField, 0; }
      return Fatal, 0;
    }
    ghost var t := text[|item| + 1..];
    end := FindNewline(line, 0, n);
    NewlineBehind(text, item, end);
    line[end] := NUL;
    assert line[|item| + 1..end] == text[|item| + 1..end] == t[..LineLen(t)];
    return Field(|item| + 1), end;
  }

  lemma NewlineBehind(text: bytes, item: bytes, end: nat)
    requires item <= text && |item| < |text| && text[|item|] == '=' && NoNewline(item)
    requires end <= |text| && (end < |text| ==> text[end] == NL) && forall i :: 0 <= i < end ==> text[i] != NL
    ensures |item| + 1 <= end && LineLen(text[|item| + 1..]) == end - (|item| + 1)
  {
    assert forall i :: 0 <= i < |item| ==> item[i] == text[i];
    LineLenUnique(text[|item| + 1..], end - (|item| + 1));
  }

  /** The chain of keywords; the first that matches decides. */
  method ApplyInPlace(h: Hdr, line: array<byte>, ghost n: nat) returns (s: Step)
    requires n < line.Length && line[n] == NUL && NulFree(line[..n])
    modifies line
    ensures s == ApplyLine(h, old(line[..n]))
  {
    ghost var text := line[..n];
    var keys := KEYWORDS;
    assert ApplyLine(h, text) == Dispatch(h, text, keys);
    hide ValStr, Apply, ApplyLine, Dispatch, NameOf, NoNewline;
    var i := 0;
    while i < |keys|
      invariant i <= |keys| && line[..] == old(line[..])
      invariant ApplyLine(h, text) == Dispatch(h, text, keys[i..])
    {
      var k := keys[i];
      NamesAreText(k);
      DispatchStep(h, text, keys, i);
      assert line[..n] == line[..][..n] == text;
      var f, end := ValStrInPlace(line, n, NameOf(k));
      if f.Fatal? { return Exit; }
      if f.Field? { return Apply(h, k, line[f.value..end]); }
      i := i + 1;
    }
    DispatchNone(h, text);
    assert keys[i..] == [];
    return Next(h);
  }

  lemma DispatchNone(h: Hdr, text: bytes)
    ensures Dispatch(h, text, []) == Next(h)
  {
  }

  lemma DispatchStep(h: Hdr, text: bytes, keys: seq<Keyword>, i: nat)
    requires i < |keys|
    ensures Dispatch(h, text, keys[i..]) ==
            match ValStr(text, NameOf(keys[i])) { case Fatal => Exit case NoField => Dispatch(h, text, keys[i + 1..])
                                                  case Field(s) => Apply(h, keys[i], s) }
  {
    assert keys[i..][0] == keys[i] && keys[i..][1..] == keys[i + 1..];
  }

  lemma NamesAreText(k: Keyword)
    ensures NulFree(NameOf(k)) && NoNewline(NameOf(k))
  {
    NamesHaveNoNewline(k);
  }
}
