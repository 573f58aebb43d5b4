/** readline() of mdbx_load.c: one key or datum from the input. */
module Readline {
  import opened Bytes
  import opened Codec
  import opened Stdio

  // ---------------------------------------------------------------- what a call yields

  /**
   * Outcome of readline(): a decoded value, the "same as before" marker, the end-of-table line, the end
   * of input, or a malformed line; cap is the capacity of the buffer afterwards.
   */
  datatype Line =
    | Value(v: bytes, rest: bytes, cap: nat)
    | Repeat(rest: bytes)
    | DataEnd(rest: bytes)
    | Eof(cap: nat)
    | Bad

  const ATA_END: bytes := "ATA=END"

  /** The capacity after the doubling loop has made room for a line of n bytes and its terminator. */
  function Grown(cap: nat, n: nat): (c: nat)
    requires cap >= 1
    ensures cap <= c && n + 1 <= c
    decreases n + 1 - cap
  {
    if n + 1 <= cap then cap else Grown(2 * cap, n)
  }

  function ReadLine(f: Format, nohdr: bool, cap: nat, s: bytes): (r: Line)
    requires cap >= 3
    ensures r.Value? ==> r.cap >= cap && |r.rest| < |s|
    ensures r.Eof? ==> r.cap >= cap
    ensures r.Repeat? ==> |r.rest| <= |s|
  {
    if nohdr then ReadValue(f, cap, s)
    else if s == [] then Eof(cap)
    else if s[0] != SP then
      var t := s[1..];
      var k := FgetsLen(t, cap);
      if t != [] && s[0] == 'D' && ATA_END <= t[..k] then DataEnd(t[k..]) else Bad
    else ReadValue(f, cap, s[1..])
  }

  function ReadValue(f: Format, cap: nat, s: bytes): (r: Line)
    requires cap >= 3
    ensures r.Value? ==> r.cap >= cap && |r.rest| < |s|
    ensures r.Eof? ==> r.cap >= cap
    ensures r.Repeat? ==> r.rest == s && s != [] && s[0] == SP
    ensures !r.DataEnd?
  {
    if s == [] then Eof(cap)
    else if s[0] == SP then Repeat(s)
    else
      var n := LineLen(s);
      if n == |s| then Eof(Grown(cap, n))
      else
        var v := DecodeLine(f, s[..n]);
        if v.None? then Bad else Value(v.value, s[n + 1..], Grown(cap, n + 1))
  }

  /** With headers every successful call uses up input, net of the pushed-back character. */
  lemma HeaderModeProgress(f: Format, cap: nat, s: bytes)
    requires cap >= 3
    ensures var r := ReadLine(f, false, cap, s);
            r.Value? || r.Repeat? || r.DataEnd? ==> |r.rest| < |s|
  {
    var r := ReadLine(f, false, cap, s);
    if r.DataEnd? {
      var t := s[1..];
      assert |t[FgetsLen(t, cap)..]| <= |t|;
    }
  }

  /**
   * The input left after calls without headers, the i-th with a buffer of capacity caps[i]; None once a
   * call finds the end of the input or a malformed line.
   */
  function AfterCalls(f: Format, caps: seq<nat>, s: bytes): (r: Option<bytes>)
    requires forall i :: 0 <= i < |caps| ==> caps[i] >= 3
    ensures r.Some? ==> |r.value| <= |s|
    decreases |caps|
  {
    if caps == [] then Some(s)
    else
      match ReadLine(f, true, caps[0], s)
      case Value(_, rest, _) => AfterCalls(f, caps[1..], rest)
      case Repeat(rest) => AfterCalls(f, caps[1..], rest)
      case _ => None
  }

  /**
   * Without headers a call makes no progress exactly when the next character is a space, and then no
   * later call does, however many there are and whichever buffers they use.
   */
  lemma {:induction false} NoHeaderStuckIff(f: Format, caps: seq<nat>, s: bytes)
    requires caps != [] && forall i :: 0 <= i < |caps| ==> caps[i] >= 3
    ensures AfterCalls(f, caps, s) == Some(s) <==> s != [] && s[0] == SP
    ensures !(s != [] && s[0] == SP) && AfterCalls(f, caps, s).Some? ==> |AfterCalls(f, caps, s).value| < |s|
    decreases |caps|
  {
    if s != [] && s[0] == SP && |caps| > 1 {
      NoHeaderStuckIff(f, caps[1..], s);
    }
  }

  /** A printed value is read back whole whenever its text does not open with the repeat marker. */
  lemma ReadPrinted(f: Format, cap: nat, v: bytes, rest: bytes)
    requires cap >= 3
    requires f.Print? ==> v == [] || v[0] != SP
    ensures ReadLine(f, false, cap, EncodeValue(f, v) + rest)
         == Value(v, rest, Grown(cap, |EncodeBytes(f, v)| + 1))
  {
    var e := EncodeBytes(f, v);
    var s := EncodeValue(f, v) + rest;
    var t := e + [NL] + rest;
    assert s[0] == SP && s[1..] == t;
    EncodedHasNoNewline(f, v);
    LineLenAppend(e, rest);
    assert t[..|e|] == e && t[|e| + 1..] == rest;
    DecodeEncode(f, v);
    FirstPrinted(f, v);
    hide EncodeBytes, DecodeLine, LineLen, Grown;
    assert t[0] == (e + [NL])[0];
  }

  /** The first character of printed text is no space, unless a print-format value begins with one. */
  lemma FirstPrinted(f: Format, v: bytes)
    requires f.Print? ==> v == [] || v[0] != SP
    ensures EncodeBytes(f, v) == [] || EncodeBytes(f, v)[0] != SP
  {
    if v != [] {
      var hi, lo := EncodedDigits(v[0]);
      assert EncodeBytes(f, v)[0] == EncodeByte(f, v[0])[0];
    }
  }

  /** In print format a value that begins with a space is taken for the repeat marker instead. */
  lemma ReadPrintedSpace(cap: nat, v: bytes, rest: bytes)
    requires cap >= 3 && v != [] && v[0] == SP
    ensures ReadLine(Print, false, cap, EncodeValue(Print, v) + rest)
         == Repeat(EncodeBytes(Print, v) + [NL] + rest)
  {
    var e := EncodeBytes(Print, v);
    var s := EncodeValue(Print, v) + rest;
    assert EncodeByte(Print, SP) == [SP];
    assert e[0] == SP;
    assert s[0] == SP && s[1..] == e + [NL] + rest;
  }

  /** So reading a printed value back gives exactly that value if and only if it does not begin with a space. */
  lemma PrintedValueRoundTripIff(cap: nat, v: bytes, rest: bytes)
    requires cap >= 3
    ensures (exists c :: ReadLine(Print, false, cap, EncodeValue(Print, v) + rest) == Value(v, rest, c))
       <==> (v == [] || v[0] != SP)
  {
    if v == [] || v[0] != SP {
      ReadPrinted(Print, cap, v, rest);
    } else {
      ReadPrintedSpace(cap, v, rest);
    }
  }

  /** The extra space of a concise dump reads as the repeat marker and leaves the datum's line in place. */
  lemma ReadRepeatMarker(f: Format, cap: nat, v: bytes, rest: bytes)
    requires cap >= 3
    ensures ReadLine(f, false, cap, [SP] + EncodeValue(f, v) + rest) == Repeat(EncodeValue(f, v) + rest)
  {
    var s := [SP] + EncodeValue(f, v) + rest;
    assert s[0] == SP && s[1..] == EncodeValue(f, v) + rest;
    assert (EncodeValue(f, v) + rest)[0] == SP;
  }

  // ---------------------------------------------------------------- the call itself

  /** A growable buffer: the `MDBX_val` kbuf or dbuf. */
  class Buf {
    var base: array<byte>
    var len: nat

    ghost predicate Valid() reads this { 3 <= len <= base.Length }

    constructor (n: nat)
      requires n >= 3
      ensures Valid() && fresh(base) && len == n
    {
      base, len := new byte[n](_ => NUL), n;
    }

    /** osal_realloc(base, n): the old contents move to a larger block. */
    method Realloc(n: nat)
      requires Valid() && n >= len
      modifies this`base
      ensures Valid() && fresh(base) && base.Length == n
      ensures forall i :: 0 <= i < len ==> base[i] == old(base[i])
    {
      var a := new byte[n](_ => NUL);
      forall i | 0 <= i < base.Length && i < n { a[i] := base[i]; }
      base := a;
    }
  }

  /** An `MDBX_val` that points into a buffer. */
  class Val {
    var base: array?<byte>
    var len: nat

    constructor ()
      ensures base == null && len == 0
    {
      base, len := null, 0;
    }

    ghost predicate Holds(v: bytes)
      reads this, base
    {
      if base == null then len == 0 && v == [] else len <= base.Length && base[..len] == v
    }
  }

  datatype Rc = Success | EndOfFile | NoData

  /** The return code that goes with each outcome. */
  function RcOf(l: Line): Rc {
    match l
    case Value(_, _, _) | Repeat(_) => Success
    case DataEnd(_) | Eof(_) => EndOfFile
    case Bad => NoData
  }

  method ReadOne(out: Val, buf: Buf, input: Stdin, f: Format, nohdr: bool) returns (rc: Rc)
    requires buf.Valid() && input.Valid()
    modifies out, buf, buf.base, input
    ensures buf.Valid() && input.Valid()
    ensures buf.base == old(buf.base) || fresh(buf.base)
    ensures var l := ReadLine(f, nohdr, old(buf.len), old(input.rest));
            && rc == RcOf(l)
            && (l.Value? ==> out.base == buf.base && out.Holds(l.v) && input.rest == l.rest && buf.len == l.cap)
            && (l.Repeat? ==> unchanged(out) && unchanged(buf) && unchanged(buf.base) && input.rest == l.rest)
            && (l.DataEnd? ==> buf.len == old(buf.len) && input.rest == l.rest)
            && (l.Eof? ==> buf.len == l.cap && input.rest == [])
  {
    if !nohdr {
      var c := input.Fgetc();
      if c.None? {
        return EndOfFile;
      }
      if c.value != SP {
        ghost var t := input.rest;
        var got, k := input.Fgets(buf.base, 0, buf.len);
        if got {
          ChunkIsFgetsLen(t, buf.len, k);
          if c.value == 'D' {
            assert buf.base[..k] == t[..k];
            var same := StartsWith(buf.base, ATA_END, k, t[..k]);
            if same {
              return EndOfFile;
            }
          }
        }
        return NoData;
      }
    }
    rc := ReadText(out, buf, input, f);
  }

  /** strncmp() of a terminated text with a shorter literal. */
  method StartsWith(a: array<byte>, item: bytes, ghost k: nat, ghost text: bytes) returns (same: bool)
    requires k < a.Length && a[..k] == text && a[k] == NUL && NulFree(text) && NulFree(item)
    ensures same <==> item <= text
  {
    var i := 0;
    while i < |item|
      invariant i <= |item| && i <= k
      invariant item[..i] == text[..i]
    {
      assert i < k ==> a[i] == text[i];
      if a[i] != item[i] {
        return false;
      }
      i := i + 1;
    }
    return true;
  }

  /** The part of readline() after the leading space: marker test, line assembly, decoding. */
  method ReadText(out: Val, buf: Buf, input: Stdin, f: Format) returns (rc: Rc)
    requires buf.Valid() && input.Valid()
    modifies out, buf, buf.base, input
    ensures buf.Valid() && input.Valid()
    ensures buf.base == old(buf.base) || fresh(buf.base)
    ensures var l := ReadValue(f, old(buf.len), old(input.rest));
            && rc == RcOf(l)
            && (l.Value? ==> out.base == buf.base && out.Holds(l.v) && input.rest == l.rest && buf.len == l.cap)
            && (l.Repeat? ==> unchanged(out) && unchanged(buf) && unchanged(buf.base) && input.rest == l.rest)
            && (l.Eof? ==> buf.len == l.cap && input.rest == [])
  {
    ghost var s := input.rest;
    var c := input.Fgetc();
    if c.None? {
      return EndOfFile;
    }
    if c.value == SP {
      input.Ungetc(c.value);
      assert input.rest == s;
      return Success;
    }
    rc := ReadRest(c.value, out, buf, input, f, s);
  }

  /** From the second character on, when the first is not the marker. */
  method ReadRest(c: byte, out: Val, buf: Buf, input: Stdin, f: Format, ghost s: bytes) returns (rc: Rc)
    requires buf.Valid() && input.Valid()
    requires s != [] && c == s[0] != SP && input.rest == s[1..] && NulFree(s)
    modifies out, buf, buf.base, input
    ensures buf.Valid() && input.Valid()
    ensures buf.base == old(buf.base) || fresh(buf.base)
    ensures var l := ReadValue(f, old(buf.len), s);
            && rc == RcOf(l)
            && (l.Value? ==> out.base == buf.base && out.Holds(l.v) && input.rest == l.rest && buf.len == l.cap)
            && (l.Eof? ==> buf.len == l.cap && input.rest == [])
  {
    hide DecodeLine, Grown;
    var found, n := Assemble(c, buf, input, s);
    if !found {
      return EndOfFile;
    }
    ghost var line := s[..n - 1];
    assert buf.base[..n - 1] == line;
    rc := DecodeBuf(out, buf, n - 1, f, line);
  }

  /** Puts the terminator in place of the newline, decodes and points the result at the buffer. */
  method DecodeBuf(out: Val, buf: Buf, n: nat, f: Format, ghost line: bytes) returns (rc: Rc)
    requires buf.Valid() && n < buf.base.Length && buf.base[..n] == line && NulFree(line)
    modifies out, buf.base
    ensures DecodeLine(f, line).None? ==> rc == NoData
    ensures DecodeLine(f, line).Some? ==> rc == Success && out.base == buf.base && out.Holds(DecodeLine(f, line).value)
  {
    buf.base[n] := NUL;
    assert buf.base[..n] == line;
    var ok, w := DecodeInPlace(buf.base, n, f);
    if !ok {
      return NoData;
    }
    out.base, out.len := buf.base, w;
    return Success;
  }

  /**
   * State of the line assembly: `filled` bytes of s are in the buffer with room for a terminator, and
   * the last chunk ended at a newline, at the end of the input or because the buffer was full.
   */
  ghost predicate Filling(buf: Buf, input: Stdin, s: bytes, filled: nat)
    reads buf, buf.base, input
  {
    && buf.Valid() && input.Valid() && NulFree(s)
    && 0 < filled <= |s| && filled + 1 <= buf.len
    && (forall i :: 0 <= i < filled ==> buf.base[i] == s[i])
    && input.rest == s[filled..]
    && Cut(s, filled, buf.len - 1)
  }

  /** A prefix of s that contains a newline only as its last byte and is cut short only by the room for it. */
  ghost predicate Cut(s: bytes, filled: nat, room: int) {
    && 0 < filled <= |s|
    && (forall i :: 0 <= i < filled - 1 ==> s[i] != NL)
    && (s[filled - 1] == NL || filled == |s| || filled == room)
  }

  /**
   * Reads the rest of the line into the buffer, doubling it as needed. At every turn the filled part
   * and its terminator fit the capacity, and the filled part is a prefix of the line.
   */
  method Assemble(c: byte, buf: Buf, input: Stdin, ghost s: bytes) returns (found: bool, filled: nat)
    requires buf.Valid() && input.Valid()
    requires s != [] && c == s[0] && input.rest == s[1..] && NulFree(s)
    modifies buf, buf.base, input
    ensures buf.Valid() && input.Valid()
    ensures buf.base == old(buf.base) || fresh(buf.base)
    ensures found <==> LineLen(s) < |s|
    ensures found ==> filled == LineLen(s) + 1 && filled + 1 <= buf.len
    ensures found ==> forall i :: 0 <= i < filled ==> buf.base[i] == s[i]
    ensures buf.len == Grown(old(buf.len), LineBytes(s))
    ensures found ==> input.rest == s[filled..]
    ensures !found ==> input.rest == []
  {
    found, filled := FirstChunk(c, buf, input, s);
    if !found {
      return;
    }
    while buf.base[filled - 1] != NL
      invariant Filling(buf, input, s, filled)
      invariant buf.base == old(buf.base) || fresh(buf.base)
      invariant Grown(old(buf.len), LineBytes(s)) == Grown(buf.len, LineBytes(s))
      invariant filled <= LineBytes(s)
      decreases |s| - filled
    {
      assert LineLen(s) >= filled;
      found, filled := NextChunk(buf, input, s, filled);
      if !found {
        return;
      }
      assert LineLen(s) >= filled - 1;
    }
    LineLenUnique(s, filled - 1);
  }

  /** The bytes of the first line, its newline included. */
  function LineBytes(s: bytes): nat {
    if LineLen(s) < |s| then LineLen(s) + 1 else |s|
  }

  /** The first fgets(), behind the character already read. */
  method FirstChunk(c: byte, buf: Buf, input: Stdin, ghost s: bytes) returns (found: bool, filled: nat)
    requires buf.Valid() && input.Valid()
    requires s != [] && c == s[0] && input.rest == s[1..] && NulFree(s)
    modifies buf.base, input
    ensures found ==> Filling(buf, input, s, filled)
    ensures found ==> filled <= LineBytes(s)
    ensures !found ==> LineLen(s) == |s| == 1 && input.Valid() && input.rest == []
  {
    buf.base[0] := c;
    buf.base[1] := NUL;
    if c == NL {
      return true, 1;
    }
    var got, k := input.Fgets(buf.base, 1, buf.len - 1);
    if !got {
      return false, 1;
    }
    ChunkKeepsLine(s, 1, buf.len - 1, k);
    filled := Strlen(buf.base, 0, 1 + k);
    found := true;
  }

  /** One turn of the loop: twice the memory, then the next chunk behind what is there. */
  method NextChunk(buf: Buf, input: Stdin, ghost s: bytes, filled: nat) returns (found: bool, now: nat)
    requires Filling(buf, input, s, filled) && s[filled - 1] != NL
    modifies buf, input
    ensures fresh(buf.base) && buf.Valid() && input.Valid()
    ensures found ==> Filling(buf, input, s, now) && now > filled && buf.len == 2 * old(buf.len)
    ensures !found ==> LineLen(s) == |s| == filled && input.rest == [] && buf.len == old(buf.len)
  {
    buf.Realloc(2 * buf.len);
    var got, k := input.Fgets(buf.base, filled, buf.len + 1);
    if !got {
      LineLenUnique(s, |s|);
      return false, filled;
    }
    ChunkKeepsLine(s, filled, buf.len + 1, k);
    buf.len := buf.len * 2;
    var n := Strlen(buf.base, filled, filled + k);
    return true, filled + n;
  }

  /** The next chunk extends such a prefix to another one. */
  lemma ChunkKeepsLine(s: bytes, from: nat, n: nat, k: nat)
    requires 0 < from < |s| && NulFree(s) && IsChunk(s[from..], n, k)
    requires forall i :: 0 <= i < from ==> s[i] != NL
    ensures Cut(s, from + k, from + n - 1) && s[from..][k..] == s[from + k..]
    ensures forall i :: from <= i < from + k ==> s[from..][i - from] == s[i] != NUL
  {
    var t := s[from..];
    forall i | from <= i < from + k - 1 ensures s[i] != NL { assert s[i] == t[i - from]; }
  }
}
