/** Values as text: the printer of mdbx_dump.c and the in-place decoder of mdbx_load.c. */
module Codec {
  import opened Bytes

  datatype Format = Print | ByteValue

  // ---------------------------------------------------------------- character classes

  predicate IsPrint(c: byte) { ' ' <= c <= '~' }

  predicate IsXDigit(c: byte) {
    '0' <= c <= '9' || 'a' <= c <= 'f' || 'A' <= c <= 'F'
  }

  /** The value of a hexadecimal digit, by the book. */
  function HexVal(c: byte): (d: nat)
    requires IsXDigit(c)
    ensures d < 16
  {
    if '0' <= c <= '9' then c as int - '0' as int
    else if 'a' <= c <= 'f' then c as int - 'a' as int + 10
    else c as int - 'A' as int + 10
  }

  const DIGITS: bytes := "0123456789abcdef"

  /** The byte written as two hexadecimal digits. */
  function Unhexed(hi: byte, lo: byte): byte
    requires IsXDigit(hi) && IsXDigit(lo)
  {
    (16 * HexVal(hi) + HexVal(lo)) as char
  }

  /** Reinterpretation of an integer as int8_t. */
  function Int8(x: int): (y: int)
    ensures -128 <= y < 128
    ensures -128 <= x < 128 ==> y == x
  {
    (x + 128) % 256 - 128
  }

  /**
   * One half of unhex(): set bit 5, subtract 'a', then add 10 and, when the sign bit is set, 39 more.
   * The branch-free arithmetic computes the digit's value, in either case.
   */
  method UnhexNibble(c: byte) returns (d: int)
    requires IsXDigit(c)
    ensures d == HexVal(c)
  {
    d := if (c as int / 32) % 2 == 0 then c as int + 32 else c as int;
    d := Int8(d - 'a' as int);
    d := Int8(d + 10 + (if d < 0 then 39 else 0));
  }

  /** unhex() on two digits: the two nibbles do not overlap, so `<<4 |` is multiply and add. */
  method Unhex(hi: byte, lo: byte) returns (r: byte)
    requires IsXDigit(hi) && IsXDigit(lo)
    ensures r == Unhexed(hi, lo)
  {
    var h := UnhexNibble(hi);
    var l := UnhexNibble(lo);
    r := (h * 16 + l) as char;
  }

  lemma DigitRoundTrip(d: nat)
    requires d < 16
    ensures IsXDigit(DIGITS[d]) && HexVal(DIGITS[d]) == d && DIGITS[d] != NL && DIGITS[d] != SP && DIGITS[d] != NUL
  {
    if d < 8 {
      if d < 4 { assert d == 0 || d == 1 || d == 2 || d == 3; }
      else { assert d == 4 || d == 5 || d == 6 || d == 7; }
    } else {
      if d < 12 { assert d == 8 || d == 9 || d == 10 || d == 11; }
      else { assert d == 12 || d == 13 || d == 14 || d == 15; }
    }
  }

  // ---------------------------------------------------------------- printing

  function EncodeByte(f: Format, c: byte): bytes {
    if f.Print? && IsPrint(c) && c != BS then [c]
    else (if f.Print? then [BS] else []) + [DIGITS[c as int / 16], DIGITS[c as int % 16]]
  }

  function EncodeBytes(f: Format, v: bytes): bytes {
    if v == [] then [] else EncodeByte(f, v[0]) + EncodeBytes(f, v[1..])
  }

  /** What dumpval() prints for one key or datum. */
  function EncodeValue(f: Format, v: bytes): bytes {
    [SP] + EncodeBytes(f, v) + [NL]
  }

  lemma EncodeNothing(f: Format)
    ensures EncodeBytes(f, []) == []
  {
  }

  lemma {:induction false} EncodeBytesAppend(f: Format, v: bytes, w: bytes)
    ensures EncodeBytes(f, v + w) == EncodeBytes(f, v) + EncodeBytes(f, w)
  {
    if v == [] {
      assert v + w == w;
    } else {
      assert (v + w)[1..] == v[1..] + w;
      EncodeBytesAppend(f, v[1..], w);
    }
  }

  lemma Assoc(a: bytes, b: bytes, c: bytes)
    ensures a + b + c == a + (b + c)
  {
  }

  class Stdout {
    var text: bytes

    constructor ()
      ensures text == []
    {
      text := [];
    }

    method Putchar(c: byte)
      modifies this
      ensures text == old(text) + [c]
    {
      text := text + [c];
    }

    method Puts(s: bytes)
      modifies this
      ensures text == old(text) + s
    {
      text := text + s;
    }

    /** dumpval() of mdbx_dump.c. */
    method DumpVal(f: Format, v: bytes)
      modifies this
      ensures text == old(text) + EncodeValue(f, v)
    {
      hide EncodeBytes;
      EncodeNothing(f);
      Putchar(SP);
      ghost var before, acc := text, [];
      for i := 0 to |v|
        invariant text == before + acc
        invariant acc == EncodeBytes(f, v[..i])
      {
        assert v[..i + 1] == v[..i] + [v[i]];
        EncodeBytesAppend(f, v[..i], [v[i]]);
        Assoc(before, acc, EncodeBytes(f, [v[i]]));
        DumpByte(f, v[i]);
        acc := acc + EncodeBytes(f, [v[i]]);
      }
      assert v[..|v|] == v;
      Putchar(NL);
    }

    /** The body of dumpval()'s loop. */
    method DumpByte(f: Format, c: byte)
      modifies this
      ensures text == old(text) + EncodeBytes(f, [c])
    {
      assert EncodeBytes(f, [c]) == EncodeByte(f, c);
      if f.Print? {
        if IsPrint(c) && c != BS {
          Putchar(c);
          return;
        } else {
          Putchar(BS);
        }
      }
      Putchar(DIGITS[c as int / 16]);
      Putchar(DIGITS[c as int % 16]);
    }
  }

  // ---------------------------------------------------------------- decoding

  function Prepend(c: byte, r: Option<bytes>): Option<bytes> {
    if r.Some? then Some([c] + r.value) else None
  }

  function DecodePrint(line: bytes): Option<bytes>
    decreases |line|
  {
    if line == [] then Some([])
    else if line[0] == BS then
      if |line| >= 2 && line[1] == BS then Prepend(BS, DecodePrint(line[2..]))
      else if |line| < 3 || !IsXDigit(line[1]) || !IsXDigit(line[2]) then None
      else Prepend(Unhexed(line[1], line[2]), DecodePrint(line[3..]))
    else Prepend(line[0], DecodePrint(line[1..]))
  }

  function DecodeHex(line: bytes): Option<bytes> {
    if line == [] then Some([])
    else if |line| == 1 || !IsXDigit(line[0]) || !IsXDigit(line[1]) then None
    else Prepend(Unhexed(line[0], line[1]), DecodeHex(line[2..]))
  }

  function DecodeLine(f: Format, line: bytes): Option<bytes> {
    if f.Print? then DecodePrint(line) else DecodeHex(line)
  }

  /** Decoding what was printed gives the value back, in both formats and for every value. */
  lemma DecodeEncode(f: Format, v: bytes)
    ensures DecodeLine(f, EncodeBytes(f, v)) == Some(v)
  {
    if f.Print? { PrintRoundTrip(v); } else { HexRoundTrip(v); }
  }

  lemma {:induction false} PrintRoundTrip(v: bytes)
    ensures DecodePrint(EncodeBytes(Print, v)) == Some(v)
  {
    if v != [] {
      var c, rest := v[0], EncodeBytes(Print, v[1..]);
      PrintRoundTrip(v[1..]);
      assert v == [c] + v[1..];
      DecodePrintStep(c, rest);
    }
  }

  /** The decoder takes one printed byte off the front of any text. */
  lemma DecodePrintStep(c: byte, rest: bytes)
    ensures DecodePrint(EncodeByte(Print, c) + rest) == Prepend(c, DecodePrint(rest))
  {
    var e := EncodeByte(Print, c);
    var s := e + rest;
    var hi, lo := EncodedDigits(c);
    if |e| == 1 {
      assert s[0] == c && s[1..] == rest;
    } else {
      assert s[0] == BS && s[1] == hi && s[2] == lo && s[3..] == rest;
    }
  }

  lemma {:induction false} HexRoundTrip(v: bytes)
    ensures DecodeHex(EncodeBytes(ByteValue, v)) == Some(v)
  {
    if v != [] {
      var c, rest := v[0], EncodeBytes(ByteValue, v[1..]);
      HexRoundTrip(v[1..]);
      assert v == [c] + v[1..];
      DecodeHexStep(c, rest);
    }
  }

  lemma DecodeHexStep(c: byte, rest: bytes)
    ensures DecodeHex(EncodeByte(ByteValue, c) + rest) == Prepend(c, DecodeHex(rest))
  {
    var hi, lo := EncodedDigits(c);
    var s := EncodeByte(ByteValue, c) + rest;
    assert s[0] == hi && s[1] == lo && s[2..] == rest;
  }

  /** The two digits printed for a byte are hex digits, stand for it and are no separators. */
  lemma EncodedDigits(c: byte) returns (hi: byte, lo: byte)
    ensures hi == DIGITS[c as int / 16] && lo == DIGITS[c as int % 16]
    ensures IsXDigit(hi) && IsXDigit(lo) && Unhexed(hi, lo) == c
    ensures hi != NL && hi != NUL && hi != SP && hi != BS && lo != NL && lo != NUL
  {
    hi, lo := DIGITS[c as int / 16], DIGITS[c as int % 16];
    DigitRoundTrip(c as int / 16);
    DigitRoundTrip(c as int % 16);
    assert Unhexed(hi, lo) as int == c as int;
  }

  /** Printed text never contains the line terminator and is NUL-free. */
  lemma {:induction false} EncodedHasNoNewline(f: Format, v: bytes)
    ensures forall i :: 0 <= i < |EncodeBytes(f, v)| ==> EncodeBytes(f, v)[i] != NL && EncodeBytes(f, v)[i] != NUL
  {
    if v != [] {
      var hi, lo := EncodedDigits(v[0]);
      EncodedHasNoNewline(f, v[1..]);
    }
  }

  predicate AllXDigits(line: bytes) {
    forall i :: 0 <= i < |line| ==> IsXDigit(line[i])
  }

  /** In bytevalue format a line is refused exactly for odd length or a character that is not a hex digit. */
  lemma {:induction false} HexAcceptedIff(line: bytes)
    ensures DecodeHex(line).Some? <==> |line| % 2 == 0 && AllXDigits(line)
  {
    if |line| >= 2 {
      HexAcceptedIff(line[2..]);
      AllXDigitsTail(line);
      hide AllXDigits, IsXDigit, Unhexed;
    }
  }

  lemma AllXDigitsTail(line: bytes)
    requires |line| >= 2
    ensures AllXDigits(line) <==> IsXDigit(line[0]) && IsXDigit(line[1]) && AllXDigits(line[2..])
  {
    hide IsXDigit;
    var tail := line[2..];
    forall i | 2 <= i < |line| ensures line[i] == tail[i - 2] { }
    assert AllXDigits(line) ==> forall i :: 0 <= i < |tail| ==> tail[i] == line[i + 2] && IsXDigit(tail[i]);
  }

  /** Where a token of a print-format line ends: a plain character, a doubled backslash or an escape. */
  function TokenEnd(line: bytes, p: nat): nat
    requires p < |line|
  {
    if line[p] != BS then p + 1
    else if p + 1 < |line| && line[p + 1] == BS then p + 2
    else p + 3
  }

  /** p is reached from `from` by whole tokens. */
  ghost predicate TokenAt(line: bytes, from: nat, p: nat)
    decreases |line| - from
  {
    from == p || (from < |line| && TokenEnd(line, from) <= |line| && TokenAt(line, TokenEnd(line, from), p))
  }

  /** A backslash at a token boundary that is followed neither by a backslash nor by two hex digits. */
  ghost predicate BrokenEscape(line: bytes, p: nat) {
    && p < |line| && line[p] == BS
    && !(p + 1 < |line| && line[p + 1] == BS)
    && !(p + 2 < |line| && IsXDigit(line[p + 1]) && IsXDigit(line[p + 2]))
  }

  /** In print format a line is refused exactly when some token is a broken escape. */
  lemma {:induction false} PrintAcceptedIff(line: bytes, from: nat)
    requires from <= |line|
    ensures DecodePrint(line[from..]).None? <==> exists p :: TokenAt(line, from, p) && BrokenEscape(line, p)
    decreases |line| - from
  {
    var s := line[from..];
    if from < |line| {
      var e := TokenEnd(line, from);
      if BrokenEscape(line, from) {
        assert TokenAt(line, from, from);
      } else {
        assert s[e - from..] == line[e..];
        PrintAcceptedIff(line, e);
        assert DecodePrint(s).None? <==> DecodePrint(line[e..]).None?;
        if p :| TokenAt(line, e, p) && BrokenEscape(line, p) {
          assert TokenAt(line, from, p);
        }
        if p :| TokenAt(line, from, p) && BrokenEscape(line, p) {
          assert p != from;
          assert TokenAt(line, e, p);
        }
      }
    }
  }

  /**
   * The decoding loops at the end of readline(): both run inside the buffer, reading at r and writing
   * at w <= r, with the terminator already in place of the newline.
   */
  method DecodeInPlace(a: array<byte>, len: nat, f: Format) returns (ok: bool, w: nat)
    requires len < a.Length && a[len] == NUL && NulFree(a[..len])
    modifies a
    ensures ok <==> DecodeLine(f, old(a[..len])).Some?
    ensures ok ==> w <= len && a[..w] == DecodeLine(f, old(a[..len])).value
    ensures forall i :: len <= i < a.Length ==> a[i] == old(a[i])
  {
    if f.Print? {
      ok, w := DecodePrintInPlace(a, len);
    } else {
      ok, w := DecodeHexInPlace(a, len);
    }
  }

  method DecodePrintInPlace(a: array<byte>, len: nat) returns (ok: bool, w: nat)
    requires len < a.Length && a[len] == NUL && NulFree(a[..len])
    modifies a
    ensures ok <==> DecodePrint(old(a[..len])).Some?
    ensures ok ==> w <= len && a[..w] == DecodePrint(old(a[..len])).value
    ensures forall i :: len <= i < a.Length ==> a[i] == old(a[i])
  {
    ghost var line := a[..len];
    assert line[0..] == line;
    JoinedNothing(DecodePrint(line));
    w := 0;
    var r := 0;
    while r < len
      invariant w <= r <= len
      invariant forall i :: r <= i < a.Length ==> a[i] == old(a[i])
      invariant DecodePrint(line) == Joined(a[..w], DecodePrint(line[r..]))
    {
      assert forall i :: r <= i < len ==> a[i] == line[i];
      ghost var head := a[..w];
      assert line[r..] == a[r..len];
      var good, c, next := TakeToken(a, r, len);
      if !good {
        ok := false;
        return;
      }
      assert line[next..] == line[r..][next - r..] == a[r..len][next - r..] == a[next..len];
      r := next;
      JoinedShift(head, c, DecodePrint(line[r..]));
      a[w] := c;
      w := w + 1;
      assert a[..w] == head + [c];
    }
    assert line[r..] == [];
    ok := true;
  }

  /** One turn of the print-format loop: the next decoded byte and where reading goes on. */
  method TakeToken(a: array<byte>, r: nat, len: nat) returns (ok: bool, c: byte, next: nat)
    requires r < len < a.Length && a[len] == NUL && NulFree(a[r..len])
    ensures ok ==> r < next <= len && DecodePrint(a[r..len]) == Prepend(c, DecodePrint(a[next..len]))
    ensures !ok ==> DecodePrint(a[r..len]).None?
  {
    ghost var rest := a[r..len];
    assert rest[0] == a[r];
    if a[r] != BS {
      assert rest[1..] == a[r + 1..len];
      return true, a[r], r + 1;
    }
    assert r + 1 < len ==> rest[1] == a[r + 1];
    if a[r + 1] == BS {
      assert rest[2..] == a[r + 2..len];
      return true, BS, r + 2;
    }
    if r + 3 > len || !IsXDigit(a[r + 1]) || !IsXDigit(a[r + 2]) {
      assert r + 2 < len ==> rest[2] == a[r + 2];
      return false, NUL, r;
    }
    assert rest[2] == a[r + 2] && rest[3..] == a[r + 3..len];
    c := Unhex(a[r + 1], a[r + 2]);
    return true, c, r + 3;
  }

  method DecodeHexInPlace(a: array<byte>, len: nat) returns (ok: bool, w: nat)
    requires len < a.Length && a[len] == NUL && NulFree(a[..len])
    modifies a
    ensures ok <==> DecodeHex(old(a[..len])).Some?
    ensures ok ==> w <= len && a[..w] == DecodeHex(old(a[..len])).value
    ensures forall i :: len <= i < a.Length ==> a[i] == old(a[i])
  {
    ghost var line := a[..len];
    assert line[0..] == line;
    JoinedNothing(DecodeHex(line));
    w := 0;
    if len % 2 == 1 {
      HexAcceptedIff(line);
      ok := false;
      return;
    }
    var r := 0;
    while r < len
      invariant w <= r <= len && r % 2 == 0
      invariant forall i :: r <= i < a.Length ==> a[i] == old(a[i])
      invariant DecodeHex(line) == Joined(a[..w], DecodeHex(line[r..]))
    {
      ghost var rest, head := line[r..], a[..w];
      assert rest[0] == a[r] && rest[1] == a[r + 1];
      if !IsXDigit(a[r]) || !IsXDigit(a[r + 1]) {
        ok := false;
        return;
      }
      assert rest[2..] == line[r + 2..];
      var c := Unhex(a[r], a[r + 1]);
      JoinedShift(head, c, DecodeHex(line[r + 2..]));
      a[w] := c;
      w, r := w + 1, r + 2;
      assert a[..w] == head + [c];
    }
    assert line[r..] == [];
    ok := true;
  }

  /** The part decoded so far in front of what is still to be decoded. */
  function Joined(done: bytes, r: Option<bytes>): Option<bytes> {
    if r.Some? then Some(done + r.value) else None
  }

  lemma JoinedNothing(r: Option<bytes>)
    ensures Joined([], r) == r
  {
    if r.Some? { assert [] + r.value == r.value; }
  }

  lemma JoinedShift(done: bytes, c: byte, r: Option<bytes>)
    ensures Joined(done, Prepend(c, r)) == Joined(done + [c], r)
  {
    if r.Some? { assert done + ([c] + r.value) == done + [c] + r.value; }
  }
}
