/** Decimal output of printf() and the number readers strtoull() and sscanf(). */
module Numbers {
  import opened Bytes

  const U64: nat := 0x1_0000_0000_0000_0000

  function Digit(d: nat): (c: byte)
    requires d < 10
    ensures IsDigit(c) && c as int - '0' as int == d
  {
    (d + '0' as int) as char
  }

  predicate IsDigit(c: byte) { '0' <= c <= '9' }

  /** "%" PRIu64 */
  function Dec(n: nat): (s: bytes)
    ensures s != []
  {
    if n < 10 then [Digit(n)] else Dec(n / 10) + [Digit(n % 10)]
  }

  predicate IsSpace(c: byte) { c == ' ' || '\t' <= c <= '\r' }

  function SkipSpace(s: bytes): (t: bytes)
    ensures |t| <= |s|
  {
    if s != [] && IsSpace(s[0]) then SkipSpace(s[1..]) else s
  }

  predicate IsDigitIn(base: nat, c: byte) {
    DigitVal(c).Some? && DigitVal(c).value < base
  }

  function DigitVal(c: byte): Option<nat> {
    if '0' <= c <= '9' then Some(c as int - '0' as int)
    else if 'a' <= c <= 'z' then Some(c as int - 'a' as int + 10)
    else if 'A' <= c <= 'Z' then Some(c as int - 'A' as int + 10)
    else None
  }

  /** Takes all leading digits of the base; the value is clamped only at the end. */
  function ScanDigits(base: nat, s: bytes, acc: nat): (nat, bytes)
    decreases |s|
  {
    if s != [] && IsDigitIn(base, s[0]) then ScanDigits(base, s[1..], acc * base + DigitVal(s[0]).value)
    else (acc, s)
  }

  /** What strtoull() and %lu make of a sign and a magnitude. */
  function Signed(neg: bool, v: nat): nat {
    if v >= U64 then U64 - 1 else if neg then (U64 - v) % U64 else v
  }

  function AfterSign(t: bytes): bytes {
    if t != [] && (t[0] == '-' || t[0] == '+') then t[1..] else t
  }

  predicate Negative(t: bytes) { t != [] && t[0] == '-' }

  /** strtoull(s, &end, 0): the value and the text at end. */
  function StrToULL(s: bytes): (nat, bytes) {
    var t := SkipSpace(s);
    var u := AfterSign(t);
    if |u| >= 3 && u[0] == '0' && (u[1] == 'x' || u[1] == 'X') && IsDigitIn(16, u[2]) then
      var (v, rest) := ScanDigits(16, u[2..], 0);
      (Signed(Negative(t), v), rest)
    else if u == [] || !IsDigit(u[0]) then (0, s)
    else
      var (v, rest) := ScanDigits(if u[0] == '0' then 8 else 10, u, 0);
      (Signed(Negative(t), v), rest)
  }

  /** The conversion "%" SCNu64 of sscanf(). */
  function ScanU64(s: bytes): Option<(nat, bytes)> {
    var t := SkipSpace(s);
    var u := AfterSign(t);
    if u == [] || !IsDigit(u[0]) then None
    else
      var (v, rest) := ScanDigits(10, u, 0);
      Some((Signed(Negative(t), v), rest))
  }

  // ---------------------------------------------------------------- what was printed is read back

  function Fold(s: bytes, acc: nat): nat
    requires forall i :: 0 <= i < |s| ==> IsDigit(s[i])
  {
    if s == [] then acc else assert IsDigit(s[0]); Fold(s[1..], acc * 10 + (s[0] as int - '0' as int))
  }

  lemma {:induction false} FoldLast(s: bytes, c: byte, acc: nat)
    requires IsDigit(c) && forall i :: 0 <= i < |s| ==> IsDigit(s[i])
    ensures Fold(s + [c], acc) == Fold(s, acc) * 10 + (c as int - '0' as int)
  {
    if s != [] {
      assert (s + [c])[1..] == s[1..] + [c];
      FoldLast(s[1..], c, acc * 10 + (s[0] as int - '0' as int));
    }
  }

  lemma {:induction false} DecIsDigits(n: nat)
    ensures forall i :: 0 <= i < |Dec(n)| ==> IsDigit(Dec(n)[i])
    ensures n > 0 ==> Dec(n)[0] != '0'
    ensures Fold(Dec(n), 0) == n
    decreases n
  {
    if n >= 10 {
      DecIsDigits(n / 10);
      FoldLast(Dec(n / 10), Digit(n % 10), 0);
    }
  }

  lemma {:induction false} ScanRun(p: bytes, q: bytes, acc: nat)
    requires forall i :: 0 <= i < |p| ==> IsDigit(p[i])
    requires q == [] || !IsDigit(q[0])
    ensures ScanDigits(10, p + q, acc) == (Fold(p, acc), q)
    decreases |p|
  {
    if p == [] {
      assert p + q == q;
    } else {
      assert (p + q)[1..] == p[1..] + q;
      ScanRun(p[1..], q, acc * 10 + (p[0] as int - '0' as int));
    }
  }

  lemma StrToULLDec(n: nat)
    requires n < U64
    ensures StrToULL(Dec(n)) == (n, [])
  {
    DecIsDigits(n);
    var s := Dec(n);
    assert s + [] == s;
    ScanRun(s, [], 0);
    if n == 0 {
      assert s == ['0'];
      assert ScanDigits(8, s, 0) == ScanDigits(8, s[1..], 0);
    }
  }

  lemma ScanU64Dec(n: nat, q: bytes)
    requires n < U64 && (q == [] || !IsDigit(q[0]))
    ensures ScanU64(Dec(n) + q) == Some((n, q))
  {
    DecIsDigits(n);
    var s := Dec(n) + q;
    assert s[0] == Dec(n)[0];
    ScanRun(Dec(n), q, 0);
  }

  function Pow10(k: nat): nat { if k == 0 then 1 else 10 * Pow10(k - 1) }

  lemma {:induction false} DecLength(n: nat, k: nat)
    requires k >= 1 && n < Pow10(k)
    ensures |Dec(n)| <= k
  {
    if n >= 10 {
      DecLength(n / 10, k - 1);
    }
  }

  lemma DecShort(n: nat)
    requires n < U64
    ensures |Dec(n)| <= 20
  {
    assert Pow10(10) == 10000000000;
    assert Pow10(20) == 100000000000000000000;
    DecLength(n, 20);
  }
}
