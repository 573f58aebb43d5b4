/** The main results about headers. */
module HeaderTheorems {
  import opened Bytes
  import opened Codec
  import opened Numbers
  import opened Stdio
  import opened Header
  import opened HeaderProofs

  // ---------------------------------------------------------------- lengths

  lemma {:induction false} FlagLinesFit(flags: set<Flag>, table: seq<Flag>, cap: nat)
    requires cap >= 128
    ensures Fit(FlagLines(flags, table), cap)
    decreases |table|
  {
    if table != [] {
      FlagLinesFit(flags, table[1..], cap);
      FlagLineFits(table[0], cap);
    }
  }

  lemma FlagLineFits(b: Flag, cap: nat)
    requires cap >= 128
    ensures NoNewline(NameOf(FlagBit(b)) + ON) && |NameOf(FlagBit(b)) + ON| <= cap - 1
  {
    NamesHaveNoNewline(FlagBit(b));
    assert |NameOf(FlagBit(b))| <= 10;
  }

  lemma NumberFits(item: bytes, n: nat, cap: nat)
    requires NoNewline(item) && |item| <= 20 && n < U64 && cap >= 128
    ensures NoNewline(item + Dec(n)) && |item + Dec(n)| <= cap - 1
  {
    NoNewlineIn(n);
    DecShort(n);
  }

  lemma GlobalLinesFit(env: EnvInfo, cap: nat)
    requires EnvOk(env) && cap >= 128
    ensures Fit(GlobalLines(env), cap)
  {
    GlobalLinesShort(env);
  }

  lemma GlobalLinesShort(env: EnvInfo)
    requires EnvOk(env)
    ensures Fit(GlobalLines(env), 127)
    ensures forall i :: 0 <= i < |GlobalLines(env)| ==> GlobalLines(env)[i] != [] && GlobalLines(env)[i][0] != 'H'
  {
    var c := env.canary;
    NoNewlineIn(env.upper);
    FourNoNewline(T_L, env.lower, T_U, env.upper, T_S, env.shrink, T_G, env.grow);
    FourNoNewline(T_V, c.v, T_X, c.x, T_Y, c.y, T_Z, c.z);
    DecShort(env.lower);
    DecShort(env.upper);
    DecShort(env.shrink);
    DecShort(env.grow);
    DecShort(c.v);
    DecShort(c.x);
    DecShort(c.y);
    DecShort(c.z);
    assert NoNewline(GEOMETRY + GeometryText(env)) && |GEOMETRY + GeometryText(env)| <= 100;
    assert NoNewline(CANARY + CanaryText(c)) && |CANARY + CanaryText(c)| <= 100;
  }

  lemma FitAppend(a: seq<bytes>, b: seq<bytes>, cap: nat)
    requires Fit(a, cap) && Fit(b, cap)
    ensures Fit(a + b, cap)
  {
  }

  lemma FixedLinesFit(cap: nat)
    requires cap >= 128
    ensures Fit([VERSION3], cap) && Fit([FORMAT_PRINT], cap) && Fit([FORMAT_BYTEVALUE], cap) && Fit([TYPE_BTREE], cap)
    ensures Fit([DUPLICATES0], cap) && Fit([DUPLICATES1], cap)
  {
  }

  lemma OneFits(line: bytes, cap: nat)
    requires NoNewline(line) && |line| <= cap - 1
    ensures Fit([line], cap)
  {
  }

  lemma ItemsFit(env: EnvInfo, name: Option<bytes>, sequence: nat, cap: nat)
    requires EnvOk(env) && sequence < U64 && NameOk(name) && cap >= 128
    requires name.Some? ==> |DATABASE| + |name.value| <= cap - 1
    ensures Fit([PAGESIZE + Dec(env.pagesize)], cap)
    ensures Fit(if name.Some? then [DATABASE + name.value] else [], cap)
    ensures Fit(if sequence != 0 then [SEQUENCE + Dec(sequence)] else [], cap)
  {
    hide Dec;
    NumberFits(PAGESIZE, env.pagesize, cap);
    NumberFits(SEQUENCE, sequence, cap);
    if name.Some? { OneFits(DATABASE + name.value, cap); }
  }

  lemma HeaderFits(env: EnvInfo, global: bool, f: Format, name: Option<bytes>, flags: set<Flag>,
                   sequence: nat, cap: nat)
    requires EnvOk(env) && sequence < U64 && NameOk(name) && cap >= 128
    requires name.Some? ==> |DATABASE| + |name.value| <= cap - 1
    ensures Fit(HeaderLines(env, global, f, name, flags, sequence), cap)
  {
    hide Fit, Dec, GlobalLines, FlagLines, EnvOk, NameOk;
    GlobalLinesFit(env, cap);
    FlagLinesFit(flags, DUMP_FLAGS, cap);
    FixedLinesFit(cap);
    ItemsFit(env, name, sequence, cap);
    NothingFits(cap);
    var s := if sequence != 0 then [SEQUENCE + Dec(sequence)] else [];
    var t := FlagLines(flags, DUMP_FLAGS) + s;
    FitAppend(FlagLines(flags, DUMP_FLAGS), s, cap);
    var d := [if HasDuplicates(flags) then DUPLICATES1 else DUPLICATES0];
    FitAppend(d, t, cap);
    FitAppend([PAGESIZE + Dec(env.pagesize)], d + t, cap);
    var u := [PAGESIZE + Dec(env.pagesize)] + (d + t);
    FitAppend([TYPE_BTREE], u, cap);
    var n := if name.Some? then [DATABASE + name.value] else [];
    FitAppend(n, [TYPE_BTREE] + u, cap);
    var v := n + ([TYPE_BTREE] + u);
    var fl := [if f.Print? then FORMAT_PRINT else FORMAT_BYTEVALUE];
    FitAppend(fl, v, cap);
    var g := if global then GlobalLines(env) else [];
    FitAppend(g, fl + v, cap);
    FitAppend([VERSION3], g + (fl + v), cap);
  }

  lemma NothingFits(cap: nat)
    ensures Fit([], cap)
  {
  }

  // ---------------------------------------------------------------- round trip

  /**
   * Reading a printed header recovers the name, the format, the sequence, the page size, in global
   * context the geometry, map size and canary, and the flags closed under "duplicates imply dupsort".
   */
  lemma HeaderRoundTrip(h: Hdr, env: EnvInfo, global: bool, f: Format, name: Option<bytes>, flags: set<Flag>,
                        sequence: nat, rest: bytes, cap: nat)
    requires EnvOk(env) && sequence < U64 && NameOk(name) && cap >= 128
    requires h.global == global && (global || h.pagesize == env.pagesize)
    requires name.Some? ==> |DATABASE| + |name.value| <= cap - 1
    ensures ReadHeader(h, HeaderText(env, global, f, name, flags, sequence) + rest, cap)
         == HdrOk(Loaded(h, env, global, f, name, flags, sequence), rest)
  {
    HeaderRuns(h, env, global, f, name, flags, sequence);
    HeaderFits(env, global, f, name, flags, sequence, cap);
    ParseWhole(Reset(h), HeaderLines(env, global, f, name, flags, sequence),
               Loaded(h, env, global, f, name, flags, sequence), rest, cap);
  }

  lemma ParseWhole(h: Hdr, lines: seq<bytes>, h': Hdr, rest: bytes, cap: nat)
    requires cap >= 128 && Fit(lines, cap) && Runs(ApplyLine, h, lines, h')
    ensures ParseHeader(h, Text(lines) + (HEADER_END + [NL]) + rest, cap) == HdrOk(h', rest)
  {
    hide ParseHeader, Text, Dispatch;
    var end := HEADER_END + [NL] + rest;
    Assoc(Text(lines), HEADER_END + [NL], rest);
    ParseLines(h, lines, h', end, cap);
    EndPrinted(h');
    OneLine(h', HEADER_END, rest, cap);
  }

  // ---------------------------------------------------------------- names that do not survive

  /** What a name that was read from a header's line is like. */
  ghost predicate NameRead(h: Hdr, cap: nat) {
    h.name.Some? ==>
      h.name.value != [] && NoNewline(h.name.value) && |DATABASE| + |h.name.value| <= cap - 1
  }

  lemma ApplyNameRead(h: Hdr, k: Keyword, s: bytes, cap: nat)
    requires NameRead(h, cap) && NoNewline(s) && (k == Database ==> |DATABASE| + |s| <= cap - 1)
    ensures var r := Apply(h, k, s); !r.Exit? ==> NameRead(r.h, cap)
  {
    if IsText(k) {
      assert Apply(h, k, s) == ApplyText(h, k, s);
    } else if NumberIn(s).Field? {
      assert Apply(h, k, s) == ApplyNumber(h, k, NumberIn(s).value);
    }
  }

  lemma {:induction false} DispatchNameRead(h: Hdr, line: bytes, keys: seq<Keyword>, cap: nat)
    requires NameRead(h, cap) && |line| <= cap - 1
    ensures var r := Dispatch(h, line, keys); !r.Exit? ==> NameRead(r.h, cap)
    decreases |keys|
  {
    if keys != [] {
      hide Apply, NameRead;
      match ValStr(line, NameOf(keys[0]))
      case Fatal =>
      case NoField => DispatchNameRead(h, line, keys[1..], cap);
      case Field(s) => ApplyNameRead(h, keys[0], s, cap);
    }
  }

  /** A name that comes out of a header is never empty, fits the line buffer and holds no newline. */
  lemma {:induction false} NameBounded(h: Hdr, s: bytes, cap: nat)
    requires NameRead(h, cap) && cap >= 2
    ensures var r := ParseHeader(h, s, cap); r.HdrOk? ==> NameRead(r.h, cap)
    decreases |s|
  {
    if s != [] {
      var k := FgetsLen(s, cap);
      DispatchNameRead(h, s[..k], KEYWORDS, cap);
      if ApplyLine(h, s[..k]).Next? {
        NameBounded(ApplyLine(h, s[..k]).h, s[k..], cap);
      }
    }
  }

  /**
   * A table's name survives the dump exactly when it is not empty, holds no newline, and its "database="
   * line, without the newline, fits the loader's line buffer; any other name is cut or missing.
   */
  lemma NameSurvivesIff(h: Hdr, env: EnvInfo, f: Format, name: bytes, flags: set<Flag>, sequence: nat,
                        rest: bytes, cap: nat)
    requires EnvOk(env) && sequence < U64 && NulFree(name) && cap >= 128
    requires h.global || h.pagesize == env.pagesize
    ensures var r := ReadHeader(h, HeaderText(env, h.global, f, Some(name), flags, sequence) + rest, cap);
            r.HdrOk? && r.h.name == Some(name)
            <==> name != [] && NoNewline(name) && |DATABASE| + |name| <= cap - 1
  {
    hide HeaderText, ParseHeader;
    var s := HeaderText(env, h.global, f, Some(name), flags, sequence) + rest;
    if name != [] && NoNewline(name) && |DATABASE| + |name| <= cap - 1 {
      HeaderRoundTrip(h, env, h.global, f, Some(name), flags, sequence, rest, cap);
    }
    NameBounded(Reset(h), s, cap);
  }

  /** Three names that do not survive: one with a newline, the empty one, and one of 4088 characters. */
  lemma NamesAreCut(h: Hdr, env: EnvInfo, f: Format, name: bytes, rest: bytes)
    requires EnvOk(env) && (h.global || h.pagesize == env.pagesize)
    requires name == "a\nb" || name == [] || name == seq(4088, _ => 'x')
    ensures var r := ReadHeader(h, HeaderText(env, h.global, f, Some(name), {}, 0) + rest, LINE_BUFFER);
            !(r.HdrOk? && r.h.name == Some(name))
  {
    hide HeaderText, ParseHeader;
    assert name == "a\nb" ==> name[1] == NL;
    assert NulFree(name);
    NameSurvivesIff(h, env, f, name, {}, 0, rest, LINE_BUFFER);
  }

  // ---------------------------------------------------------------- what a header depends on

  /** Two states that agree on what the current header has set so far, and on being global or not. */
  ghost predicate SameSoFar(a: Hdr, b: Hdr) {
    a.name == b.name && a.flags == b.flags && a.sequence == b.sequence && a.global == b.global
  }

  ghost predicate SameStep(a: Step, b: Step) {
    match a
    case Exit => b.Exit?
    case End(h) => b.End? && SameSoFar(h, b.h)
    case Next(h) => b.Next? && SameSoFar(h, b.h)
  }

  lemma ApplySame(a: Hdr, b: Hdr, k: Keyword, s: bytes)
    requires SameSoFar(a, b)
    ensures SameStep(Apply(a, k, s), Apply(b, k, s))
  {
    if IsText(k) {
      assert SameStep(ApplyText(a, k, s), ApplyText(b, k, s));
    } else if NumberIn(s).Field? {
      assert SameStep(ApplyNumber(a, k, NumberIn(s).value), ApplyNumber(b, k, NumberIn(s).value));
    }
  }

  lemma {:induction false} DispatchSame(a: Hdr, b: Hdr, line: bytes, keys: seq<Keyword>)
    requires SameSoFar(a, b)
    ensures SameStep(Dispatch(a, line, keys), Dispatch(b, line, keys))
    decreases |keys|
  {
    if keys != [] {
      match ValStr(line, NameOf(keys[0]))
      case Fatal =>
      case NoField => DispatchSame(a, b, line, keys[1..]);
      case Field(s) => ApplySame(a, b, keys[0], s);
    }
  }

  lemma {:induction false} ParseSame(a: Hdr, b: Hdr, s: bytes, cap: nat)
    requires SameSoFar(a, b) && cap >= 2
    ensures SameResult(ParseHeader(a, s, cap), ParseHeader(b, s, cap))
    decreases |s|
  {
    if s != [] {
      var k := FgetsLen(s, cap);
      DispatchSame(a, b, s[..k], KEYWORDS);
      if ApplyLine(a, s[..k]).Next? {
        ParseSame(ApplyLine(a, s[..k]).h, ApplyLine(b, s[..k]).h, s[k..], cap);
      }
    }
  }

  ghost predicate SameResult(a: HdrResult, b: HdrResult) {
    match a
    case HdrEof => b.HdrEof?
    case HdrExit => b.HdrExit?
    case HdrOk(h, rest) => b.HdrOk? && b.rest == rest && SameSoFar(h, b.h)
  }

  /**
   * Name, flags and sequence after a header come from that header's lines only: nothing of the tables
   * read before leaks into them.
   */
  lemma NothingLeaksFromEarlierTables(a: Hdr, b: Hdr, s: bytes, cap: nat)
    requires cap >= 2 && a.global == b.global
    ensures SameResult(ReadHeader(a, s, cap), ReadHeader(b, s, cap))
  {
    ParseSame(Reset(a), Reset(b), s, cap);
  }

  // ---------------------------------------------------------------- the format

  /** The chunk ends the header. */
  predicate EndsHeader(chunk: bytes) { ValStr(chunk, NameOf(HeaderMark)) == Field("END") }

  /** Some chunk of the header, in front of the one that ends it, has a value for the format. */
  predicate NamesFormat(s: bytes, cap: nat)
    requires cap >= 2
    decreases |s|
  {
    s != [] &&
    var k := FgetsLen(s, cap);
    ValStr(s[..k], NameOf(FormatName)).Field? || (!EndsHeader(s[..k]) && NamesFormat(s[k..], cap))
  }

  /** A chunk that holds a keyword with a value has that keyword's effect, the ones tried before do not match. */
  lemma FieldApplies(h: Hdr, chunk: bytes, at: nat, k: Keyword)
    requires at < |KEYWORDS| && KEYWORDS[at] == k && k !in KEYWORDS[..at] && ValStr(chunk, NameOf(k)).Field?
    ensures ApplyLine(h, chunk) == Apply(h, k, ValStr(chunk, NameOf(k)).value)
  {
    var back := KEYWORDS[at + 1..];
    assert KEYWORDS == KEYWORDS[..at] + [k] + back;
    SkipTo(h, chunk, KEYWORDS[..at], k, back);
    assert ([k] + back)[0] == k;
  }

  lemma ApplyKeepsFormat(h: Hdr, k: Keyword, s: bytes)
    requires k != FormatName
    ensures var r := Apply(h, k, s); !r.Exit? ==> r.h.plain == h.plain
    ensures Apply(h, k, s).End? ==> k == HeaderMark && s == "END"
  {
    if IsText(k) {
      assert Apply(h, k, s) == ApplyText(h, k, s);
    } else if NumberIn(s).Field? {
      assert Apply(h, k, s) == ApplyNumber(h, k, NumberIn(s).value);
    }
  }

  lemma {:induction false} DispatchKeepsFormat(h: Hdr, line: bytes, keys: seq<Keyword>)
    requires !ValStr(line, NameOf(FormatName)).Field?
    ensures var r := Dispatch(h, line, keys); !r.Exit? ==> r.h.plain == h.plain
    ensures Dispatch(h, line, keys).End? ==> EndsHeader(line)
    decreases |keys|
  {
    if keys != [] {
      match ValStr(line, NameOf(keys[0]))
      case Fatal =>
      case NoField => DispatchKeepsFormat(h, line, keys[1..]);
      case Field(s) => ApplyKeepsFormat(h, keys[0], s);
    }
  }

  /** What a chunk does to the format and to the end of the header, for any state. */
  lemma ChunkFormat(h: Hdr, chunk: bytes)
    ensures var r, v := ApplyLine(h, chunk), ValStr(chunk, NameOf(FormatName));
            if v.Field? then r.Exit? || (r.Next? && r.h.plain == (v.value == "print"))
            else r.Exit? || (r.h.plain == h.plain && (r.End? <==> EndsHeader(chunk)))
  {
    hide ValStr, Dispatch;
    if ValStr(chunk, NameOf(FormatName)).Field? {
      assert KEYWORDS[2] == FormatName && FormatName !in KEYWORDS[..2];
      FieldApplies(h, chunk, 2, FormatName);
    } else {
      DispatchKeepsFormat(h, chunk, KEYWORDS);
      if EndsHeader(chunk) {
        assert KEYWORDS[19] == HeaderMark && HeaderMark !in KEYWORDS[..19];
        FieldApplies(h, chunk, 19, HeaderMark);
      }
    }
  }

  /** From any two states that agree so far: a named format is the same afterwards, any other is each one's own. */
  lemma {:induction false} ParseFormat(a: Hdr, b: Hdr, s: bytes, cap: nat)
    requires cap >= 2 && SameSoFar(a, b) && ParseHeader(a, s, cap).HdrOk?
    ensures var ra, rb := ParseHeader(a, s, cap), ParseHeader(b, s, cap);
            && rb.HdrOk?
            && (if NamesFormat(s, cap) || a.plain == b.plain then ra.h.plain == rb.h.plain
                else ra.h.plain == a.plain && rb.h.plain == b.plain)
    ensures !NamesFormat(s, cap) ==> ParseHeader(a, s, cap).h.plain == a.plain
    decreases |s|
  {
    var k := FgetsLen(s, cap);
    ChunkFormat(a, s[..k]);
    ChunkFormat(b, s[..k]);
    DispatchSame(a, b, s[..k], KEYWORDS);
    hide ValStr, EndsHeader, Dispatch;
    if ApplyLine(a, s[..k]).Next? {
      ParseFormat(ApplyLine(a, s[..k]).h, ApplyLine(b, s[..k]).h, s[k..], cap);
    }
  }

  /**
   * The format depends on the header alone if and only if the header names it: read behind tables of
   * different formats, a header that names none leaves each its own.
   */
  lemma FormatFromHeaderIff(a: Hdr, b: Hdr, s: bytes, cap: nat)
    requires cap >= 2 && a.global == b.global && ReadHeader(a, s, cap).HdrOk?
    ensures var ra, rb := ReadHeader(a, s, cap), ReadHeader(b, s, cap);
            && rb.HdrOk?
            && (ra.h.plain == rb.h.plain <==> NamesFormat(s, cap) || a.plain == b.plain)
            && (!NamesFormat(s, cap) ==> ra.h.plain == a.plain && rb.h.plain == b.plain)
  {
    ParseSame(Reset(a), Reset(b), s, cap);
    ParseFormat(Reset(a), Reset(b), s, cap);
    ParseFormat(Reset(b), Reset(a), s, cap);
  }

  /** A line in front that is not the end mark. */
  lemma FrontLine(line: bytes, rest: bytes, cap: nat)
    requires NoNewline(line) && 0 < |line| < cap - 1 && line[0] != 'H' && NamesFormat(rest, cap)
    ensures NamesFormat(line + [NL] + rest, cap)
  {
    var s := line + [NL] + rest;
    LineLenAppend(line, rest);
    assert FgetsLen(s, cap) == |line| + 1;
    assert s[..|line| + 1] == line + [NL] && s[|line| + 1..] == rest;
    assert (line + [NL])[0] != 'H';
  }

  lemma FormatLine(line: bytes, rest: bytes, cap: nat)
    requires cap >= 128 && (line == FORMAT_PRINT || line == FORMAT_BYTEVALUE)
    ensures NamesFormat(line + [NL] + rest, cap)
  {
    var s, item := line + [NL] + rest, NameOf(FormatName);
    LineLenAppend(line, rest);
    assert FgetsLen(s, cap) == |line| + 1;
    var chunk := line + [NL];
    assert s[..|line| + 1] == chunk;
    assert line[..6] == item && line[6] == '=';
    assert chunk[..6] == item && chunk[6] == '=';
  }

  lemma {:induction false} FrontLines(lines: seq<bytes>, more: bytes, cap: nat)
    requires cap >= 128 && Fit(lines, 127) && NamesFormat(more, cap)
    requires forall i :: 0 <= i < |lines| ==> lines[i] != [] && lines[i][0] != 'H'
    ensures NamesFormat(Text(lines) + more, cap)
    decreases |lines|
  {
    hide NamesFormat;
    if lines == [] {
      assert Text(lines) + more == more;
    } else {
      FrontLines(lines[1..], more, cap);
      FrontLine(lines[0], Text(lines[1..]) + more, cap);
      Assoc(lines[0] + [NL], Text(lines[1..]), more);
    }
  }

  lemma {:induction false} TextAppend(a: seq<bytes>, b: seq<bytes>)
    ensures Text(a + b) == Text(a) + Text(b)
    decreases |a|
  {
    if a == [] {
      assert a + b == b;
    } else {
      assert (a + b)[1..] == a[1..] + b;
      TextAppend(a[1..], b);
    }
  }

  /** Every header that is printed names it, whatever the table's name, so only other dumps are concerned. */
  lemma PrintedHeaderNamesFormat(env: EnvInfo, global: bool, f: Format, name: Option<bytes>, flags: set<Flag>,
                                 sequence: nat, rest: bytes, cap: nat)
    requires EnvOk(env) && cap >= 128
    ensures NamesFormat(HeaderText(env, global, f, name, flags, sequence) + rest, cap)
  {
    hide NamesFormat, GlobalLines, FlagLines, Dec;
    var front := [VERSION3] + if global then GlobalLines(env) else [];
    var format := if f.Print? then FORMAT_PRINT else FORMAT_BYTEVALUE;
    var lines := HeaderLines(env, global, f, name, flags, sequence);
    GlobalLinesShort(env);
    assert Fit([VERSION3], 127) && VERSION3[0] != 'H';
    var back := lines[|front| + 1..];
    assert lines == front + ([format] + back);
    TextAppend(front, [format] + back);
    assert ([format] + back)[1..] == back;
    var more := Text(back) + (HEADER_END + [NL]) + rest;
    FormatLine(format, more, cap);
    FrontLines(front, format + [NL] + more, cap);
    FormatTextIs(front, format, back, rest);
  }

  lemma FormatTextIs(front: seq<bytes>, format: bytes, back: seq<bytes>, rest: bytes)
    ensures Text(front) + Text([format] + back) + (HEADER_END + [NL]) + rest
         == Text(front) + (format + [NL] + (Text(back) + (HEADER_END + [NL]) + rest))
  {
    assert ([format] + back)[1..] == back;
    assert Text([format] + back) == format + [NL] + Text(back);
    hide Text;
    var a, b, c, d := Text(front), format + [NL], Text(back), HEADER_END + [NL];
    assert a + (b + c) + d + rest == a + (b + (c + d + rest));
  }

  /** A header that names none: the format of the table before it is kept. */
  lemma FormatLeaks()
    ensures var s := HEADER_END + [NL];
            var a := INITIAL;
            var b := INITIAL.(plain := true);
            var ra, rb := ReadHeader(a, s, LINE_BUFFER), ReadHeader(b, s, LINE_BUFFER);
            && !NamesFormat(s, LINE_BUFFER)
            && ra.HdrOk? && rb.HdrOk? && ra.h.plain != rb.h.plain
  {
    var s := HEADER_END + [NL];
    assert s == HEADER_END + [NL] + [];
    EndPrinted(Reset(INITIAL));
    EndPrinted(Reset(INITIAL.(plain := true)));
    OneLine(Reset(INITIAL), HEADER_END, [], LINE_BUFFER);
    OneLine(Reset(INITIAL.(plain := true)), HEADER_END, [], LINE_BUFFER);
    FormatFromHeaderIff(INITIAL, INITIAL.(plain := true), s, LINE_BUFFER);
  }

  // ---------------------------------------------------------------- geometry and canary

  /**
   * Of the global values the geometry comes back exactly when its bounds differ, and the canary exactly
   * when its v is not 0, unless the values were there before: the other lines are not printed at all.
   */
  lemma GlobalValuesComeBackIff(h: Hdr, env: EnvInfo, f: Format, name: Option<bytes>, flags: set<Flag>,
                                sequence: nat, rest: bytes, cap: nat)
    requires EnvOk(env) && sequence < U64 && NameOk(name) && cap >= 128 && h.global
    requires name.Some? ==> |DATABASE| + |name.value| <= cap - 1
    ensures var r := ReadHeader(h, HeaderText(env, true, f, name, flags, sequence) + rest, cap);
            var geo := Geo(env.lower, env.upper, env.shrink, env.grow, U64 - 1);
            && r.HdrOk?
            && (r.h.geo == geo <==> env.upper != env.lower || h.geo == geo)
            && (r.h.canary == env.canary <==> env.canary.v != 0 || h.canary == env.canary)
            && (r.h.mapsize == env.upper <==> MIN_MAPSIZE <= env.upper <= MAX_MAPSIZE || h.mapsize == env.upper)
  {
    hide HeaderText, ReadHeader;
    HeaderRoundTrip(h, env, true, f, name, flags, sequence, rest, cap);
  }
}
