/** Reading a printed header gives back what was printed. */
module HeaderProofs {
  import opened Bytes
  import opened Codec
  import opened Numbers
  import opened Stdio
  import opened Header

  // ---------------------------------------------------------------- finding the keyword

  lemma Miss(line: bytes, item: bytes, i: nat)
    requires i < |item| && i < |line| && line[i] != item[i]
    ensures ValStr(line, item) == NoField
  {
    assert !(item <= line);
  }

  /** A keyword with its value on a whole line. */
  lemma Hit(item: bytes, text: bytes)
    requires NoNewline(text)
    ensures ValStr(item + ['='] + text + [NL], item) == Field(text)
  {
    var line := item + ['='] + text + [NL];
    assert line[..|item|] == item && line[|item|] == '=';
    var t := line[|item| + 1..];
    LineLenAppend(text, []);
    assert t == text + [NL] + [] && t[..|text|] == text;
  }

  /** Characters 0, 1, 3 and 7 of a keyword; the last only where it is needed to tell two apart. */
  function Sig(k: Keyword): (char, char, char, char) {
    match k
    case Version => ('V', 'E', 'S', '-')
    case PageSize => ('d', 'b', 'p', '-')
    case FormatName => ('f', 'o', 'm', '-')
    case Database => ('d', 'a', 'a', '-')
    case TreeType => ('t', 'y', 'e', '-')
    case MapAddr => ('m', 'a', 'a', '-')
    case MapSize => ('m', 'a', 's', '-')
    case MaxReaders => ('m', 'a', 'r', '-')
    case TxnId => ('t', 'x', 'i', '-')
    case SequenceNo => ('s', 'e', 'u', '-')
    case Geometry => ('g', 'e', 'm', '-')
    case CanaryValues => ('c', 'a', 'a', '-')
    case Duplicates => ('d', 'u', 'l', '-')
    case FlagBit(ReverseKey) => ('r', 'e', 'e', 'k')
    case FlagBit(DupSort) => ('d', 'u', 's', '-')
    case FlagBit(IntegerKey) => ('i', 'n', 'e', 'k')
    case FlagBit(DupFixed) => ('d', 'u', 'f', '-')
    case FlagBit(IntegerDup) => ('i', 'n', 'e', 'd')
    case FlagBit(ReverseDup) => ('r', 'e', 'e', 'd')
    case HeaderMark => ('H', 'E', 'D', '-')
  }

  lemma Spelling(k: Keyword)
    ensures var n := NameOf(k);
            && |n| >= 4 && n[0] == Sig(k).0 && n[1] == Sig(k).1 && n[3] == Sig(k).2
            && (Sig(k).3 != '-' ==> |n| == 10 && n[7] == Sig(k).3)
  {
  }

  lemma SigsDiffer(a: Keyword, b: Keyword)
    requires a != b
    ensures var s, t := Sig(a), Sig(b);
            s.0 != t.0 || s.1 != t.1 || s.2 != t.2 || (s.3 != '-' && t.3 != '-' && s.3 != t.3)
  {
  }

  /** No keyword is a prefix of another. */
  lemma KeywordsApart(a: Keyword, b: Keyword) returns (p: nat)
    requires a != b
    ensures p < |NameOf(a)| && p < |NameOf(b)| && NameOf(a)[p] != NameOf(b)[p]
  {
    Spelling(a);
    Spelling(b);
    SigsDiffer(a, b);
    p := if Sig(a).0 != Sig(b).0 then 0 else if Sig(a).1 != Sig(b).1 then 1 else if Sig(a).2 != Sig(b).2 then 3 else 7;
  }

  lemma {:induction false} SkipTo(h: Hdr, line: bytes, front: seq<Keyword>, k: Keyword, back: seq<Keyword>)
    requires NameOf(k) <= line && k !in front
    ensures Dispatch(h, line, front + [k] + back) == Dispatch(h, line, [k] + back)
    decreases |front|
  {
    if front == [] {
      assert front + [k] + back == [k] + back;
    } else {
      var a := front[0];
      var p := KeywordsApart(a, k);
      assert line[p] == NameOf(k)[p];
      Miss(line, NameOf(a), p);
      assert (front + [k] + back)[1..] == front[1..] + [k] + back;
      SkipTo(h, line, front[1..], k, back);
    }
  }

  /** A line made of a keyword and a value has exactly that keyword's effect. */
  lemma KeywordLine(h: Hdr, at: nat, k: Keyword, text: bytes)
    requires at < |KEYWORDS| && KEYWORDS[at] == k && k !in KEYWORDS[..at] && NoNewline(text)
    ensures ApplyLine(h, NameOf(k) + ['='] + text + [NL]) == Apply(h, k, text)
  {
    var line := NameOf(k) + ['='] + text + [NL];
    assert line[..|NameOf(k)|] == NameOf(k);
    var back := KEYWORDS[at + 1..];
    assert KEYWORDS == KEYWORDS[..at] + [k] + back;
    SkipTo(h, line, KEYWORDS[..at], k, back);
    Hit(NameOf(k), text);
    assert ([k] + back)[0] == k;
  }

  lemma NumberLine(h: Hdr, at: nat, k: Keyword, n: nat)
    requires at < |KEYWORDS| && KEYWORDS[at] == k && k !in KEYWORDS[..at] && n < U64 && !IsText(k)
    ensures ApplyLine(h, NameOf(k) + ['='] + Dec(n) + [NL]) == ApplyNumber(h, k, n)
  {
    NoNewlineIn(n);
    KeywordLine(h, at, k, Dec(n));
    StrToULLDec(n);
  }

  // ---------------------------------------------------------------- geometry and canary

  lemma Tagged(tag: bytes, n: nat, rest: bytes)
    requires n < U64 && (rest == [] || !IsDigit(rest[0]))
    ensures ScanTagged(tag, Some(tag + (Dec(n) + rest))) == Some((n, rest))
  {
    assert (tag + (Dec(n) + rest))[|tag|..] == Dec(n) + rest;
    ScanU64Dec(n, rest);
  }

  lemma GeometryScanned(env: EnvInfo)
    requires EnvOk(env)
    ensures ScanGeo4(GeometryText(env)) == Some(Geo(env.lower, env.upper, env.shrink, env.grow, U64 - 1))
  {
    var g := T_G + Dec(env.grow);
    var r := T_S + (Dec(env.shrink) + g);
    var u := T_U + (Dec(env.upper) + r);
    assert Dec(env.grow) + [] == Dec(env.grow);
    Tagged(T_G, env.grow, []);
    Tagged(T_S, env.shrink, g);
    Tagged(T_U, env.upper, r);
    Tagged(T_L, env.lower, u);
  }

  lemma CanaryScanned(c: Canary)
    requires c.v < U64 && c.x < U64 && c.y < U64 && c.z < U64
    ensures ScanCanary(CanaryText(c)) == Some(c)
  {
    var z := T_Z + Dec(c.z);
    var y := T_Y + (Dec(c.y) + z);
    var x := T_X + (Dec(c.x) + y);
    assert Dec(c.z) + [] == Dec(c.z);
    Tagged(T_Z, c.z, []);
    Tagged(T_Y, c.y, z);
    Tagged(T_X, c.x, y);
    Tagged(T_V, c.v, x);
  }

  lemma NoNewlineIn(n: nat)
    ensures forall i :: 0 <= i < |Dec(n)| ==> Dec(n)[i] != NL
  {
    DecIsDigits(n);
    forall i | 0 <= i < |Dec(n)| ensures Dec(n)[i] != NL { assert IsDigit(Dec(n)[i]); }
  }

  predicate NoNewline(s: bytes) { forall i :: 0 <= i < |s| ==> s[i] != NL }

  lemma FourNoNewline(t1: bytes, n1: nat, t2: bytes, n2: nat, t3: bytes, n3: nat, t4: bytes, n4: nat)
    requires NoNewline(t1) && NoNewline(t2) && NoNewline(t3) && NoNewline(t4)
    ensures NoNewline(t1 + (Dec(n1) + (t2 + (Dec(n2) + (t3 + (Dec(n3) + (t4 + Dec(n4))))))))
  {
    NoNewlineIn(n1);
    NoNewlineIn(n2);
    NoNewlineIn(n3);
    NoNewlineIn(n4);
  }

  // ---------------------------------------------------------------- every printed line

  lemma GeometryPrinted(h: Hdr, env: EnvInfo)
    requires EnvOk(env) && h.global
    ensures ApplyLine(h, GEOMETRY + GeometryText(env) + [NL])
         == Next(h.(geo := Geo(env.lower, env.upper, env.shrink, env.grow, U64 - 1)))
  {
    FourNoNewline(T_L, env.lower, T_U, env.upper, T_S, env.shrink, T_G, env.grow);
    assert GEOMETRY == NameOf(Geometry) + ['='];
    KeywordLine(h, 10, Geometry, GeometryText(env));
    GeometryScanned(env);
  }

  lemma CanaryPrinted(h: Hdr, c: Canary)
    requires c.v < U64 && c.x < U64 && c.y < U64 && c.z < U64 && h.global
    ensures ApplyLine(h, CANARY + CanaryText(c) + [NL]) == Next(h.(canary := c))
  {
    FourNoNewline(T_V, c.v, T_X, c.x, T_Y, c.y, T_Z, c.z);
    assert CANARY == NameOf(CanaryValues) + ['='];
    KeywordLine(h, 11, CanaryValues, CanaryText(c));
    CanaryScanned(c);
  }

  lemma VersionPrinted(h: Hdr)
    ensures ApplyLine(h, VERSION3 + [NL]) == Next(h)
  {
    assert Dec(3) == "3";
    assert VERSION3 == NameOf(Version) + ['='] + Dec(3);
    NumberLine(h, 0, Version, 3);
  }

  lemma FormatPrinted(h: Hdr, f: Format)
    ensures ApplyLine(h, (if f.Print? then FORMAT_PRINT else FORMAT_BYTEVALUE) + [NL]) == Next(h.(plain := f.Print?))
  {
    var text: bytes := if f.Print? then "print" else "bytevalue";
    assert (if f.Print? then FORMAT_PRINT else FORMAT_BYTEVALUE) == NameOf(FormatName) + ['='] + text;
    KeywordLine(h, 2, FormatName, text);
  }

  lemma DatabasePrinted(h: Hdr, name: bytes)
    requires name != [] && NoNewline(name)
    ensures ApplyLine(h, DATABASE + name + [NL]) == Next(h.(name := Some(name)))
  {
    assert DATABASE == NameOf(Database) + ['='];
    KeywordLine(h, 3, Database, name);
  }

  lemma TypePrinted(h: Hdr)
    ensures ApplyLine(h, TYPE_BTREE + [NL]) == Next(h)
  {
    var text: bytes := "btree";
    assert TYPE_BTREE == NameOf(TreeType) + ['='] + text;
    KeywordLine(h, 4, TreeType, text);
  }

  lemma PagesizePrinted(h: Hdr, n: nat)
    requires MIN_PAGESIZE <= n <= MAX_PAGESIZE && (h.global || h.pagesize == n)
    ensures ApplyLine(h, PAGESIZE + Dec(n) + [NL]) == Next(h.(pagesize := n))
  {
    assert PAGESIZE == NameOf(PageSize) + ['='];
    NumberLine(h, 1, PageSize, n);
  }

  lemma MapsizePrinted(h: Hdr, n: nat)
    requires n < U64
    ensures ApplyLine(h, MAPSIZE + Dec(n) + [NL])
         == Next(if h.global && MIN_MAPSIZE <= n <= MAX_MAPSIZE then h.(mapsize := n) else h)
  {
    assert MAPSIZE == NameOf(MapSize) + ['='];
    NumberLine(h, 6, MapSize, n);
  }

  lemma SequencePrinted(h: Hdr, n: nat)
    requires n < U64
    ensures ApplyLine(h, SEQUENCE + Dec(n) + [NL]) == Next(h.(sequence := n))
  {
    assert SEQUENCE == NameOf(SequenceNo) + ['='];
    NumberLine(h, 9, SequenceNo, n);
  }

  lemma EndPrinted(h: Hdr)
    ensures ApplyLine(h, HEADER_END + [NL]) == End(h)
  {
    var text: bytes := "END";
    assert HEADER_END == NameOf(HeaderMark) + ['='] + text;
    KeywordLine(h, 19, HeaderMark, text);
  }

  lemma DuplicatesPrinted(h: Hdr, on: bool)
    ensures ApplyLine(h, (if on then DUPLICATES1 else DUPLICATES0) + [NL]) == Next(SetFlag(h, DupSort, on))
  {
    var n := if on then 1 else 0;
    assert Dec(1) == "1" && Dec(0) == "0";
    assert (if on then DUPLICATES1 else DUPLICATES0) == NameOf(Duplicates) + ['='] + Dec(n);
    NumberLine(h, 13, Duplicates, n);
  }

  /** Where the loader's list has a flag. */
  function FlagPlace(b: Flag): nat {
    match b
    case ReverseKey => 12
    case DupSort => 14
    case IntegerKey => 15
    case DupFixed => 16
    case IntegerDup => 17
    case ReverseDup => 18
  }

  lemma FlagPlaces(b: Flag)
    ensures KEYWORDS[FlagPlace(b)] == FlagBit(b) && FlagBit(b) !in KEYWORDS[..FlagPlace(b)]
  {
  }

  lemma FlagPrinted(h: Hdr, b: Flag)
    ensures ApplyLine(h, NameOf(FlagBit(b)) + ON + [NL]) == Next(SetFlag(h, b, true))
  {
    assert Dec(1) == "1";
    assert NameOf(FlagBit(b)) + ON == NameOf(FlagBit(b)) + ['='] + Dec(1);
    FlagPlaces(b);
    NumberLine(h, FlagPlace(b), FlagBit(b), 1);
  }

  /** The flags that the printer's table names. */
  function Named(flags: set<Flag>, table: seq<Flag>): set<Flag> {
    if table == [] then {} else (if table[0] in flags then {table[0]} else {}) + Named(flags, table[1..])
  }

  lemma {:induction false} FlagsRun(h: Hdr, flags: set<Flag>, table: seq<Flag>)
    ensures Runs(ApplyLine, h, FlagLines(flags, table), h.(flags := h.flags + Named(flags, table)))
    decreases |table|
  {
    if table == [] {
      assert h.flags + {} == h.flags;
    } else {
      var b := table[0];
      var h1 := if b in flags then SetFlag(h, b, true) else h;
      var line := if b in flags then [NameOf(FlagBit(b)) + ON] else [];
      if b in flags {
        FlagPrinted(h, b);
        RunsOne(ApplyLine, h, NameOf(FlagBit(b)) + ON, h1);
      }
      FlagsRun(h1, flags, table[1..]);
      assert h1.flags + Named(flags, table[1..]) == h.flags + Named(flags, table);
      RunsAppend(ApplyLine, h, line, h1, FlagLines(flags, table[1..]), h.(flags := h.flags + Named(flags, table)));
    }
  }

  lemma {:induction false} NamedIs(flags: set<Flag>, table: seq<Flag>)
    ensures Named(flags, table) == set b | b in table && b in flags
  {
    if table != [] {
      NamedIs(flags, table[1..]);
      assert table == [table[0]] + table[1..];
    }
  }

  lemma AllFlags(flags: set<Flag>)
    ensures Named(flags, DUMP_FLAGS) == flags
  {
    NamedIs(flags, DUMP_FLAGS);
    forall b: Flag ensures b in DUMP_FLAGS {
      match b
      case ReverseKey => assert DUMP_FLAGS[0] == b;
      case DupSort => assert DUMP_FLAGS[1] == b;
      case IntegerKey => assert DUMP_FLAGS[2] == b;
      case DupFixed => assert DUMP_FLAGS[3] == b;
      case IntegerDup => assert DUMP_FLAGS[4] == b;
      case ReverseDup => assert DUMP_FLAGS[5] == b;
    }
  }

  // ---------------------------------------------------------------- the whole header

  lemma MaybeOne(h: Hdr, on: bool, line: bytes, h': Hdr)
    requires if on then ApplyLine(h, line + [NL]) == Next(h') else h' == h
    ensures Runs(ApplyLine, h, if on then [line] else [], h')
  {
    if on { RunsOne(ApplyLine, h, line, h'); }
  }

  lemma GlobalRuns(h: Hdr, env: EnvInfo)
    requires EnvOk(env) && h.global
    ensures Runs(ApplyLine, h, GlobalLines(env), LoadedGlobal(h, env))
  {
    var h1 := if env.upper != env.lower
              then h.(geo := Geo(env.lower, env.upper, env.shrink, env.grow, U64 - 1)) else h;
    var h2 := if MIN_MAPSIZE <= env.upper <= MAX_MAPSIZE then h1.(mapsize := env.upper) else h1;
    var h3 := LoadedGlobal(h, env);
    GeometryPrinted(h, env);
    MapsizePrinted(h1, env.upper);
    CanaryPrinted(h2, env.canary);
    MaybeOne(h, env.upper != env.lower, GEOMETRY + GeometryText(env), h1);
    MaybeOne(h1, true, MAPSIZE + Dec(env.upper), h2);
    MaybeOne(h2, env.canary.v != 0, CANARY + CanaryText(env.canary), h3);
    RunsAppend(ApplyLine, h1, [MAPSIZE + Dec(env.upper)], h2,
               if env.canary.v != 0 then [CANARY + CanaryText(env.canary)] else [], h3);
    RunsAppend(ApplyLine, h, if env.upper != env.lower then [GEOMETRY + GeometryText(env)] else [], h1,
               [MAPSIZE + Dec(env.upper)] + (if env.canary.v != 0 then [CANARY + CanaryText(env.canary)] else []), h3);
  }

  ghost predicate NameOk(name: Option<bytes>) {
    name.Some? ==> name.value != [] && NoNewline(name.value) && NulFree(name.value)
  }

  /** The lines behind the flags and in front of them, from the end of the header backwards. */
  lemma TailRuns(h: Hdr, env: EnvInfo, flags: set<Flag>, sequence: nat)
    requires EnvOk(env) && sequence < U64 && h.flags == {} && h.sequence == 0 && h.pagesize == env.pagesize
    ensures Runs(ApplyLine, h,
                 [if HasDuplicates(flags) then DUPLICATES1 else DUPLICATES0]
                 + (FlagLines(flags, DUMP_FLAGS) + (if sequence != 0 then [SEQUENCE + Dec(sequence)] else [])),
                 h.(flags := Closed(flags), sequence := sequence))
  {
    var h1 := SetFlag(h, DupSort, HasDuplicates(flags));
    var h2 := h1.(flags := h1.flags + Named(flags, DUMP_FLAGS));
    var h3 := h2.(sequence := sequence);
    AllFlags(flags);
    assert h2.flags == Closed(flags);
    var dup := if HasDuplicates(flags) then DUPLICATES1 else DUPLICATES0;
    var seqno := if sequence != 0 then [SEQUENCE + Dec(sequence)] else [];
    DuplicatesPrinted(h, HasDuplicates(flags));
    RunsOne(ApplyLine, h, dup, h1);
    FlagsRun(h1, flags, DUMP_FLAGS);
    SequencePrinted(h2, sequence);
    MaybeOne(h2, sequence != 0, SEQUENCE + Dec(sequence), h3);
    RunsAppend(ApplyLine, h1, FlagLines(flags, DUMP_FLAGS), h2, seqno, h3);
    RunsAppend(ApplyLine, h, [dup], h1, FlagLines(flags, DUMP_FLAGS) + seqno, h3);
  }

  /** The lines from the name on. */
  function NamedLines(env: EnvInfo, name: Option<bytes>, flags: set<Flag>, sequence: nat): seq<bytes> {
    (if name.Some? then [DATABASE + name.value] else [])
    + ([TYPE_BTREE]
    + ([PAGESIZE + Dec(env.pagesize)]
    + ([if HasDuplicates(flags) then DUPLICATES1 else DUPLICATES0]
    + (FlagLines(flags, DUMP_FLAGS) + (if sequence != 0 then [SEQUENCE + Dec(sequence)] else [])))))
  }

  lemma NamedRuns(h: Hdr, env: EnvInfo, name: Option<bytes>, flags: set<Flag>, sequence: nat)
    requires EnvOk(env) && sequence < U64 && NameOk(name)
    requires h.name == None && h.flags == {} && h.sequence == 0 && (h.global || h.pagesize == env.pagesize)
    ensures Runs(ApplyLine, h, NamedLines(env, name, flags, sequence),
                 h.(name := name, pagesize := env.pagesize, flags := Closed(flags), sequence := sequence))
  {
    if name.Some? { DatabasePrinted(h, name.value); }
    hide Dispatch, Dec, FlagLines, NameOk;
    var h3 := h.(name := name);
    var h4 := h3.(pagesize := env.pagesize);
    var h5 := h4.(flags := Closed(flags), sequence := sequence);
    var nl := if name.Some? then [DATABASE + name.value] else [];
    var tail := [if HasDuplicates(flags) then DUPLICATES1 else DUPLICATES0]
                + (FlagLines(flags, DUMP_FLAGS) + (if sequence != 0 then [SEQUENCE + Dec(sequence)] else []));
    var t1 := [PAGESIZE + Dec(env.pagesize)] + tail;
    TailRuns(h4, env, flags, sequence);
    PagesizePrinted(h3, env.pagesize);
    RunsOne(ApplyLine, h3, PAGESIZE + Dec(env.pagesize), h4);
    RunsAppend(ApplyLine, h3, [PAGESIZE + Dec(env.pagesize)], h4, tail, h5);
    TypePrinted(h3);
    RunsOne(ApplyLine, h3, TYPE_BTREE, h3);
    RunsAppend(ApplyLine, h3, [TYPE_BTREE], h3, t1, h5);
    if name.Some? { RunsOne(ApplyLine, h, DATABASE + name.value, h3); }
    RunsAppend(ApplyLine, h, nl, h3, [TYPE_BTREE] + t1, h5);
  }

  lemma HeaderRuns(h: Hdr, env: EnvInfo, global: bool, f: Format, name: Option<bytes>, flags: set<Flag>, sequence: nat)
    requires EnvOk(env) && sequence < U64 && NameOk(name)
    requires h.global == global && (global || h.pagesize == env.pagesize)
    ensures Runs(ApplyLine, Reset(h), HeaderLines(env, global, f, name, flags, sequence),
                 Loaded(h, env, global, f, name, flags, sequence))
  {
    hide Dispatch, Dec, GlobalLines, FlagLines, NameOk;
    var h0 := Reset(h);
    var h1 := if global then LoadedGlobal(h0, env) else h0;
    var h2 := h1.(plain := f.Print?);
    var h5 := Loaded(h, env, global, f, name, flags, sequence);
    var gl := if global then GlobalLines(env) else [];
    var fl := if f.Print? then FORMAT_PRINT else FORMAT_BYTEVALUE;
    var named := NamedLines(env, name, flags, sequence);
    NamedRuns(h2, env, name, flags, sequence);
    FormatPrinted(h1, f);
    RunsOne(ApplyLine, h1, fl, h2);
    RunsAppend(ApplyLine, h1, [fl], h2, named, h5);
    if global { GlobalRuns(h0, env); }
    RunsAppend(ApplyLine, h0, gl, h1, [fl] + named, h5);
    VersionPrinted(h0);
    RunsOne(ApplyLine, h0, VERSION3, h0);
    RunsAppend(ApplyLine, h0, [VERSION3], h0, gl + ([fl] + named), h5);
  }

  // ---------------------------------------------------------------- lines and chunks

  /** A trailing newline changes nothing for the keyword readers. */
  lemma NewlineIgnored(line: bytes, item: bytes)
    requires NoNewline(line) && NoNewline(item)
    ensures ValStr(line + [NL], item) == ValStr(line, item)
  {
    if item <= line {
      assert item <= line + [NL];
      if |line| > |item| && line[|item|] == '=' {
        var t := line[|item| + 1..];
        assert (line + [NL])[|item| + 1..] == t + [NL] + [];
        LineLenAppend(t, []);
        LineLenUnique(t, |t|);
        assert t + [NL] + [] == t + [NL];
        assert (t + [NL])[..|t|] == t && t[..|t|] == t;
      }
    } else if |item| <= |line| {
      assert (line + [NL])[..|item|] == line[..|item|];
    } else {
      assert |item| > |line| + 1 || item[|line|] != (line + [NL])[|line|];
    }
  }

  lemma NamesHaveNoNewline(k: Keyword)
    ensures NoNewline(NameOf(k))
  {
  }

  lemma {:induction false} DispatchIgnoresNewline(h: Hdr, line: bytes, keys: seq<Keyword>)
    requires NoNewline(line)
    ensures Dispatch(h, line + [NL], keys) == Dispatch(h, line, keys)
    decreases |keys|
  {
    if keys != [] {
      NamesHaveNoNewline(keys[0]);
      NewlineIgnored(line, NameOf(keys[0]));
      DispatchIgnoresNewline(h, line, keys[1..]);
    }
  }

  lemma {:induction false} BlankDispatch(h: Hdr, keys: seq<Keyword>)
    ensures Dispatch(h, [NL], keys) == Next(h)
    decreases |keys|
  {
    if keys != [] {
      Spelling(keys[0]);
      assert !(NameOf(keys[0]) <= [NL]);
      BlankDispatch(h, keys[1..]);
    }
  }

  /** A line that fits the buffer, if only without its newline, has the effect of the whole line. */
  lemma OneLine(h: Hdr, line: bytes, rest: bytes, cap: nat)
    requires NoNewline(line) && |line| <= cap - 1 && cap >= 2
    ensures ApplyLine(h, line + [NL]).Next? ==>
              ParseHeader(h, line + [NL] + rest, cap) == ParseHeader(ApplyLine(h, line + [NL]).h, rest, cap)
    ensures |line| < cap - 1 && ApplyLine(h, line + [NL]).End? ==>
              ParseHeader(h, line + [NL] + rest, cap) == HdrOk(ApplyLine(h, line + [NL]).h, rest)
  {
    var s := line + [NL] + rest;
    LineLenAppend(line, rest);
    if |line| < cap - 1 {
      assert FgetsLen(s, cap) == |line| + 1;
      assert s[..|line| + 1] == line + [NL] && s[|line| + 1..] == rest;
    } else {
      assert FgetsLen(s, cap) == |line|;
      assert s[..|line|] == line && s[|line|..] == [NL] + rest;
      DispatchIgnoresNewline(h, line, KEYWORDS);
      if ApplyLine(h, line).Next? {
        var h' := ApplyLine(h, line).h;
        var t := [NL] + rest;
        LineLenAppend([], rest);
        assert [] + [NL] + rest == t;
        assert FgetsLen(t, cap) == 1 && t[..1] == [NL] && t[1..] == rest;
        BlankDispatch(h', KEYWORDS);
      }
    }
  }

  ghost predicate Fit(lines: seq<bytes>, cap: nat) {
    forall i :: 0 <= i < |lines| ==> NoNewline(lines[i]) && |lines[i]| <= cap - 1
  }

  lemma {:induction false} ParseLines(h: Hdr, lines: seq<bytes>, h': Hdr, rest: bytes, cap: nat)
    requires cap >= 2 && Fit(lines, cap) && Runs(ApplyLine, h, lines, h')
    ensures ParseHeader(h, Text(lines) + rest, cap) == ParseHeader(h', rest, cap)
    decreases |lines|
  {
    if lines == [] {
      assert Text(lines) + rest == rest;
    } else {
      var more := Text(lines[1..]) + rest;
      assert Text(lines) + rest == lines[0] + [NL] + more;
      OneLine(h, lines[0], more, cap);
      ParseLines(ApplyLine(h, lines[0] + [NL]).h, lines[1..], h', rest, cap);
    }
  }
}
