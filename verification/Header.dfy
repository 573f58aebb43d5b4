/** The header of a table in a dump: what dump_tbl() prints and what readhdr() makes of it. */
module Header {
  import opened Bytes
  import opened Codec
  import opened Numbers
  import opened Stdio

  datatype Flag = ReverseKey | DupSort | IntegerKey | DupFixed | IntegerDup | ReverseDup

  /** mdbx_load's geometry, where the current size is set to -1 when the dump does not name it. */
  datatype Geo = Geo(lower: nat, upper: nat, shrink: nat, grow: nat, current: nat)

  datatype Canary = Canary(v: nat, x: nat, y: nat, z: nat)

  /** The static variables that readhdr() fills. */
  datatype Hdr = Hdr(
    name: Option<bytes>, flags: set<Flag>, sequence: nat,
    plain: bool, global: bool,
    pagesize: nat, mapsize: nat, maxreaders: nat, geo: Geo, canary: Canary)

  const MIN_PAGESIZE: nat := 256
  const MAX_PAGESIZE: nat := 65536
  const MIN_MAPSIZE: nat := 256 * 3
  const MAX_MAPSIZE: nat := 0x8000_0000 * 65536
  const READERS_LIMIT: nat := 32767

  const INITIAL: Hdr :=
    Hdr(None, {}, 0, false, true, 0, 0, 0, Geo(0, 0, 0, 0, 0), Canary(0, 0, 0, 0))

  function FormatOf(h: Hdr): Format { if h.plain then Print else ByteValue }

  // ---------------------------------------------------------------- keyword readers

  /** The keyword does not match, the line is malformed and the program exits, or here is its value. */
  datatype Field<+T> = NoField | Fatal | Field(value: T)

  /** `c > ' '` for a signed char. */
  predicate AboveSpace(c: byte) { ' ' < c && c as int < 128 }

  /** valstr() */
  function ValStr(line: bytes, item: bytes): Field<bytes> {
    if !(item <= line) then NoField
    else if |line| == |item| then Fatal
    else if line[|item|] != '=' then (if AboveSpace(line[|item|]) then NoField else Fatal)
    else
      var t := line[|item| + 1..];
      Field(t[..LineLen(t)])
  }

  /** The rest of valnum(): the whole value must be a number. */
  function NumberIn(s: bytes): Field<nat> {
    if StrToULL(s).1 != [] then Fatal else Field(StrToULL(s).0)
  }

  // ---------------------------------------------------------------- sscanf()

  /** A literal followed by an unsigned number. */
  function ScanTagged(tag: bytes, s: Option<bytes>): Option<(nat, bytes)> {
    if s.None? || !(tag <= s.value) then None else ScanU64(s.value[|tag|..])
  }

  function Tail(r: Option<(nat, bytes)>): Option<bytes> {
    if r.None? then None else Some(r.value.1)
  }

  function ScanGeo4(s: bytes): Option<Geo> {
    var l := ScanTagged(T_L, Some(s));
    var u := ScanTagged(T_U, Tail(l));
    var r := ScanTagged(T_S, Tail(u));
    var g := ScanTagged(T_G, Tail(r));
    if g.None? then None else Some(Geo(l.value.0, u.value.0, r.value.0, g.value.0, U64 - 1))
  }

  function ScanGeo5(s: bytes): Option<Geo> {
    var l := ScanTagged(T_L, Some(s));
    var c := ScanTagged(T_C, Tail(l));
    var u := ScanTagged(T_U, Tail(c));
    var r := ScanTagged(T_S, Tail(u));
    var g := ScanTagged(T_G, Tail(r));
    if g.None? then None else Some(Geo(l.value.0, u.value.0, r.value.0, g.value.0, c.value.0))
  }

  function ScanCanary(s: bytes): Option<Canary> {
    var v := ScanTagged(T_V, Some(s));
    var x := ScanTagged(T_X, Tail(v));
    var y := ScanTagged(T_Y, Tail(x));
    var z := ScanTagged(T_Z, Tail(y));
    if z.None? then None else Some(Canary(v.value.0, x.value.0, y.value.0, z.value.0))
  }

  // ---------------------------------------------------------------- one line of a header

  datatype Step = Next(h: Hdr) | End(h: Hdr) | Exit

  datatype Keyword =
    | Version | PageSize | FormatName | Database | TreeType | MapAddr | MapSize | MaxReaders | TxnId
    | SequenceNo | Geometry | CanaryValues | Duplicates | FlagBit(bit: Flag) | HeaderMark

  function NameOf(k: Keyword): bytes {
    match k
    case Version => "VERSION"
    case PageSize => "db_pagesize"
    case FormatName => "format"
    case Database => "database"
    case TreeType => "type"
    case MapAddr => "mapaddr"
    case MapSize => "mapsize"
    case MaxReaders => "maxreaders"
    case TxnId => "txnid"
    case SequenceNo => "sequence"
    case Geometry => "geometry"
    case CanaryValues => "canary"
    case Duplicates => "duplicates"
    case FlagBit(ReverseKey) => "reversekey"
    case FlagBit(DupSort) => "dupsort"
    case FlagBit(IntegerKey) => "integerkey"
    case FlagBit(DupFixed) => "dupfix"
    case FlagBit(IntegerDup) => "integerdup"
    case FlagBit(ReverseDup) => "reversedup"
    case HeaderMark => "HEADER"
  }

  /** The keywords in the order in which readhdr() tries them, its table dbflags[] included. */
  const KEYWORDS: seq<Keyword> := [
    Version, PageSize, FormatName, Database, TreeType, MapAddr, MapSize, MaxReaders, TxnId, SequenceNo,
    Geometry, CanaryValues, FlagBit(ReverseKey), Duplicates, FlagBit(DupSort), FlagBit(IntegerKey),
    FlagBit(DupFixed), FlagBit(IntegerDup), FlagBit(ReverseDup), HeaderMark]

  function SetFlag(h: Hdr, bit: Flag, on: bool): Hdr {
    h.(flags := if on then h.flags + {bit} else h.flags - {bit})
  }

  /** The effect of a numeric keyword. */
  function ApplyNumber(h: Hdr, k: Keyword, n: nat): Step {
    match k
    case Version => if n == 3 then Next(h) else Exit
    case PageSize =>
      if !h.global && h.pagesize != n then Next(h)
      else if n < MIN_PAGESIZE || n > MAX_PAGESIZE then Next(h)
      else Next(h.(pagesize := n))
    case MapSize => Next(if h.global && MIN_MAPSIZE <= n <= MAX_MAPSIZE then h.(mapsize := n) else h)
    case MaxReaders => Next(if h.global && 1 <= n <= READERS_LIMIT then h.(maxreaders := n) else h)
    case SequenceNo => Next(h.(sequence := n))
    case Duplicates => if n > 1 then Exit else Next(SetFlag(h, DupSort, n != 0))
    case FlagBit(bit) => if n > 1 then Exit else Next(SetFlag(h, bit, n != 0))
    case _ => Next(h)
  }

  /** The effect of a keyword whose value is text. */
  function ApplyText(h: Hdr, k: Keyword, s: bytes): Step {
    match k
    case FormatName =>
      if s == "print" then Next(h.(plain := true))
      else if s == "bytevalue" then Next(h.(plain := false))
      else Exit
    case Database => Next(if s == [] then h else h.(name := Some(s)))
    case TreeType => if s == "btree" then Next(h) else Exit
    case Geometry =>
      if !h.global then Next(h)
      else if ScanGeo4(s).Some? then Next(h.(geo := ScanGeo4(s).value))
      else if ScanGeo5(s).Some? then Next(h.(geo := ScanGeo5(s).value))
      else Exit
    case CanaryValues =>
      if !h.global then Next(h)
      else if ScanCanary(s).Some? then Next(h.(canary := ScanCanary(s).value))
      else Exit
    case HeaderMark => if s == "END" then End(h) else Next(h)
    case _ => Next(h)
  }

  predicate IsText(k: Keyword) {
    k == FormatName || k == Database || k == TreeType || k == Geometry || k == CanaryValues || k == HeaderMark
  }

  function Apply(h: Hdr, k: Keyword, s: bytes): Step {
    if IsText(k) then ApplyText(h, k, s)
    else
      match NumberIn(s)
      case Field(n) => ApplyNumber(h, k, n)
      case _ => Exit
  }

  /** Tries the given keywords in turn; an unknown line is ignored. */
  function Dispatch(h: Hdr, line: bytes, keys: seq<Keyword>): Step {
    if keys == [] then Next(h)
    else
      match ValStr(line, NameOf(keys[0]))
      case Fatal => Exit
      case NoField => Dispatch(h, line, keys[1..])
      case Field(s) => Apply(h, keys[0], s)
  }

  /** The body of readhdr()'s loop. */
  function ApplyLine(h: Hdr, line: bytes): Step {
    Dispatch(h, line, KEYWORDS)
  }

  // ---------------------------------------------------------------- the whole header

  /** The capacity of the data buffer, into which header lines are read. */
  const LINE_BUFFER: nat := 4096

  datatype HdrResult = HdrOk(h: Hdr, rest: bytes) | HdrEof | HdrExit

  /** readhdr()'s loop on the text still to be read, with a line buffer of the given capacity. */
  function ParseHeader(h: Hdr, s: bytes, cap: nat): (r: HdrResult)
    requires cap >= 2
    ensures r.HdrOk? ==> |r.rest| < |s|
    decreases |s|
  {
    if s == [] then HdrEof
    else
      var k := FgetsLen(s, cap);
      match ApplyLine(h, s[..k])
      case Exit => HdrExit
      case End(h') => HdrOk(h', s[k..])
      case Next(h') => ParseHeader(h', s[k..], cap)
  }

  function Reset(h: Hdr): Hdr { h.(name := None, flags := {}, sequence := 0) }

  function ReadHeader(h: Hdr, s: bytes, cap: nat): (r: HdrResult)
    requires cap >= 2
    ensures r.HdrOk? ==> |r.rest| < |s|
  {
    ParseHeader(Reset(h), s, cap)
  }

  // ---------------------------------------------------------------- printing

  /** What dump_tbl() takes from the environment. */
  datatype EnvInfo = EnvInfo(lower: nat, upper: nat, shrink: nat, grow: nat, canary: Canary, pagesize: nat)

  ghost predicate EnvOk(env: EnvInfo) {
    && env.lower < U64 && env.upper < U64 && env.shrink < U64 && env.grow < U64
    && env.canary.v < U64 && env.canary.x < U64 && env.canary.y < U64 && env.canary.z < U64
    && MIN_PAGESIZE <= env.pagesize <= MAX_PAGESIZE
  }

  /** Pieces of printf() formats. */
  const VERSION3: bytes := "VERSION=3"
  const GEOMETRY: bytes := "geometry="
  const MAPSIZE: bytes := "mapsize="
  const CANARY: bytes := "canary="
  const FORMAT_PRINT: bytes := "format=print"
  const FORMAT_BYTEVALUE: bytes := "format=bytevalue"
  const DATABASE: bytes := "database="
  const TYPE_BTREE: bytes := "type=btree"
  const PAGESIZE: bytes := "db_pagesize="
  const DUPLICATES0: bytes := "duplicates=0"
  const DUPLICATES1: bytes := "duplicates=1"
  const SEQUENCE: bytes := "sequence="
  const HEADER_END: bytes := "HEADER=END"
  const ON: bytes := "=1"
  const T_L: bytes := "l"
  const T_U: bytes := ",u"
  const T_S: bytes := ",s"
  const T_G: bytes := ",g"
  const T_C: bytes := ",c"
  const T_V: bytes := "v"
  const T_X: bytes := ",x"
  const T_Y: bytes := ",y"
  const T_Z: bytes := ",z"

  function GeometryText(env: EnvInfo): bytes {
    T_L + (Dec(env.lower) + (T_U + (Dec(env.upper) + (T_S + (Dec(env.shrink) + (T_G + Dec(env.grow)))))))
  }

  function CanaryText(c: Canary): bytes {
    T_V + (Dec(c.v) + (T_X + (Dec(c.x) + (T_Y + (Dec(c.y) + (T_Z + Dec(c.z)))))))
  }

  /** The lines printed once, in front of the first table. */
  function GlobalLines(env: EnvInfo): seq<bytes> {
    (if env.upper != env.lower then [GEOMETRY + GeometryText(env)] else [])
    + ([MAPSIZE + Dec(env.upper)] + (if env.canary.v != 0 then [CANARY + CanaryText(env.canary)] else []))
  }

  /** dbflags[] of mdbx_dump.c */
  const DUMP_FLAGS: seq<Flag> := [ReverseKey, DupSort, IntegerKey, DupFixed, IntegerDup, ReverseDup]

  predicate HasDuplicates(flags: set<Flag>) {
    DupSort in flags || DupFixed in flags || IntegerDup in flags || ReverseDup in flags
  }

  function FlagLines(flags: set<Flag>, table: seq<Flag>): seq<bytes> {
    if table == [] then []
    else (if table[0] in flags then [NameOf(FlagBit(table[0])) + ON] else []) + FlagLines(flags, table[1..])
  }

  function HeaderLines(env: EnvInfo, global: bool, f: Format, name: Option<bytes>, flags: set<Flag>, sequence: nat)
    : seq<bytes>
  {
    [VERSION3]
    + ((if global then GlobalLines(env) else [])
    + ([if f.Print? then FORMAT_PRINT else FORMAT_BYTEVALUE]
    + ((if name.Some? then [DATABASE + name.value] else [])
    + ([TYPE_BTREE]
    + ([PAGESIZE + Dec(env.pagesize)]
    + ([if HasDuplicates(flags) then DUPLICATES1 else DUPLICATES0]
    + (FlagLines(flags, DUMP_FLAGS)
    + (if sequence != 0 then [SEQUENCE + Dec(sequence)] else []))))))))
  }

  function Text(lines: seq<bytes>): bytes {
    if lines == [] then [] else lines[0] + [NL] + Text(lines[1..])
  }

  function HeaderText(env: EnvInfo, global: bool, f: Format, name: Option<bytes>, flags: set<Flag>,
                      sequence: nat): bytes
  {
    Text(HeaderLines(env, global, f, name, flags, sequence)) + (HEADER_END + [NL])
  }

  // ---------------------------------------------------------------- what a printed header means

  /** check_table_flags(): the combinations of flags that a table may have. */
  predicate FlagsOk(flags: set<Flag>) {
    && !(ReverseKey in flags && IntegerKey in flags)
    && (DupFixed in flags || ReverseDup in flags ==> DupSort in flags)
    && (IntegerDup in flags ==> DupSort in flags && DupFixed in flags)
  }

  /** Any flag of the duplicate kind comes back together with dupsort. */
  function Closed(flags: set<Flag>): set<Flag> {
    if HasDuplicates(flags) then flags + {DupSort} else flags
  }

  function LoadedGlobal(h: Hdr, env: EnvInfo): Hdr {
    var h1 := if env.upper != env.lower
              then h.(geo := Geo(env.lower, env.upper, env.shrink, env.grow, U64 - 1)) else h;
    var h2 := if MIN_MAPSIZE <= env.upper <= MAX_MAPSIZE then h1.(mapsize := env.upper) else h1;
    if env.canary.v != 0 then h2.(canary := env.canary) else h2
  }

  /** The state after reading a printed header. */
  function Loaded(h: Hdr, env: EnvInfo, global: bool, f: Format, name: Option<bytes>, flags: set<Flag>,
                  sequence: nat): Hdr
  {
    (if global then LoadedGlobal(h, env) else h)
      .(name := name, flags := Closed(flags), sequence := sequence, plain := f.Print?, pagesize := env.pagesize)
  }

  /** The effect under `step` of a list of whole lines, none of which ends the header or the program. */
  ghost predicate Runs(step: (Hdr, bytes) -> Step, h: Hdr, lines: seq<bytes>, h': Hdr)
    decreases lines
  {
    if lines == [] then h == h'
    else
      var r := step(h, lines[0] + [NL]);
      r.Next? && Runs(step, r.h, lines[1..], h')
  }

  lemma {:induction false} RunsAppend(step: (Hdr, bytes) -> Step, h: Hdr, a: seq<bytes>, h1: Hdr,
                                     b: seq<bytes>, h2: Hdr)
    requires Runs(step, h, a, h1) && Runs(step, h1, b, h2)
    ensures Runs(step, h, a + b, h2)
    decreases |a|
  {
    if a == [] {
      assert a + b == b;
    } else {
      assert (a + b)[1..] == a[1..] + b;
      RunsAppend(step, step(h, a[0] + [NL]).h, a[1..], h1, b, h2);
    }
  }

  lemma RunsOne(step: (Hdr, bytes) -> Step, h: Hdr, line: bytes, h': Hdr)
    requires step(h, line + [NL]) == Next(h')
    ensures Runs(step, h, [line], h')
  {
    assert [line][1..] == [];
  }
}
