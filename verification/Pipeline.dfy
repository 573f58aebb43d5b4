/** Both programs in a row: what the printer writes, the loader at work reads. */
module Pipeline {
  import opened Bytes
  import opened Codec
  import opened Dump
  import opened Header
  import opened HeaderProofs
  import opened Numbers
  import opened Table
  import Loader
  import opened RoundTrip
  import Session

  // ---------------------------------------------------------------- a dump holds no NUL

  ghost predicate Clean(lines: seq<bytes>) { forall i :: 0 <= i < |lines| ==> NulFree(lines[i]) }

  lemma Joined(a: bytes, b: bytes)
    requires NulFree(a) && NulFree(b)
    ensures NulFree(a + b)
  {
  }

  lemma CleanJoined(a: seq<bytes>, b: seq<bytes>)
    requires Clean(a) && Clean(b)
    ensures Clean(a + b)
  {
  }

  lemma DecClean(n: nat)
    ensures NulFree(Dec(n))
  {
    DecIsDigits(n);
    forall i | 0 <= i < |Dec(n)| ensures Dec(n)[i] != NUL { assert IsDigit(Dec(n)[i]); }
  }

  lemma NumberClean(item: bytes, n: nat)
    requires NulFree(item)
    ensures NulFree(item + Dec(n))
  {
    DecClean(n);
    Joined(item, Dec(n));
  }

  lemma FourClean(t1: bytes, n1: nat, t2: bytes, n2: nat, t3: bytes, n3: nat, t4: bytes, n4: nat)
    requires NulFree(t1) && NulFree(t2) && NulFree(t3) && NulFree(t4)
    ensures NulFree(t1 + (Dec(n1) + (t2 + (Dec(n2) + (t3 + (Dec(n3) + (t4 + Dec(n4))))))))
  {
    DecClean(n1);
    DecClean(n2);
    DecClean(n3);
    DecClean(n4);
    hide NulFree, Dec;
    var d := t4 + Dec(n4);
    Joined(t4, Dec(n4));
    Joined(Dec(n3), d);
    Joined(t3, Dec(n3) + d);
    Joined(Dec(n2), t3 + (Dec(n3) + d));
    Joined(t2, Dec(n2) + (t3 + (Dec(n3) + d)));
    Joined(Dec(n1), t2 + (Dec(n2) + (t3 + (Dec(n3) + d))));
    Joined(t1, Dec(n1) + (t2 + (Dec(n2) + (t3 + (Dec(n3) + d)))));
  }

  lemma {:induction false} FlagLinesClean(flags: set<Flag>, table: seq<Flag>)
    ensures Clean(FlagLines(flags, table))
    decreases |table|
  {
    if table != [] {
      FlagLinesClean(flags, table[1..]);
      assert NulFree(NameOf(FlagBit(table[0])) + ON);
    }
  }

  lemma GlobalLinesClean(env: EnvInfo)
    ensures Clean(GlobalLines(env))
  {
    var c := env.canary;
    NumberClean(MAPSIZE, env.upper);
    FourClean(T_L, env.lower, T_U, env.upper, T_S, env.shrink, T_G, env.grow);
    FourClean(T_V, c.v, T_X, c.x, T_Y, c.y, T_Z, c.z);
    assert NulFree(GEOMETRY + GeometryText(env)) && NulFree(CANARY + CanaryText(c));
  }

  lemma FixedLinesClean()
    ensures NulFree(VERSION3) && NulFree(FORMAT_PRINT) && NulFree(FORMAT_BYTEVALUE)
    ensures NulFree(DATABASE) && NulFree(TYPE_BTREE)
    ensures NulFree(PAGESIZE) && NulFree(DUPLICATES0) && NulFree(DUPLICATES1) && NulFree(SEQUENCE)
  {
  }

  lemma HeaderLinesClean(env: EnvInfo, global: bool, f: Format, src: Source)
    requires NameOk(src.name)
    ensures Clean(HeaderLines(env, global, f, src.name, src.tbl.flags, src.tbl.sequence))
  {
    hide NulFree, Dec, GlobalLines, FlagLines;
    FixedLinesClean();
    GlobalLinesClean(env);
    FlagLinesClean(src.tbl.flags, DUMP_FLAGS);
    NumberClean(PAGESIZE, env.pagesize);
    NumberClean(SEQUENCE, src.tbl.sequence);
    var l1 := if src.tbl.sequence != 0 then [SEQUENCE + Dec(src.tbl.sequence)] else [];
    var l2 := [if HasDuplicates(src.tbl.flags) then DUPLICATES1 else DUPLICATES0];
    var l3 := [PAGESIZE + Dec(env.pagesize)];
    var l5 := if src.name.Some? then [DATABASE + src.name.value] else [];
    if src.name.Some? { Joined(DATABASE, src.name.value); }
    var l6 := [if f.Print? then FORMAT_PRINT else FORMAT_BYTEVALUE];
    var l7 := if global then GlobalLines(env) else [];
    var fl := FlagLines(src.tbl.flags, DUMP_FLAGS);
    CleanJoined(fl, l1);
    CleanJoined(l2, fl + l1);
    CleanJoined(l3, l2 + (fl + l1));
    var t := [TYPE_BTREE] + (l3 + (l2 + (fl + l1)));
    CleanJoined([TYPE_BTREE], l3 + (l2 + (fl + l1)));
    CleanJoined(l5, t);
    CleanJoined(l6, l5 + t);
    CleanJoined(l7, l6 + (l5 + t));
    CleanJoined([VERSION3], l7 + (l6 + (l5 + t)));
    hide Clean;
  }

  lemma {:induction false} TextClean(lines: seq<bytes>)
    requires Clean(lines)
    ensures NulFree(Text(lines))
  {
    if lines != [] { TextClean(lines[1..]); }
  }

  lemma ValueClean(f: Format, v: bytes)
    ensures NulFree(EncodeValue(f, v))
  {
    EncodedHasNoNewline(f, v);
    hide EncodeBytes;
  }

  lemma {:induction false} BodyClean(st: Style, rows: seq<Row>, prev: Option<bytes>)
    ensures NulFree(Body(st, rows, prev))
    decreases |rows|
  {
    if rows != [] {
      BodyClean(st, rows[1..], Some(rows[0].key));
      ValueClean(st.format, rows[0].key);
      ValueClean(st.format, rows[0].data);
      var k := if st.concise && prev == Some(rows[0].key) then [SP] else EncodeValue(st.format, rows[0].key);
      var d, more := EncodeValue(st.format, rows[0].data), Body(st, rows[1..], Some(rows[0].key));
      assert Body(st, rows, prev) == k + (d + more) && NulFree([SP]);
      hide NulFree, Body, EncodeValue;
      Joined(d, more);
      Joined(k, d + more);
    }
  }

  lemma TableClean(env: EnvInfo, global: bool, st: Style, src: Source)
    requires NameOk(src.name)
    ensures NulFree(TableText(env, global, st, src))
  {
    assert NulFree(HEADER_END + [NL]) && NulFree(DATA_END + [NL]);
    hide NulFree, HeaderLines, Body, Text;
    var lines := HeaderLines(env, global, st.format, src.name, src.tbl.flags, src.tbl.sequence);
    HeaderLinesClean(env, global, st.format, src);
    TextClean(lines);
    BodyClean(BodyStyle(st, src.tbl), src.tbl.rows, None);
    var body := Body(BodyStyle(st, src.tbl), src.tbl.rows, None);
    Joined(body, DATA_END + [NL]);
    Joined(Text(lines), HEADER_END + [NL]);
    Joined(Text(lines) + (HEADER_END + [NL]), body + (DATA_END + [NL]));
  }

  /** What is dumped can be read as text: it holds no NUL. */
  lemma {:induction false} DumpClean(env: EnvInfo, global: bool, st: Style, srcs: seq<Source>)
    requires forall i :: 0 <= i < |srcs| ==> NameOk(srcs[i].name)
    ensures NulFree(DumpText(env, global, st, srcs))
    decreases |srcs|
  {
    if srcs != [] {
      hide NulFree, TableText, NameOk;
      TableClean(env, global, st, srcs[0]);
      DumpClean(env, false, st, srcs[1..]);
      Joined(TableText(env, global, st, srcs[0]), DumpText(env, false, st, srcs[1..]));
    }
  }

  // ---------------------------------------------------------------- dump and load

  /** Dump all tables, then load the text into a new database: what was dumped is back. */
  method DumpAndLoad(cfg: Loader.Cfg, eng: Loader.Engine, env: EnvInfo, st: Style, main: Main, kcap: nat)
    returns (ok: bool, db: Db)
    requires PutsSucceed(cfg, eng) && EngineOk(eng) && EnvOk(env) && kcap >= 9
    requires SourcesOk(eng, Selected(main)) && SourcesPrintable(st.format, Selected(main))
    ensures ok <==> Selected(main) != []
    ensures db.tables == TablesOf(Selected(main))
    ensures db.canary == if ok then CanaryBack(eng, env.canary) else EMPTY_DB.canary
  {
    hide DumpText, TablesOf, EnvOk, Loader.Load, CanaryBack;
    var dumper := new Dumper(env, st);
    ghost var srcs := Selected(main);
    var found := dumper.DumpMain(main);
    assert dumper.out.text == DumpText(env, true, st, srcs);
    if !found {
      NothingToRestore();
      return false, EMPTY_DB;
    }
    assert forall i :: 0 <= i < |srcs| ==> NameOk(srcs[i].name);
    DumpClean(env, true, st, srcs);
    DumpLoadRoundTrip(cfg, eng, env, st, srcs, kcap);
    var session := new Session.Session(cfg, eng, dumper.out.text, kcap, EMPTY_DB);
    ok := session.Run();
    db := session.saved;
  }

  lemma NothingToRestore()
    ensures TablesOf([]) == map[]
  {
  }

  /** What "back" means: each table is found under its name as it was, and nothing else is. */
  lemma EachTableIsBack(srcs: seq<Source>, i: nat)
    requires i < |srcs| && forall j, k :: 0 <= j < k < |srcs| ==> srcs[j].name != srcs[k].name
    ensures srcs[i].name in TablesOf(srcs) && TablesOf(srcs)[srcs[i].name] == srcs[i].tbl
    ensures forall n :: n in TablesOf(srcs) ==> exists j :: 0 <= j < |srcs| && srcs[j].name == n
  {
    hide TablesOf;
    TablesOfMembers(srcs, srcs[i].name);
    forall n | n in TablesOf(srcs) ensures exists j :: 0 <= j < |srcs| && srcs[j].name == n {
      TablesOfMembers(srcs, n);
    }
  }

  // ---------------------------------------------------------------- what -a leaves out

  predicate AnyTable(items: seq<Item>) {
    exists i | i in items :: i.Sub? && NulFree(i.name)
  }

  /** The keys of the main table are all different. */
  ghost predicate ItemsDistinct(items: seq<Item>) {
    forall i, j :: 0 <= i < j < |items| ==> items[i].name != items[j].name
  }

  lemma AnyTableIffListed(items: seq<Item>)
    ensures AnyTable(items) <==> Listed(items) != []
  {
    if AnyTable(items) {
      var item :| item in items && item.Sub? && NulFree(item.name);
      var i :| 0 <= i < |items| && items[i] == item;
      ListedMembers(items, Source(Some(item.name), item.tbl));
    }
    if Listed(items) != [] {
      ListedMembers(items, Listed(items)[0]);
      var i :| 0 <= i < |items| && items[i].Sub? && NulFree(items[i].name)
               && Listed(items)[0] == Source(Some(items[i].name), items[i].tbl);
      assert items[i] in items;
    }
  }

  /** The database after a dump of all tables has been loaded. */
  function Reloaded(cfg: Loader.Cfg, eng: Loader.Engine, env: EnvInfo, st: Style, main: Main, kcap: nat): Loader.LoadEnd
    requires kcap >= 3
  {
    Loader.Load(cfg, eng, DumpText(env, true, st, Selected(main)), kcap, EMPTY_DB)
  }

  lemma ReloadedIs(cfg: Loader.Cfg, eng: Loader.Engine, env: EnvInfo, st: Style, main: Main, kcap: nat)
    requires PutsSucceed(cfg, eng) && EngineOk(eng) && EnvOk(env) && kcap >= 9
    requires SourcesOk(eng, Selected(main)) && SourcesPrintable(st.format, Selected(main))
    ensures var r := Reloaded(cfg, eng, env, st, main, kcap);
            r.db.tables == TablesOf(Selected(main)) && (r.Loaded? <==> Selected(main) != [])
  {
    hide SourceOk, CanaryBack;
    if Selected(main) != [] {
      hide TablesOf, Loader.Load, DumpText;
      DumpLoadRoundTrip(cfg, eng, env, st, Selected(main), kcap);
    } else {
      NothingToLoad(cfg, eng, env, st, kcap);
      NothingToRestore();
    }
  }

  lemma NothingToLoad(cfg: Loader.Cfg, eng: Loader.Engine, env: EnvInfo, st: Style, kcap: nat)
    requires kcap >= 3
    ensures Loader.Load(cfg, eng, DumpText(env, true, st, []), kcap, EMPTY_DB) == Loader.Failed(EMPTY_DB)
  {
  }

  /**
   * -a and loading: the main table comes back, whole, exactly when no named table was found and some key
   * of it is free of NULs; the program succeeds exactly when anything was found at all.
   */
  lemma MainComesBackIff(cfg: Loader.Cfg, eng: Loader.Engine, env: EnvInfo, st: Style, main: Main, kcap: nat)
    requires PutsSucceed(cfg, eng) && EngineOk(eng) && EnvOk(env) && kcap >= 9
    requires SourcesOk(eng, Selected(main)) && SourcesPrintable(st.format, Selected(main))
    ensures var r := Reloaded(cfg, eng, env, st, main, kcap);
            && (r.Loaded? <==> AnyTable(main.items) || HasRaw(main.items))
            && (None in r.db.tables <==> !AnyTable(main.items) && HasRaw(main.items))
            && (None in r.db.tables ==> r.db.tables[None] == main.tbl)
  {
    hide Reloaded, TablesOf, SourceOk;
    var srcs := Selected(main);
    ReloadedIs(cfg, eng, env, st, main, kcap);
    AnyTableIffListed(main.items);
    TablesOfMembers(srcs, None);
    if Listed(main.items) != [] {
      forall j | 0 <= j < |srcs| ensures srcs[j].name != None { ListedMembers(main.items, srcs[j]); }
    } else if HasRaw(main.items) {
      assert srcs[0].name == None;
    }
  }

  /** -a and loading: a named table comes back, whole, exactly when its name is free of NULs. */
  lemma NamedComesBackIff(cfg: Loader.Cfg, eng: Loader.Engine, env: EnvInfo, st: Style, main: Main, kcap: nat, i: nat)
    requires PutsSucceed(cfg, eng) && EngineOk(eng) && EnvOk(env) && kcap >= 9 && ItemsDistinct(main.items)
    requires SourcesOk(eng, Selected(main)) && SourcesPrintable(st.format, Selected(main))
    requires i < |main.items| && main.items[i].Sub?
    ensures var r, item := Reloaded(cfg, eng, env, st, main, kcap), main.items[i];
            && (Some(item.name) in r.db.tables <==> NulFree(item.name))
            && (NulFree(item.name) ==> r.db.tables[Some(item.name)] == item.tbl)
  {
    hide Reloaded, TablesOf, SourceOk, NulFree;
    var srcs, item := Selected(main), main.items[i];
    ReloadedIs(cfg, eng, env, st, main, kcap);
    TablesOfMembers(srcs, Some(item.name));
    if NulFree(item.name) {
      ListedMembers(main.items, Source(Some(item.name), item.tbl));
      var j :| 0 <= j < |srcs| && srcs[j] == Source(Some(item.name), item.tbl);
    } else {
      forall j | 0 <= j < |srcs| ensures srcs[j].name != Some(item.name) {
        if Listed(main.items) != [] { ListedMembers(main.items, srcs[j]); }
      }
    }
  }

  /** One table, one record of the main table, and a table whose name holds a NUL. */
  const LOSSY: Main :=
    Main(Tbl({}, 0, [Row("raw", "1")]), [Sub("a\0b", Tbl({}, 0, [])), Raw("raw"), Sub("t", Tbl({}, 0, []))])

  lemma LossySelected()
    ensures Selected(LOSSY) == [Source(Some("t"), Tbl({}, 0, []))] && ItemsDistinct(LOSSY.items)
    ensures !NulFree(LOSSY.items[0].name)
  {
    assert LOSSY.items[0].name[1] == NUL;
    ListedStep(LOSSY.items, 0);
    ListedStep(LOSSY.items, 1);
    ListedStep(LOSSY.items, 2);
    assert LOSSY.items[0..] == LOSSY.items && LOSSY.items[3..] == [];
    NoneListed();
  }

  /** Of these only the first is back. */
  lemma MainIsLost(cfg: Loader.Cfg, eng: Loader.Engine, env: EnvInfo, st: Style, kcap: nat)
    requires PutsSucceed(cfg, eng) && EngineOk(eng) && EnvOk(env) && kcap >= 9
    ensures var r := Reloaded(cfg, eng, env, st, LOSSY, kcap);
            r.Loaded? && None !in r.db.tables && Some("a\0b") !in r.db.tables && Some("t") in r.db.tables
  {
    hide Reloaded, Listed, HasRaw;
    LossySelected();
    AnyTableIffListed(LOSSY.items);
    MainComesBackIff(cfg, eng, env, st, LOSSY, kcap);
    NamedComesBackIff(cfg, eng, env, st, LOSSY, kcap, 0);
    NamedComesBackIff(cfg, eng, env, st, LOSSY, kcap, 2);
  }

  /** A main table whose keys all hold a NUL, as integer keys mostly do: nothing is dumped. */
  lemma BinaryKeysAreLost(cfg: Loader.Cfg, eng: Loader.Engine, env: EnvInfo, st: Style, kcap: nat)
    requires PutsSucceed(cfg, eng) && EngineOk(eng) && EnvOk(env) && kcap >= 9
    ensures var key := [1 as char, NUL, NUL, NUL];
            var main := Main(Tbl({IntegerKey}, 0, [Row(key, "v")]), [Raw(key)]);
            !Reloaded(cfg, eng, env, st, main, kcap).Loaded?
  {
    hide Reloaded;
    var key: bytes := [1 as char, NUL, NUL, NUL];
    var main := Main(Tbl({IntegerKey}, 0, [Row(key, "v")]), [Raw(key)]);
    assert key[1] == NUL && !NulFree(key);
    ListedStep(main.items, 0);
    assert main.items[0..] == main.items && main.items[1..] == [] && main.items[..1] == main.items
           && main.items[..0] == [];
    NoneListed();
    AnyTableIffListed(main.items);
    MainComesBackIff(cfg, eng, env, st, main, kcap);
  }
}
