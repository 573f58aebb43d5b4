/** Loading a dump gives back what was dumped. */
module RoundTrip {
  import opened Bytes
  import opened Codec
  import opened Numbers
  import opened Stdio
  import opened Readline
  import opened Header
  import opened HeaderProofs
  import opened HeaderTheorems
  import opened Table
  import opened Dump
  import opened Loader

  /** In print format no key and no datum may begin with the repeat marker. */
  predicate Printable(f: Format, v: bytes) { f.Print? ==> v == [] || v[0] != SP }

  ghost predicate RowsPrintable(f: Format, rows: seq<Row>) {
    forall i :: 0 <= i < |rows| ==> Printable(f, rows[i].key) && Printable(f, rows[i].data)
  }

  /** Every put succeeds, and nothing is in the way of -N. */
  ghost predicate PutsSucceed(cfg: Cfg, eng: Engine) {
    !cfg.noOverwrite && forall n :: eng.put(n) == PutOk
  }

  /** No row's key belongs to the record of a named table. */
  ghost predicate KeysFree(db: Db, nm: Option<bytes>, rows: seq<Row>) {
    forall i :: 0 <= i < |rows| ==> !Taken(db, nm, rows[i].key)
  }

  ghost predicate EngineOk(eng: Engine) {
    forall flags :: OrderOk(eng.order(flags))
  }

  ghost predicate SortedFor(eng: Engine, flags: set<Flag>, rows: seq<Row>) {
    Sorted(eng.order(flags), DupSort in flags, rows)
  }

  // ---------------------------------------------------------------- one record

  /** The key in front of a record as the dump prints it. */
  function KeyText(st: Style, key: bytes, prev: Option<bytes>): bytes {
    if st.concise && prev == Some(key) then [SP] else EncodeValue(st.format, key)
  }

  /** Whichever way the key was printed, the loader ends up with its bytes and the datum's line in front. */
  lemma ReadKey(st: Style, key: bytes, prev: Option<bytes>, data: bytes, rest: bytes, w: Work)
    requires w.kcap >= 3 && Printable(st.format, key)
    requires prev.Some? ==> w.key == prev.value
    requires w.s == KeyText(st, key, prev) + (EncodeValue(st.format, data) + rest)
    ensures var l := ReadLine(st.format, false, w.kcap, w.s);
            && (l.Value? || l.Repeat?)
            && TakeKey(w, l) == w.(key := key, s := EncodeValue(st.format, data) + rest, kcap := TakeKey(w, l).kcap)
            && TakeKey(w, l).kcap >= w.kcap
  {
    var more := EncodeValue(st.format, data) + rest;
    if st.concise && prev == Some(key) {
      assert w.s == [SP] + EncodeValue(st.format, data) + rest;
      ReadRepeatMarker(st.format, w.kcap, data, rest);
    } else {
      ReadPrinted(st.format, w.kcap, key, more);
    }
  }

  /** One turn of the record loop takes one printed record as far as its put. */
  lemma TakeRecord(cfg: Cfg, eng: Engine, st: Style, nm: Option<bytes>, w: Work, row: Row, prev: Option<bytes>,
                   rest: bytes)
    returns (w': Work)
    requires WorkOk(w, nm) && Printable(st.format, row.key) && Printable(st.format, row.data)
    requires prev.Some? ==> w.key == prev.value
    requires w.s == KeyText(st, row.key, prev) + (EncodeValue(st.format, row.data) + rest)
    ensures w' == w.(s := rest, key := row.key, data := row.data, kcap := w'.kcap, dcap := w'.dcap)
    ensures w'.kcap >= w.kcap && w'.dcap >= w.dcap
    ensures var rc := PutOutcome(cfg, eng, w.db, nm, row.key, w.puts);
            && (rc.PutOk? ==> Record(cfg, eng, st.format, nm, w) == Again(Checkpointed(cfg, eng, Stored(eng, nm, w'))))
            && (rc.KeyExist? && cfg.noOverwrite ==>
                  Record(cfg, eng, st.format, nm, w) == Left(w'.(puts := w.puts + 1)))
            && (rc.BadValSize? && cfg.rescue ==>
                  Record(cfg, eng, st.format, nm, w) == Left(w'.(puts := w.puts + 1)))
            && (rc.PutFailed? || (rc.KeyExist? && !cfg.noOverwrite) || (rc.BadValSize? && !cfg.rescue) ==>
                  Record(cfg, eng, st.format, nm, w) == Abort(w'))
  {
    hide ReadLine, PutOutcome, Checkpointed, Stored, EncodeValue;
    ReadKey(st, row.key, prev, row.data, rest, w);
    var w1 := TakeKey(w, ReadLine(st.format, false, w.kcap, w.s));
    ReadPrinted(st.format, w1.dcap, row.data, rest);
    w' := TakeData(w1, ReadLine(st.format, false, w1.dcap, w1.s));
  }

  /** When the rows arrive in order and the put succeeds, the row is appended. */
  lemma OneRecord(cfg: Cfg, eng: Engine, st: Style, nm: Option<bytes>, w: Work, row: Row, prev: Option<bytes>,
                  rest: bytes)
    returns (w': Work)
    requires WorkOk(w, nm) && PutsSucceed(cfg, eng) && EngineOk(eng) && !Taken(w.db, nm, row.key)
    requires Printable(st.format, row.key) && Printable(st.format, row.data)
    requires prev.Some? ==> w.key == prev.value
    requires w.s == KeyText(st, row.key, prev) + (EncodeValue(st.format, row.data) + rest)
    requires SortedFor(eng, w.db.tables[nm].flags, w.db.tables[nm].rows + [row])
    ensures WorkOk(w', nm) && Records(cfg, eng, st.format, nm, w) == Records(cfg, eng, st.format, nm, w')
    ensures w'.s == rest && w'.key == row.key && w'.kcap >= w.kcap && w'.dcap >= w.dcap
    ensures w'.db == WithTable(w.db, nm, w.db.tables[nm].(rows := w.db.tables[nm].rows + [row]))
  {
    hide Record;
    var w2 := TakeRecord(cfg, eng, st, nm, w, row, prev, rest);
    var t := w.db.tables[nm];
    assert Row(w2.key, w2.data) == row;
    UpsertAppends(eng.order(t.flags), HasDups(t), t.rows, row);
    w' := Checkpointed(cfg, eng, Stored(eng, nm, w2));
  }

  // ---------------------------------------------------------------- all records of a table

  lemma {:induction false} AllRecords(cfg: Cfg, eng: Engine, st: Style, nm: Option<bytes>, w: Work, rows: seq<Row>,
                                      prev: Option<bytes>, rest: bytes)
    requires WorkOk(w, nm) && w.kcap >= 9 && PutsSucceed(cfg, eng) && EngineOk(eng) && RowsPrintable(st.format, rows)
    requires KeysFree(w.db, nm, rows)
    requires prev.Some? ==> w.key == prev.value
    requires w.s == Body(st, rows, prev) + (DATA_END + [NL] + rest)
    requires SortedFor(eng, w.db.tables[nm].flags, w.db.tables[nm].rows + rows)
    ensures var t := Records(cfg, eng, st.format, nm, w);
            && t.TableDone? && t.w.s == rest && t.w.kcap >= w.kcap && t.w.dcap >= w.dcap
            && t.w.db == WithTable(w.db, nm, w.db.tables[nm].(rows := w.db.tables[nm].rows + rows))
    decreases |rows|
  {
    hide Records, Body, KeysFree, RowsPrintable;
    var t := w.db.tables[nm];
    var end := DATA_END + [NL] + rest;
    if rows == [] {
      NoMoreRecords(cfg, eng, st, nm, w, prev, rest);
      assert t.rows + rows == t.rows;
    } else {
      var row := rows[0];
      var more := Body(st, rows[1..], Some(row.key)) + end;
      BodySplit(st, rows, prev, end);
      assert t.rows + rows == t.rows + [row] + rows[1..];
      SortedPrefix(eng.order(t.flags), DupSort in t.flags, t.rows + [row], rows[1..]);
      RowsAhead(st.format, w.db, nm, t.(rows := t.rows + [row]), rows, 0);
      var w1 := OneRecord(cfg, eng, st, nm, w, row, prev, more);
      AllRecords(cfg, eng, st, nm, w1, rows[1..], Some(row.key), rest);
      WithTableTwice(w.db, nm, w1.db.tables[nm], t.(rows := t.rows + rows));
    }
  }

  /** The rows from the i-th on, after the table has changed. */
  lemma RowsAhead(f: Format, db: Db, nm: Option<bytes>, t: Tbl, rows: seq<Row>, i: nat)
    requires nm in db.tables && i < |rows| && RowsPrintable(f, rows) && KeysFree(db, nm, rows)
    ensures Printable(f, rows[i].key) && Printable(f, rows[i].data) && !Taken(db, nm, rows[i].key)
    ensures RowsPrintable(f, rows[1..]) && KeysFree(WithTable(db, nm, t), nm, rows[1..])
    ensures KeysFree(WithTable(db, nm, t), nm, rows)
  {
    forall j | 0 <= j < |rows| ensures !Taken(WithTable(db, nm, t), nm, rows[j].key) {
      assert !Taken(db, nm, rows[j].key);
    }
  }

  lemma NoMoreRecords(cfg: Cfg, eng: Engine, st: Style, nm: Option<bytes>, w: Work, prev: Option<bytes>, rest: bytes)
    requires WorkOk(w, nm) && w.kcap >= 9 && w.s == Body(st, [], prev) + (DATA_END + [NL] + rest)
    ensures Records(cfg, eng, st.format, nm, w) == TableDone(w.(s := rest))
    ensures WithTable(w.db, nm, w.db.tables[nm]) == w.db
  {
    assert w.s == DATA_END + [NL] + rest;
    ReadEnd(st.format, w.kcap, rest);
  }

  lemma WithTableTwice(db: Db, nm: Option<bytes>, a: Tbl, b: Tbl)
    ensures WithTable(WithTable(db, nm, a), nm, b) == WithTable(db, nm, b)
  {
  }

  lemma BodySplit(st: Style, rows: seq<Row>, prev: Option<bytes>, end: bytes)
    requires rows != []
    ensures Body(st, rows, prev) + end ==
            KeyText(st, rows[0].key, prev)
            + (EncodeValue(st.format, rows[0].data) + (Body(st, rows[1..], Some(rows[0].key)) + end))
  {
    var k, d := KeyText(st, rows[0].key, prev), EncodeValue(st.format, rows[0].data);
    var b := Body(st, rows[1..], Some(rows[0].key));
    Assoc(k, d + b, end);
    Assoc(d, b, end);
  }

  lemma SortedPrefix(ord: Order, dup: bool, a: seq<Row>, b: seq<Row>)
    requires Sorted(ord, dup, a + b)
    ensures Sorted(ord, dup, a)
  {
    forall i, j | 0 <= i < j < |a| ensures Before(ord, dup, a[i], a[j]) {
      assert Before(ord, dup, (a + b)[i], (a + b)[j]);
    }
  }

  lemma ReadEnd(f: Format, cap: nat, rest: bytes)
    requires cap >= 9
    ensures ReadLine(f, false, cap, DATA_END + [NL] + rest) == DataEnd(rest)
  {
    var s := DATA_END + [NL] + rest;
    var t := s[1..];
    assert t == ATA_END + [NL] + rest;
    assert s[0] == 'D';
    LineLenAppend(ATA_END, rest);
    assert FgetsLen(t, cap) == 8;
    assert t[..8] == ATA_END + [NL] && t[8..] == rest;
  }

  // ---------------------------------------------------------------- tables

  /** What a dumped table must satisfy to be dumped and loaded whole, whatever its rows begin with. */
  ghost predicate SourceOk(eng: Engine, src: Source) {
    && NameOk(src.name) && (src.name.Some? ==> |DATABASE| + |src.name.value| <= LINE_BUFFER - 1)
    && src.tbl.sequence < U64 && FlagsOk(src.tbl.flags)
    && SortedFor(eng, src.tbl.flags, src.tbl.rows)
  }

  /** The tables of one dump: the main table alone, or named ones. */
  ghost predicate SourcesOk(eng: Engine, srcs: seq<Source>) {
    && (forall i :: 0 <= i < |srcs| ==> SourceOk(eng, srcs[i]))
    && (forall i, j :: 0 <= i < j < |srcs| ==> srcs[i].name != srcs[j].name)
    && (|srcs| > 1 ==> forall i :: 0 <= i < |srcs| ==> srcs[i].name.Some?)
  }

  ghost predicate SourcesPrintable(f: Format, srcs: seq<Source>) {
    forall i :: 0 <= i < |srcs| ==> RowsPrintable(f, srcs[i].tbl.rows)
  }

  /** The table can be loaded into the database, replacing what is there under its name. */
  ghost predicate Admits(cfg: Cfg, db: Db, src: Source) {
    && (src.name.Some? ==> !HasDups(MainOf(db)) && !HasKey(MainOf(db).rows, src.name.value))
    && (Filled(db, src.name) ==> cfg.purge && (src.name in db.tables ==> db.tables[src.name].flags == src.tbl.flags))
    && (Filled(db, src.name) && src.name !in db.tables ==> src.tbl.flags == {})
    && (src.name in db.tables ==> db.tables[src.name].sequence <= src.tbl.sequence)
  }

  ghost predicate AdmitsAll(cfg: Cfg, db: Db, srcs: seq<Source>) {
    forall i :: 0 <= i < |srcs| ==> Admits(cfg, db, srcs[i])
  }

  /** The table as it comes back: with -p onto a table that is not empty its sequence is lost. */
  function Landed(cfg: Cfg, db: Db, src: Source): Tbl {
    if cfg.purge && Filled(db, src.name) then src.tbl.(sequence := 0) else src.tbl
  }

  /** With -p the main table goes with all the named ones. */
  function Restored(cfg: Cfg, db: Db, src: Source): Db {
    WithTable(if src.name.None? && cfg.purge && Filled(db, None) then db.(tables := map[]) else db,
              src.name, Landed(cfg, db, src))
  }

  function RestoredAll(cfg: Cfg, db: Db, srcs: seq<Source>): Db
    decreases |srcs|
  {
    if srcs == [] then db else RestoredAll(cfg, Restored(cfg, db, srcs[0]), srcs[1..])
  }

  /** A header that has been read, in front of the records of its table. */
  ghost predicate ReadyFor(h: Hdr, st: Style, src: Source) {
    && h.name == src.name && h.flags == src.tbl.flags && h.sequence == src.tbl.sequence
    && h.plain == st.format.Print?
  }

  /** Opening the table leaves it empty, with the header's flags. */
  lemma OpenIsEmpty(cfg: Cfg, h: Hdr, st: Style, src: Source, db: Db)
    requires ReadyFor(h, st, src) && FlagsOk(src.tbl.flags) && Admits(cfg, db, src)
    ensures OpenTable(cfg, h, db) == Some(Restored(cfg, db, src.(tbl := src.tbl.(rows := []))))
  {
    var db2 := WithTable(db, src.name, Tbl(h.flags, h.sequence, Present(h, db).rows));
    assert Filled(db2, h.name) == Filled(db, h.name);
    if src.name.None? { assert !AnyNamed(db.(tables := map[])); }
    if cfg.purge && Filled(db, h.name) {
      var a := if h.name.None? then db2.(tables := map[]) else db2;
      var b := if h.name.None? then db.(tables := map[]) else db;
      assert a.tables[h.name := Tbl(h.flags, 0, [])] == b.tables[h.name := Tbl(h.flags, 0, [])];
    }
  }

  /** One table: its records, after it was opened. */
  lemma TableRestored(cfg: Cfg, eng: Engine, st: Style, src: Source, w: Work, rest: bytes)
    requires PutsSucceed(cfg, eng) && EngineOk(eng) && SourceOk(eng, src) && RowsPrintable(st.format, src.tbl.rows)
    requires w.kcap >= 9 && w.dcap >= 3 && src.name in w.db.tables && w.key == []
    requires w.db.tables[src.name].flags == src.tbl.flags && w.db.tables[src.name].rows == []
    requires src.name.None? ==> !AnyNamed(w.db)
    requires w.s == Body(BodyStyle(st, src.tbl), src.tbl.rows, None) + (DATA_END + [NL] + rest)
    ensures var t := Records(cfg, eng, st.format, src.name, w);
            && t.TableDone? && t.w.s == rest && t.w.kcap >= w.kcap && t.w.dcap >= w.dcap
            && t.w.db == WithTable(w.db, src.name, w.db.tables[src.name].(rows := src.tbl.rows))
  {
    assert [] + src.tbl.rows == src.tbl.rows;
    AllRecords(cfg, eng, BodyStyle(st, src.tbl), src.name, w, src.tbl.rows, None, rest);
  }

  /** Restoring one of several named tables leaves the place of the others as it was. */
  lemma AdmitsStays(cfg: Cfg, db: Db, src: Source, other: Source)
    requires src.name.Some? && other.name.Some? && src.name != other.name && Admits(cfg, db, other)
    ensures Admits(cfg, Restored(cfg, db, src), other)
    ensures Landed(cfg, Restored(cfg, db, src), other) == Landed(cfg, db, other)
  {
  }

  lemma AdmitsRest(cfg: Cfg, eng: Engine, db: Db, srcs: seq<Source>)
    requires |srcs| > 1 && SourcesOk(eng, srcs) && AdmitsAll(cfg, db, srcs)
    ensures SourcesOk(eng, srcs[1..]) && AdmitsAll(cfg, Restored(cfg, db, srcs[0]), srcs[1..])
  {
    hide SourceOk, Admits, Restored;
    var rest := srcs[1..];
    forall i | 0 <= i < |rest| ensures Admits(cfg, Restored(cfg, db, srcs[0]), rest[i]) && SourceOk(eng, rest[i]) {
      assert rest[i] == srcs[i + 1];
      AdmitsStays(cfg, db, srcs[0], srcs[i + 1]);
    }
    assert forall i, j :: 0 <= i < j < |rest| ==> rest[i] == srcs[i + 1] && rest[j] == srcs[j + 1];
  }

  lemma {:induction false} TablesRestored(cfg: Cfg, eng: Engine, env: EnvInfo, st: Style, srcs: seq<Source>, h: Hdr,
                                          s: bytes, kcap: nat, dcap: nat, saved: Db, puts: nat)
    requires PutsSucceed(cfg, eng) && EngineOk(eng) && EnvOk(env) && srcs != []
    requires SourcesOk(eng, srcs) && SourcesPrintable(st.format, srcs)
    requires kcap >= 9 && dcap >= LINE_BUFFER
    requires ReadyFor(h, st, srcs[0]) && h.pagesize == env.pagesize
    requires AdmitsAll(cfg, saved, srcs)
    requires s == Body(BodyStyle(st, srcs[0].tbl), srcs[0].tbl.rows, None)
                  + (DATA_END + [NL] + DumpText(env, false, st, srcs[1..]))
    ensures Tables(cfg, eng, h, s, kcap, dcap, saved, puts)
         == Loader.Loaded(RestoredAll(cfg, PutCanary(eng, h, saved), srcs))
    decreases |srcs|
  {
    hide Records, DumpText, Body, HeaderText, ReadHeader, Restored, Admits, SourceOk, PutCanary, OpenTable;
    var db := PutCanary(eng, h, saved);
    CanaryApart(cfg, eng, h, saved, srcs);
    var w := FirstTable(cfg, eng, env, st, srcs, h, s, kcap, dcap, saved, puts);
    if |srcs| > 1 {
      var next := srcs[1];
      var h1 := h.(global := false);
      NextTable(env, st, srcs[1..]);
      assert srcs[1..][1..] == srcs[2..];
      var body := Body(BodyStyle(st, next.tbl), next.tbl.rows, None)
                  + (DATA_END + [NL] + DumpText(env, false, st, srcs[2..]));
      HeaderAhead(h1, eng, env, false, st, next, body, w.dcap);
      var h2 := ReadHeader(h1, w.s, w.dcap).h;
      AdmitsRest(cfg, eng, db, srcs);
      TablesRestored(cfg, eng, env, st, srcs[1..], h2, body, w.kcap, w.dcap, w.db, w.puts);
      NoCanary(eng, h2, w.db);
    } else {
      assert srcs[1..] == [];
      DumpOfNothing(env, st, h.(global := false), w);
    }
  }

  /** The canary is apart from the tables. */
  lemma CanaryApart(cfg: Cfg, eng: Engine, h: Hdr, db: Db, srcs: seq<Source>)
    requires AdmitsAll(cfg, db, srcs)
    ensures AdmitsAll(cfg, PutCanary(eng, h, db), srcs) && PutCanary(eng, h, db).tables == db.tables
  {
    forall i | 0 <= i < |srcs| ensures Admits(cfg, PutCanary(eng, h, db), srcs[i]) { assert Admits(cfg, db, srcs[i]); }
  }

  lemma NoCanary(eng: Engine, h: Hdr, db: Db)
    requires !h.global
    ensures PutCanary(eng, h, db) == db
  {
  }

  /** Reading a printed header makes the loader ready for its table. */
  lemma HeaderAhead(h: Hdr, eng: Engine, env: EnvInfo, global: bool, st: Style, src: Source, body: bytes, cap: nat)
    requires EnvOk(env) && SourceOk(eng, src) && cap >= LINE_BUFFER
    requires h.global == global && (global || h.pagesize == env.pagesize)
    ensures var r := ReadHeader(h, HeaderText(env, global, st.format, src.name, src.tbl.flags, src.tbl.sequence) + body,
                                cap);
            && r.HdrOk? && r.rest == body && ReadyFor(r.h, st, src)
            && r.h == Header.Loaded(h, env, global, st.format, src.name, src.tbl.flags, src.tbl.sequence)
  {
    hide HeaderText, ReadHeader;
    HeaderRoundTrip(h, env, global, st.format, src.name, src.tbl.flags, src.tbl.sequence, body, cap);
  }

  lemma DumpOfNothing(env: EnvInfo, st: Style, h: Hdr, w: Work)
    requires w.s == DumpText(env, false, st, []) && w.dcap >= 3
    ensures ReadHeader(h, w.s, w.dcap) == HdrEof
  {
  }

  /** The table loop with the records of the first table done and its commit made. */
  lemma FirstTable(cfg: Cfg, eng: Engine, env: EnvInfo, st: Style, srcs: seq<Source>, h: Hdr,
                   s: bytes, kcap: nat, dcap: nat, saved: Db, puts: nat) returns (w: Work)
    requires PutsSucceed(cfg, eng) && EngineOk(eng) && srcs != [] && SourceOk(eng, srcs[0])
    requires RowsPrintable(st.format, srcs[0].tbl.rows)
    requires kcap >= 9 && dcap >= 3
    requires ReadyFor(h, st, srcs[0]) && Admits(cfg, PutCanary(eng, h, saved), srcs[0])
    requires s == Body(BodyStyle(st, srcs[0].tbl), srcs[0].tbl.rows, None)
                  + (DATA_END + [NL] + DumpText(env, false, st, srcs[1..]))
    ensures w.s == DumpText(env, false, st, srcs[1..]) && w.kcap >= kcap && w.dcap >= dcap
    ensures w.db == Restored(cfg, PutCanary(eng, h, saved), srcs[0])
    ensures Tables(cfg, eng, h, s, kcap, dcap, saved, puts) ==
            var r := ReadHeader(h.(global := false), w.s, w.dcap);
            if r.HdrEof? then Loader.Loaded(w.db)
            else if r.HdrExit? then Failed(w.db)
            else Tables(cfg, eng, r.h, r.rest, w.kcap, w.dcap, w.db, w.puts)
  {
    hide Records, DumpText, Body, ReadHeader, OpenTable, PutCanary, Admits;
    var src := srcs[0];
    var h1 := h.(global := false);
    var db := PutCanary(eng, h, saved);
    OpenIsEmpty(cfg, h1, st, src, db);
    var db1 := OpenTable(cfg, h1, db).value;
    var w0 := Work(s, [], [], kcap, dcap, db1, saved, 0, puts);
    NoneNamedLeft(cfg, db, src);
    TableRestored(cfg, eng, st, src, w0, DumpText(env, false, st, srcs[1..]));
    var base := if src.name.None? && cfg.purge && Filled(db, None) then db.(tables := map[]) else db;
    WithTableTwice(base, src.name, db1.tables[src.name], Landed(cfg, db, src));
    w := Records(cfg, eng, FormatOf(h1), h1.name, w0).w;
  }

  lemma NoneNamedLeft(cfg: Cfg, db: Db, src: Source)
    requires Admits(cfg, db, src)
    ensures var db1 := Restored(cfg, db, src.(tbl := src.tbl.(rows := []))); src.name.None? ==> !AnyNamed(db1)
  {
  }

  /** The text of a list of tables is the first header, its records and the rest. */
  lemma NextTable(env: EnvInfo, st: Style, srcs: seq<Source>)
    requires srcs != []
    ensures forall global :: DumpText(env, global, st, srcs) ==
              HeaderText(env, global, st.format, srcs[0].name, srcs[0].tbl.flags, srcs[0].tbl.sequence)
              + (Body(BodyStyle(st, srcs[0].tbl), srcs[0].tbl.rows, None)
                 + (DATA_END + [NL] + DumpText(env, false, st, srcs[1..])))
  {
    forall global
      ensures DumpText(env, global, st, srcs) ==
              HeaderText(env, global, st.format, srcs[0].name, srcs[0].tbl.flags, srcs[0].tbl.sequence)
              + (Body(BodyStyle(st, srcs[0].tbl), srcs[0].tbl.rows, None)
                 + (DATA_END + [NL] + DumpText(env, false, st, srcs[1..])))
    {
      var h := HeaderText(env, global, st.format, srcs[0].name, srcs[0].tbl.flags, srcs[0].tbl.sequence);
      var b := Body(BodyStyle(st, srcs[0].tbl), srcs[0].tbl.rows, None);
      var e := DATA_END + [NL];
      var d := DumpText(env, false, st, srcs[1..]);
      Assoc(h, b + e, d);
      Assoc(b, e, d);
    }
  }

  // ---------------------------------------------------------------- a whole dump

  /** mdbx_canary_put() with a printed canary: nothing without v, or where x, y and z are there already. */
  function CanaryOver(eng: Engine, c: Canary, db: Db): Db {
    if c.v == 0 || SameMarkers(c, db.canary) then db else db.(canary := Canary(eng.txnid, c.x, c.y, c.z))
  }

  /** Loading the dump of a list of tables into any database that admits them puts each in its place. */
  lemma LoadRestores(cfg: Cfg, eng: Engine, env: EnvInfo, st: Style, srcs: seq<Source>, kcap: nat, db: Db)
    requires PutsSucceed(cfg, eng) && EngineOk(eng) && EnvOk(env) && srcs != [] && kcap >= 9
    requires SourcesOk(eng, srcs) && SourcesPrintable(st.format, srcs) && AdmitsAll(cfg, db, srcs)
    ensures Load(cfg, eng, DumpText(env, true, st, srcs), kcap, db)
         == Loader.Loaded(RestoredAll(cfg, CanaryOver(eng, env.canary, db), srcs))
  {
    hide Tables, HeaderText, ReadHeader, Body, DumpText, RestoredAll, Admits, SourceOk;
    var src := srcs[0];
    var body := Body(BodyStyle(st, src.tbl), src.tbl.rows, None)
                + (DATA_END + [NL] + DumpText(env, false, st, srcs[1..]));
    NextTable(env, st, srcs);
    HeaderAhead(INITIAL, eng, env, true, st, src, body, LINE_BUFFER);
    var h := ReadHeader(INITIAL, DumpText(env, true, st, srcs), LINE_BUFFER).h;
    assert PutCanary(eng, h, db) == CanaryOver(eng, env.canary, db);
    TablesRestored(cfg, eng, env, st, srcs, h, body, kcap, LINE_BUFFER, db, 0);
  }

  /** The tables of a list under their names. */
  function TablesOf(srcs: seq<Source>): map<Option<bytes>, Tbl> {
    if srcs == [] then map[] else TablesOf(srcs[..|srcs| - 1])[srcs[|srcs| - 1].name := srcs[|srcs| - 1].tbl]
  }

  /** Each table is found under its name as it lands there. */
  lemma {:induction false} EachLands(cfg: Cfg, db: Db, srcs: seq<Source>, i: nat)
    requires i < |srcs| && (forall j, k :: 0 <= j < k < |srcs| ==> srcs[j].name != srcs[k].name)
    requires |srcs| > 1 ==> forall j :: 0 <= j < |srcs| ==> srcs[j].name.Some?
    ensures srcs[i].name in RestoredAll(cfg, db, srcs).tables
    ensures RestoredAll(cfg, db, srcs).tables[srcs[i].name] == Landed(cfg, db, srcs[i])
    decreases |srcs|
  {
    var after := Restored(cfg, db, srcs[0]);
    if i > 0 {
      EachLands(cfg, after, srcs[1..], i - 1);
    } else {
      OthersStay(cfg, after, srcs[1..], srcs[0].name);
    }
  }

  /** What is under other names stays. */
  lemma {:induction false} OthersStay(cfg: Cfg, db: Db, srcs: seq<Source>, name: Option<bytes>)
    requires forall j :: 0 <= j < |srcs| ==> srcs[j].name != name && srcs[j].name.Some?
    ensures var db' := RestoredAll(cfg, db, srcs);
            (name in db'.tables <==> name in db.tables) && (name in db.tables ==> db'.tables[name] == db.tables[name])
    decreases |srcs|
  {
    if srcs != [] { OthersStay(cfg, Restored(cfg, db, srcs[0]), srcs[1..], name); }
  }

  lemma {:induction false} CanaryStays(cfg: Cfg, db: Db, srcs: seq<Source>)
    ensures RestoredAll(cfg, db, srcs).canary == db.canary
    decreases |srcs|
  {
    if srcs != [] { CanaryStays(cfg, Restored(cfg, db, srcs[0]), srcs[1..]); }
  }

  lemma {:induction false} TablesOfMembers(srcs: seq<Source>, name: Option<bytes>)
    requires forall j, k :: 0 <= j < k < |srcs| ==> srcs[j].name != srcs[k].name
    ensures name in TablesOf(srcs) <==> exists j :: 0 <= j < |srcs| && srcs[j].name == name
    ensures forall j :: 0 <= j < |srcs| && srcs[j].name == name ==> TablesOf(srcs)[name] == srcs[j].tbl
    decreases |srcs|
  {
    if srcs != [] {
      var front := srcs[..|srcs| - 1];
      TablesOfMembers(front, name);
      if name in TablesOf(front) {
        var j :| 0 <= j < |front| && front[j].name == name;
        assert srcs[j].name == name;
      }
      if j :| 0 <= j < |srcs| && srcs[j].name == name && j < |front| { assert front[j].name == name; }
    }
  }

  /** The canary as a new database has it after loading. */
  function CanaryBack(eng: Engine, c: Canary): Canary { CanaryOver(eng, c, EMPTY_DB).canary }

  /** In a new database nothing but the tables loaded is found. */
  lemma RestoredFromNothing(cfg: Cfg, eng: Engine, c: Canary, srcs: seq<Source>)
    requires SourcesOk(eng, srcs)
    ensures RestoredAll(cfg, CanaryOver(eng, c, EMPTY_DB), srcs) == Db(TablesOf(srcs), CanaryBack(eng, c))
  {
    var db := CanaryOver(eng, c, EMPTY_DB);
    var tables := RestoredAll(cfg, db, srcs).tables;
    CanaryStays(cfg, db, srcs);
    hide RestoredAll, TablesOf, SourceOk;
    assert db.tables == map[];
    forall name ensures name in tables <==> name in TablesOf(srcs) {
      RestoredNames(cfg, db, srcs, name);
      TablesOfMembers(srcs, name);
    }
    forall name | name in tables ensures tables[name] == TablesOf(srcs)[name] {
      RestoredNames(cfg, db, srcs, name);
      var j :| 0 <= j < |srcs| && srcs[j].name == name;
      EachLands(cfg, db, srcs, j);
      TablesOfMembers(srcs, name);
    }
    assert tables == TablesOf(srcs);
  }

  lemma RestoredNames(cfg: Cfg, db: Db, srcs: seq<Source>, name: Option<bytes>)
    requires db.tables == map[] && forall j, k :: 0 <= j < k < |srcs| ==> srcs[j].name != srcs[k].name
    requires |srcs| > 1 ==> forall j :: 0 <= j < |srcs| ==> srcs[j].name.Some?
    ensures name in RestoredAll(cfg, db, srcs).tables <==> exists j :: 0 <= j < |srcs| && srcs[j].name == name
  {
    if j :| 0 <= j < |srcs| && srcs[j].name == name {
      EachLands(cfg, db, srcs, j);
    } else if |srcs| == 1 {
      assert srcs[1..] == [];
      assert RestoredAll(cfg, db, srcs) == Restored(cfg, db, srcs[0]);
    } else {
      OthersStay(cfg, db, srcs, name);
    }
  }

  /**
   * Loading the dump of a list of tables into a new database, in either format, concise or not, with any
   * batch size and dirty limit, gives exactly these tables, and the canary as far as it comes back.
   */
  lemma DumpLoadRoundTrip(cfg: Cfg, eng: Engine, env: EnvInfo, st: Style, srcs: seq<Source>, kcap: nat)
    requires PutsSucceed(cfg, eng) && EngineOk(eng) && EnvOk(env) && srcs != [] && kcap >= 9
    requires SourcesOk(eng, srcs) && SourcesPrintable(st.format, srcs)
    ensures Load(cfg, eng, DumpText(env, true, st, srcs), kcap, EMPTY_DB)
         == Loader.Loaded(Db(TablesOf(srcs), CanaryBack(eng, env.canary)))
  {
    hide Load, DumpText, RestoredAll, TablesOf, SourceOk;
    LoadRestores(cfg, eng, env, st, srcs, kcap, EMPTY_DB);
    RestoredFromNothing(cfg, eng, env.canary, srcs);
  }

  /**
   * Of the canary, x, y and z come back exactly when v is not 0 or they are all 0; v itself comes back
   * exactly when it happens to be the number of the loading transaction, or 0 where nothing is set.
   */
  lemma CanaryComesBackIff(cfg: Cfg, eng: Engine, env: EnvInfo, st: Style, srcs: seq<Source>, kcap: nat)
    requires PutsSucceed(cfg, eng) && EngineOk(eng) && EnvOk(env) && srcs != [] && kcap >= 9
    requires SourcesOk(eng, srcs) && SourcesPrintable(st.format, srcs)
    ensures var r, c := Load(cfg, eng, DumpText(env, true, st, srcs), kcap, EMPTY_DB), env.canary;
            && r.Loaded?
            && (SameMarkers(r.db.canary, c) <==> c.v != 0 || SameMarkers(c, EMPTY_DB.canary))
            && (r.db.canary.v == c.v <==> c.v == 0 || (!SameMarkers(c, EMPTY_DB.canary) && c.v == eng.txnid))
  {
    hide Load;
    DumpLoadRoundTrip(cfg, eng, env, st, srcs, kcap);
  }

  /** A canary set in transaction 5, loaded in transaction 1, and one with no v at all. */
  lemma CanaryIsLost(cfg: Cfg, eng: Engine, env: EnvInfo, st: Style, srcs: seq<Source>, kcap: nat)
    requires PutsSucceed(cfg, eng) && EngineOk(eng) && EnvOk(env) && srcs != [] && kcap >= 9
    requires SourcesOk(eng, srcs) && SourcesPrintable(st.format, srcs) && eng.txnid == 1
    ensures var r := Load(cfg, eng, DumpText(env, true, st, srcs), kcap, EMPTY_DB);
            && r.Loaded?
            && (env.canary == Canary(5, 7, 8, 9) ==> r.db.canary == Canary(1, 7, 8, 9))
            && (env.canary == Canary(0, 7, 8, 9) ==> r.db.canary == Canary(0, 0, 0, 0))
  {
    hide Load;
    DumpLoadRoundTrip(cfg, eng, env, st, srcs, kcap);
  }

  // ---------------------------------------------------------------- loading over tables that are there (-p)

  /** Opening keeps the header's sequence unless -p empties a table that had rows. */
  lemma OpenKeepsSequenceIff(cfg: Cfg, h: Hdr, db: Db)
    requires OpenTable(cfg, h, db).Some?
    ensures OpenTable(cfg, h, db).value.tables[h.name].sequence == h.sequence
       <==> !cfg.purge || h.sequence == 0 || !Filled(db, h.name)
  {
  }

  /**
   * Loading over a database: each table has the dumped flags and rows, and the dumped sequence exactly
   * when it is 0, or nothing is purged, or the table was absent or empty.
   */
  lemma SequenceSurvivesIff(cfg: Cfg, eng: Engine, env: EnvInfo, st: Style, srcs: seq<Source>, kcap: nat, db: Db,
                            i: nat)
    requires PutsSucceed(cfg, eng) && EngineOk(eng) && EnvOk(env) && i < |srcs| && kcap >= 9
    requires SourcesOk(eng, srcs) && SourcesPrintable(st.format, srcs) && AdmitsAll(cfg, db, srcs)
    ensures var r, src := Load(cfg, eng, DumpText(env, true, st, srcs), kcap, db), srcs[i];
            && r.Loaded? && src.name in r.db.tables
            && r.db.tables[src.name].rows == src.tbl.rows && r.db.tables[src.name].flags == src.tbl.flags
            && (r.db.tables[src.name].sequence == src.tbl.sequence <==>
                  !cfg.purge || src.tbl.sequence == 0 || !Filled(db, src.name))
  {
    hide Load, DumpText, RestoredAll, SourceOk;
    LoadRestores(cfg, eng, env, st, srcs, kcap, db);
    EachLands(cfg, CanaryOver(eng, env.canary, db), srcs, i);
  }

  /** Sequence 5 loaded with -p over a table that has one row: it becomes 0. */
  lemma SequenceIsLost(cfg: Cfg, eng: Engine, env: EnvInfo, st: Style, kcap: nat)
    requires PutsSucceed(cfg, eng) && EngineOk(eng) && EnvOk(env) && kcap >= 9 && cfg.purge
    ensures var db := EMPTY_DB.(tables := map[Some("t") := Tbl({}, 3, [Row("k", "v")])]);
            var srcs := [Source(Some("t"), Tbl({}, 5, []))];
            var r := Load(cfg, eng, DumpText(env, true, st, srcs), kcap, db);
            r.Loaded? && Some("t") in r.db.tables && r.db.tables[Some("t")] == Tbl({}, 0, [])
  {
    hide Load, DumpText;
    var db := EMPTY_DB.(tables := map[Some("t") := Tbl({}, 3, [Row("k", "v")])]);
    var srcs := [Source(Some("t"), Tbl({}, 5, []))];
    assert Admits(cfg, db, srcs[0]);
    LoadRestores(cfg, eng, env, st, srcs, kcap, db);
    EachLands(cfg, CanaryOver(eng, env.canary, db), srcs, 0);
  }
}
