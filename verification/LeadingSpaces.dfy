/**
 * In print format nothing that begins with a space is ever loaded from a dump, so a dump gives the tables
 * back only if they hold nothing of the kind.
 */
module LeadingSpaces {
  import opened Bytes
  import opened Codec
  import opened Readline
  import opened Header
  import opened Table
  import opened Dump
  import opened Loader
  import opened RoundTrip

  // ---------------------------------------------------------------- printed text as values

  /** Printed values, one to a line. */
  function Lines(vs: seq<bytes>): bytes {
    if vs == [] then [] else EncodeValue(Print, vs[0]) + Lines(vs[1..])
  }

  /**
   * The records as lines: the space in place of a repeated key stands in front of the datum's line, as if
   * the datum began with it.
   */
  function Values(concise: bool, rows: seq<Row>, prev: Option<bytes>): seq<bytes> {
    if rows == [] then []
    else
      (if concise && prev == Some(rows[0].key) then [[SP] + rows[0].data] else [rows[0].key, rows[0].data])
      + Values(concise, rows[1..], Some(rows[0].key))
  }

  lemma SpaceInFront(v: bytes)
    ensures EncodeValue(Print, [SP] + v) == [SP] + EncodeValue(Print, v)
  {
    var u: bytes := [SP] + v;
    assert u[0] == SP && u[1..] == v;
    assert EncodeBytes(Print, u) == [SP] + EncodeBytes(Print, v);
    Assoc([SP], EncodeBytes(Print, u), [NL]);
  }

  lemma {:induction false} BodyIsLines(st: Style, rows: seq<Row>, prev: Option<bytes>)
    requires st.format.Print?
    ensures Body(st, rows, prev) == Lines(Values(st.concise, rows, prev))
    decreases |rows|
  {
    if rows != [] {
      var row, vs := rows[0], Values(st.concise, rows[1..], Some(rows[0].key));
      BodyIsLines(st, rows[1..], Some(row.key));
      hide EncodeValue, Body;
      if st.concise && prev == Some(row.key) {
        SpaceInFront(row.data);
        var u: bytes := [SP] + row.data;
        assert ([u] + vs)[1..] == vs;
        Assoc([SP], EncodeValue(Print, row.data), Lines(vs));
        assert Lines([u] + vs) == [SP] + (EncodeValue(Print, row.data) + Lines(vs));
        assert Values(st.concise, rows, prev) == [u] + vs;
      } else {
        assert ([row.key, row.data] + vs)[1..] == [row.data] + vs && ([row.data] + vs)[1..] == vs;
        assert Lines([row.data] + vs) == EncodeValue(Print, row.data) + Lines(vs);
        assert Values(st.concise, rows, prev) == [row.key, row.data] + vs;
      }
      BodyOnce(st, rows, prev);
    }
  }

  lemma BodyOnce(st: Style, rows: seq<Row>, prev: Option<bytes>)
    requires rows != []
    ensures Body(st, rows, prev) ==
              (if st.concise && prev == Some(rows[0].key) then [SP] else EncodeValue(st.format, rows[0].key))
              + (EncodeValue(st.format, rows[0].data) + Body(st, rows[1..], Some(rows[0].key)))
  {
  }

  // ---------------------------------------------------------------- reading

  /** A call on lines yields the first value, or takes one leading space off it. */
  lemma ReadFront(vs: seq<bytes>, end: bytes, cap: nat) returns (vs': seq<bytes>)
    requires vs != [] && cap >= 3
    ensures var l := ReadLine(Print, false, cap, Lines(vs) + end);
            && (l.Value? || l.Repeat?) && l.rest == Lines(vs') + end
            && (l.Value? ==> Printable(Print, l.v) && l.cap >= cap)
  {
    var v, more := vs[0], Lines(vs[1..]) + end;
    hide ReadLine, EncodeValue;
    Assoc(EncodeValue(Print, v), Lines(vs[1..]), end);
    if Printable(Print, v) {
      ReadPrinted(Print, cap, v, more);
      vs' := vs[1..];
    } else {
      var u := v[1..];
      ReadPrintedSpace(cap, v, more);
      ShorterLine(v, more);
      vs' := [u] + vs[1..];
      assert vs'[1..] == vs[1..];
      Assoc(EncodeValue(Print, u), Lines(vs[1..]), end);
    }
  }

  lemma ShorterLine(v: bytes, more: bytes)
    requires v != [] && v[0] == SP
    ensures EncodeBytes(Print, v) + [NL] + more == EncodeValue(Print, v[1..]) + more
  {
    assert v == [SP] + v[1..];
    assert EncodeBytes(Print, v) == [SP] + EncodeBytes(Print, v[1..]);
    Assoc([SP], EncodeBytes(Print, v[1..]), [NL]);
  }

  ghost predicate Unspaced(rows: seq<Row>) {
    forall r :: r in rows ==> Printable(Print, r.key) && Printable(Print, r.data)
  }

  ghost predicate AllUnspaced(db: Db) {
    forall n :: n in db.tables ==> Unspaced(db.tables[n].rows)
  }

  lemma {:induction false} UpsertUnspaced(ord: Order, dup: bool, rows: seq<Row>, r: Row)
    requires Unspaced(rows) && Unspaced([r])
    ensures Unspaced(Upsert(ord, dup, rows, r))
    decreases |rows|
  {
    assert r in [r];
    if rows != [] {
      assert rows[0] in rows && forall x :: x in rows[1..] ==> x in rows;
      UpsertUnspaced(ord, dup, rows[1..], r);
    }
  }

  /** A transaction that has seen nothing but printed lines. */
  ghost predicate Clean(w: Work, nm: Option<bytes>, vs: seq<bytes>, rest: bytes) {
    && WorkOk(w, nm) && w.kcap >= 9 && w.s == Lines(vs) + (DATA_END + [NL] + rest)
    && Printable(Print, w.key) && Printable(Print, w.data) && AllUnspaced(w.db)
  }

  lemma StoredUnspaced(eng: Engine, nm: Option<bytes>, w: Work)
    requires nm in w.db.tables && AllUnspaced(w.db) && Printable(Print, w.key) && Printable(Print, w.data)
    ensures var w' := Stored(eng, nm, w);
            AllUnspaced(w'.db) && nm in w'.db.tables && w' == w.(db := w'.db, count := w.count + 1, puts := w.puts + 1)
  {
    hide Upsert;
    var t := w.db.tables[nm];
    UpsertUnspaced(eng.order(t.flags), HasDups(t), t.rows, Row(w.key, w.data));
  }

  lemma OutcomeIs(cfg: Cfg, eng: Engine, db: Db, nm: Option<bytes>, key: bytes, n: nat)
    requires PutsSucceed(cfg, eng) && nm in db.tables
    ensures PutOutcome(cfg, eng, db, nm, key, n).PutOk? || PutOutcome(cfg, eng, db, nm, key, n).PutFailed?
  {
  }

  lemma DatumClean(cfg: Cfg, eng: Engine, nm: Option<bytes>, w: Work, vs: seq<bytes>, rest: bytes)
    returns (vs': seq<bytes>)
    requires PutsSucceed(cfg, eng) && Clean(w, nm, vs, rest)
    ensures var t := RecordData(cfg, eng, Print, nm, w);
            t.Abort? || (t.Again? && Clean(t.w, nm, vs', rest) && t.w.kcap >= w.kcap && t.w.dcap >= w.dcap)
  {
    hide ReadLine, ShouldCheckpoint, Upsert;
    var end := DATA_END + [NL] + rest;
    vs' := [];
    if vs == [] {
      assert w.s == end;
      ReadEndData(w.dcap, rest);
    } else {
      vs' := ReadFront(vs, end, w.dcap);
      var w1 := TakeData(w, ReadLine(Print, false, w.dcap, w.s));
      StoredUnspaced(eng, nm, w1);
      hide Stored, PutOutcome, AllUnspaced, Printable;
      OutcomeIs(cfg, eng, w1.db, nm, w1.key, w1.puts);
    }
  }

  /** Where a datum is expected, the end mark is no value. */
  lemma ReadEndData(cap: nat, rest: bytes)
    requires cap >= 3
    ensures var l := ReadLine(Print, false, cap, DATA_END + [NL] + rest); l.DataEnd? || l.Bad?
  {
    var s := DATA_END + [NL] + rest;
    assert s[0] == 'D';
  }

  lemma RecordClean(cfg: Cfg, eng: Engine, nm: Option<bytes>, w: Work, vs: seq<bytes>, rest: bytes)
    returns (vs': seq<bytes>)
    requires PutsSucceed(cfg, eng) && Clean(w, nm, vs, rest)
    ensures var t := Record(cfg, eng, Print, nm, w);
            || t.Abort?
            || (t.TableDone? && t.w == w.(s := rest))
            || (t.Again? && Clean(t.w, nm, vs', rest) && t.w.kcap >= w.kcap && t.w.dcap >= w.dcap)
  {
    hide ReadLine, RecordData;
    var end := DATA_END + [NL] + rest;
    vs' := [];
    if vs == [] {
      assert w.s == end;
      ReadEnd(Print, w.kcap, rest);
    } else {
      vs' := ReadFront(vs, end, w.kcap);
      var w1 := TakeKey(w, ReadLine(Print, false, w.kcap, w.s));
      vs' := DatumClean(cfg, eng, nm, w1, vs', rest);
    }
  }

  /**
   * The record loop on printed lines gives up, or ends at the end mark with nothing loaded that begins with
   * a space.
   */
  lemma {:induction false} RecordsClean(cfg: Cfg, eng: Engine, nm: Option<bytes>, w: Work, vs: seq<bytes>, rest: bytes)
    requires PutsSucceed(cfg, eng) && Clean(w, nm, vs, rest)
    ensures var t := Records(cfg, eng, Print, nm, w);
            || t.Abort?
            || (t.TableDone? && t.w.s == rest && AllUnspaced(t.w.db) && t.w.kcap >= w.kcap && t.w.dcap >= w.dcap)
    decreases |w.s|
  {
    hide Record;
    var vs' := RecordClean(cfg, eng, nm, w, vs, rest);
    var t := Record(cfg, eng, Print, nm, w);
    if t.Again? { RecordsClean(cfg, eng, nm, t.w, vs', rest); }
  }

  // ---------------------------------------------------------------- tables

  lemma OpenUnspaced(cfg: Cfg, h: Hdr, db: Db)
    requires AllUnspaced(db)
    ensures var o := OpenTable(cfg, h, db); o.Some? ==> AllUnspaced(o.value)
  {
  }

  lemma {:induction false} TablesUnspaced(cfg: Cfg, eng: Engine, env: EnvInfo, st: Style, srcs: seq<Source>, h: Hdr,
                                          s: bytes, kcap: nat, dcap: nat, saved: Db, puts: nat)
    requires PutsSucceed(cfg, eng) && EnvOk(env) && st.format.Print? && srcs != [] && SourcesOk(eng, srcs)
    requires kcap >= 9 && dcap >= LINE_BUFFER && h.pagesize == env.pagesize && ReadyFor(h, st, srcs[0])
    requires AllUnspaced(saved)
    requires s == Body(BodyStyle(st, srcs[0].tbl), srcs[0].tbl.rows, None)
                  + (DATA_END + [NL] + DumpText(env, false, st, srcs[1..]))
    ensures var r := Tables(cfg, eng, h, s, kcap, dcap, saved, puts); r.Loaded? ==> AllUnspaced(r.db)
    decreases |srcs|
  {
    hide Records, DumpText, Body, HeaderText, ReadHeader, OpenTable, SourceOk, Values, Lines, AllUnspaced;
    var h1 := h.(global := false);
    var rest := DumpText(env, false, st, srcs[1..]);
    SameTables(eng, h, saved);
    OpenUnspaced(cfg, h1, PutCanary(eng, h, saved));
    var o := OpenTable(cfg, h1, PutCanary(eng, h, saved));
    if o.Some? {
      var w := Work(s, [], [], kcap, dcap, o.value, saved, 0, puts);
      var concise := BodyStyle(st, srcs[0].tbl).concise;
      BodyIsLines(BodyStyle(st, srcs[0].tbl), srcs[0].tbl.rows, None);
      RecordsClean(cfg, eng, h1.name, w, Values(concise, srcs[0].tbl.rows, None), rest);
      var t := Records(cfg, eng, Print, h1.name, w);
      if t.TableDone? {
        if |srcs| > 1 {
          var next := srcs[1];
          NextTable(env, st, srcs[1..]);
          assert srcs[1..][1..] == srcs[2..];
          var body := Body(BodyStyle(st, next.tbl), next.tbl.rows, None)
                      + (DATA_END + [NL] + DumpText(env, false, st, srcs[2..]));
          HeaderAhead(h1, eng, env, false, st, next, body, t.w.dcap);
          var h2 := ReadHeader(h1, t.w.s, t.w.dcap).h;
          TablesUnspaced(cfg, eng, env, st, srcs[1..], h2, body, t.w.kcap, t.w.dcap, t.w.db, t.w.puts);
        } else {
          assert srcs[1..] == [];
          DumpOfNothing(env, st, h1, t.w);
        }
      }
    }
  }

  lemma SameTables(eng: Engine, h: Hdr, db: Db)
    ensures AllUnspaced(PutCanary(eng, h, db)) <==> AllUnspaced(db)
  {
  }

  lemma LoadUnspaced(cfg: Cfg, eng: Engine, env: EnvInfo, st: Style, srcs: seq<Source>, kcap: nat)
    requires PutsSucceed(cfg, eng) && EnvOk(env) && st.format.Print? && srcs != [] && SourcesOk(eng, srcs) && kcap >= 9
    ensures var r := Load(cfg, eng, DumpText(env, true, st, srcs), kcap, EMPTY_DB); r.Loaded? ==> AllUnspaced(r.db)
  {
    hide Tables, HeaderText, ReadHeader, Body, DumpText, SourceOk;
    var src := srcs[0];
    var body := Body(BodyStyle(st, src.tbl), src.tbl.rows, None)
                + (DATA_END + [NL] + DumpText(env, false, st, srcs[1..]));
    NextTable(env, st, srcs);
    HeaderAhead(INITIAL, eng, env, true, st, src, body, LINE_BUFFER);
    var h := ReadHeader(INITIAL, DumpText(env, true, st, srcs), LINE_BUFFER).h;
    TablesUnspaced(cfg, eng, env, st, srcs, h, body, kcap, LINE_BUFFER, EMPTY_DB, 0);
  }

  /**
   * A dump loaded into a new database gives the tables back if and only if it is in bytevalue format, or
   * no key and no datum begins with a space.
   */
  lemma RoundTripIff(cfg: Cfg, eng: Engine, env: EnvInfo, st: Style, srcs: seq<Source>, kcap: nat)
    requires PutsSucceed(cfg, eng) && EngineOk(eng) && EnvOk(env) && srcs != [] && SourcesOk(eng, srcs) && kcap >= 9
    ensures Load(cfg, eng, DumpText(env, true, st, srcs), kcap, EMPTY_DB)
              == Loader.Loaded(Db(TablesOf(srcs), CanaryBack(eng, env.canary)))
       <==> SourcesPrintable(st.format, srcs)
  {
    hide Load, DumpText, TablesOf, SourceOk, CanaryBack;
    if SourcesPrintable(st.format, srcs) {
      DumpLoadRoundTrip(cfg, eng, env, st, srcs, kcap);
    } else {
      var i :| 0 <= i < |srcs| && !RowsPrintable(st.format, srcs[i].tbl.rows);
      LoadUnspaced(cfg, eng, env, st, srcs, kcap);
      TablesOfMembers(srcs, srcs[i].name);
      assert srcs[i].name in TablesOf(srcs) && TablesOf(srcs)[srcs[i].name] == srcs[i].tbl;
      SpacedRow(srcs[i].tbl.rows);
    }
  }

  lemma SpacedRow(rows: seq<Row>)
    requires !RowsPrintable(Print, rows)
    ensures !Unspaced(rows)
  {
    var i :| 0 <= i < |rows| && !(Printable(Print, rows[i].key) && Printable(Print, rows[i].data));
    assert rows[i] in rows;
  }
}
