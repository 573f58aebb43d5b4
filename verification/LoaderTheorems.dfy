/** What the load loops guarantee on every input, not only on printed dumps. */
module LoaderTheorems {
  import opened Bytes
  import opened Codec
  import opened Readline
  import opened Header
  import opened Table
  import opened Dump
  import opened Loader
  import opened RoundTrip

  // ---------------------------------------------------------------- batches do not matter

  ghost predicate SameButBatches(a: Cfg, b: Cfg) {
    a.noOverwrite == b.noOverwrite && a.rescue == b.rescue && a.purge == b.purge
  }

  ghost predicate SameButSpace(a: Engine, b: Engine) { a.order == b.order && a.put == b.put && a.txnid == b.txnid }

  /** The same transaction up to what has been committed of it. */
  ghost predicate SameWork(a: Work, b: Work) {
    && a.s == b.s && a.key == b.key && a.data == b.data && a.kcap == b.kcap && a.dcap == b.dcap
    && a.db == b.db && a.puts == b.puts
  }

  ghost predicate SameTurn(a: Turn, b: Turn) {
    && SameWork(a.w, b.w)
    && (a.Again? <==> b.Again?) && (a.TableDone? <==> b.TableDone?)
    && (a.Left? <==> b.Left?) && (a.Abort? <==> b.Abort?)
  }

  lemma RecordSame(c1: Cfg, c2: Cfg, e1: Engine, e2: Engine, f: Format, nm: Option<bytes>, a: Work, b: Work)
    requires SameButBatches(c1, c2) && SameButSpace(e1, e2) && SameWork(a, b) && WorkOk(a, nm)
    ensures SameTurn(Record(c1, e1, f, nm, a), Record(c2, e2, f, nm, b))
  {
    hide ReadLine;
    var l := ReadLine(f, false, a.kcap, a.s);
    if l.Value? || l.Repeat? {
      RecordDataSame(c1, c2, e1, e2, f, nm, TakeKey(a, l), TakeKey(b, l));
    }
  }

  lemma OutcomeSame(c1: Cfg, c2: Cfg, e1: Engine, e2: Engine, db: Db, nm: Option<bytes>, key: bytes, n: nat)
    requires SameButBatches(c1, c2) && SameButSpace(e1, e2) && nm in db.tables
    ensures PutOutcome(c1, e1, db, nm, key, n) == PutOutcome(c2, e2, db, nm, key, n)
  {
  }

  lemma RecordDataSame(c1: Cfg, c2: Cfg, e1: Engine, e2: Engine, f: Format, nm: Option<bytes>, a: Work, b: Work)
    requires SameButBatches(c1, c2) && SameButSpace(e1, e2) && SameWork(a, b) && WorkOk(a, nm)
    ensures SameTurn(RecordData(c1, e1, f, nm, a), RecordData(c2, e2, f, nm, b))
  {
    hide ReadLine, ShouldCheckpoint, PutOutcome;
    var l := ReadLine(f, false, a.dcap, a.s);
    if l.Value? || l.Repeat? {
      var a1, b1 := TakeData(a, l), TakeData(b, l);
      OutcomeSame(c1, c2, e1, e2, a1.db, nm, a1.key, a1.puts);
      if PutOutcome(c1, e1, a1.db, nm, a1.key, a1.puts).PutOk? {
        assert SameWork(Stored(e1, nm, a1), Stored(e2, nm, b1));
        assert SameWork(Checkpointed(c1, e1, Stored(e1, nm, a1)), Checkpointed(c2, e2, Stored(e2, nm, b1)));
      }
    }
  }

  lemma {:induction false} RecordsSame(c1: Cfg, c2: Cfg, e1: Engine, e2: Engine, f: Format, nm: Option<bytes>,
                                      a: Work, b: Work)
    requires SameButBatches(c1, c2) && SameButSpace(e1, e2) && SameWork(a, b) && WorkOk(a, nm)
    ensures SameTurn(Records(c1, e1, f, nm, a), Records(c2, e2, f, nm, b))
    decreases |a.s|
  {
    hide Record;
    RecordSame(c1, c2, e1, e2, f, nm, a, b);
    var t1, t2 := Record(c1, e1, f, nm, a), Record(c2, e2, f, nm, b);
    if t1.Again? {
      RecordsSame(c1, c2, e1, e2, f, nm, t1.w, t2.w);
    }
  }

  /**
   * Whether a load succeeds, and what it then leaves in the database, does not depend on the batch size,
   * on the dirty limit or on how large the engine says its transactions are.
   */
  lemma {:induction false} BatchingIsInvisible(c1: Cfg, c2: Cfg, e1: Engine, e2: Engine, h: Hdr, s: bytes,
                                               kcap: nat, dcap: nat, saved: Db, puts: nat)
    requires SameButBatches(c1, c2) && SameButSpace(e1, e2) && kcap >= 3 && dcap >= 3
    ensures var r1, r2 := Tables(c1, e1, h, s, kcap, dcap, saved, puts), Tables(c2, e2, h, s, kcap, dcap, saved, puts);
            r1.Loaded? || r2.Loaded? ==> r1 == r2
    decreases |s|
  {
    hide Records, ReadHeader;
    var h1 := h.(global := false);
    var o := OpenTable(c1, h1, PutCanary(e1, h, saved));
    assert o == OpenTable(c2, h1, PutCanary(e2, h, saved));
    if o.Some? {
      var w := Work(s, [], [], kcap, dcap, o.value, saved, 0, puts);
      RecordsSame(c1, c2, e1, e2, FormatOf(h1), h1.name, w, w);
      var t := Records(c1, e1, FormatOf(h1), h1.name, w);
      if !t.Abort? {
        var r := ReadHeader(h1, t.w.s, t.w.dcap);
        if r.HdrOk? {
          BatchingIsInvisible(c1, c2, e1, e2, r.h, r.rest, t.w.kcap, t.w.dcap, t.w.db, t.w.puts);
        }
      }
    }
  }

  // ---------------------------------------------------------------- what a bailout loses

  function PutAll(eng: Engine, db: Db, nm: Option<bytes>, rows: seq<Row>): (r: Db)
    requires nm in db.tables
    ensures nm in r.tables
    decreases |rows|
  {
    if rows == [] then db
    else
      var before := PutAll(eng, db, nm, rows[..|rows| - 1]);
      WithTable(before, nm, PutRow(eng, before.tables[nm], rows[|rows| - 1]))
  }

  /**
   * With `done` put since the table was opened, the pending contents have all of them and the committed
   * ones exactly those in front of the last checkpoint, of which `count` rows are newer.
   */
  ghost predicate Ledger(eng: Engine, nm: Option<bytes>, db0: Db, saved0: Db, w: Work, done: seq<Row>)
    requires nm in db0.tables
  {
    && w.count <= |done| && w.db == PutAll(eng, db0, nm, done)
    && w.saved == (if w.count == |done| then saved0 else PutAll(eng, db0, nm, done[..|done| - w.count]))
  }

  ghost predicate BatchKept(cfg: Cfg, w: Work) { cfg.batch > 0 ==> w.count < cfg.batch }

  lemma LedgerStep(cfg: Cfg, eng: Engine, nm: Option<bytes>, db0: Db, saved0: Db, w: Work, done: seq<Row>)
    requires nm in db0.tables && nm in w.db.tables && Ledger(eng, nm, db0, saved0, w, done)
    ensures var w' := Checkpointed(cfg, eng, Stored(eng, nm, w));
            Ledger(eng, nm, db0, saved0, w', done + [Row(w.key, w.data)]) && BatchKept(cfg, w')
  {
    var row := Row(w.key, w.data);
    var all := done + [row];
    var w1 := Stored(eng, nm, w);
    assert all[..|all| - 1] == done;
    assert w1.db == PutAll(eng, db0, nm, all);
    if ShouldCheckpoint(cfg, eng, w1) {
      assert all[..|all|] == all;
    } else if w.count < |done| {
      assert all[..|all| - w1.count] == done[..|done| - w.count];
    }
  }

  lemma RecordKeepsLedger(cfg: Cfg, eng: Engine, f: Format, nm: Option<bytes>, db0: Db, saved0: Db,
                          w: Work, done: seq<Row>) returns (more: seq<Row>)
    requires WorkOk(w, nm) && nm in db0.tables && Ledger(eng, nm, db0, saved0, w, done) && BatchKept(cfg, w)
    ensures var t := Record(cfg, eng, f, nm, w); Ledger(eng, nm, db0, saved0, t.w, done + more) && BatchKept(cfg, t.w)
  {
    hide ReadLine, Checkpointed, Stored, ShouldCheckpoint, PutOutcome, PutAll;
    var l := ReadLine(f, false, w.kcap, w.s);
    more := [];
    assert done + more == done;
    if l.Value? || l.Repeat? {
      var w1 := TakeKey(w, l);
      var d := ReadLine(f, false, w1.dcap, w1.s);
      if d.Value? || d.Repeat? {
        var w2 := TakeData(w1, d);
        if PutOutcome(cfg, eng, w2.db, nm, w2.key, w2.puts).PutOk? {
          LedgerStep(cfg, eng, nm, db0, saved0, w2, done);
          more := [Row(w2.key, w2.data)];
        }
      }
    }
  }

  lemma {:induction false} RecordsKeepLedger(cfg: Cfg, eng: Engine, f: Format, nm: Option<bytes>, db0: Db, saved0: Db,
                                             w: Work, done: seq<Row>) returns (all: seq<Row>)
    requires WorkOk(w, nm) && nm in db0.tables && Ledger(eng, nm, db0, saved0, w, done) && BatchKept(cfg, w)
    ensures var t := Records(cfg, eng, f, nm, w); Ledger(eng, nm, db0, saved0, t.w, all) && BatchKept(cfg, t.w)
    decreases |w.s|
  {
    hide Record, Ledger, BatchKept;
    var more := RecordKeepsLedger(cfg, eng, f, nm, db0, saved0, w, done);
    var t := Record(cfg, eng, f, nm, w);
    all := done + more;
    if t.Again? {
      all := RecordsKeepLedger(cfg, eng, f, nm, db0, saved0, t.w, all);
    }
  }

  lemma LedgerStart(cfg: Cfg, eng: Engine, nm: Option<bytes>, w: Work)
    requires nm in w.db.tables && w.count == 0
    ensures Ledger(eng, nm, w.db, w.saved, w, []) && BatchKept(cfg, w)
  {
  }

  lemma LedgerMeans(cfg: Cfg, eng: Engine, nm: Option<bytes>, db0: Db, saved0: Db, w: Work, rows: seq<Row>)
    requires nm in db0.tables && Ledger(eng, nm, db0, saved0, w, rows) && BatchKept(cfg, w)
    ensures w.count <= |rows| && w.db == PutAll(eng, db0, nm, rows)
    ensures w.saved == (if w.count == |rows| then saved0 else PutAll(eng, db0, nm, rows[..|rows| - w.count]))
    ensures cfg.batch > 0 ==> w.count < cfg.batch
  {
    hide PutAll;
  }

  /**
   * When loading a table is given up, the committed contents are what was there before the table plus
   * exactly the rows put before the last checkpoint; with a batch size b fewer than b rows are lost.
   */
  lemma BailoutKeepsCheckpointed(cfg: Cfg, eng: Engine, f: Format, nm: Option<bytes>, w: Work) returns (rows: seq<Row>)
    requires WorkOk(w, nm) && w.count == 0
    ensures var t := Records(cfg, eng, f, nm, w);
            && t.w.count <= |rows| && t.w.db == PutAll(eng, w.db, nm, rows)
            && t.w.saved == (if t.w.count == |rows| then w.saved else PutAll(eng, w.db, nm, rows[..|rows| - t.w.count]))
            && (cfg.batch > 0 ==> t.w.count < cfg.batch)
  {
    hide Records, PutAll, Ledger, BatchKept;
    LedgerStart(cfg, eng, nm, w);
    rows := RecordsKeepLedger(cfg, eng, f, nm, w.db, w.saved, w, []);
    LedgerMeans(cfg, eng, nm, w.db, w.saved, Records(cfg, eng, f, nm, w).w, rows);
  }

  /** The engine never asks for a checkpoint because of space. */
  ghost predicate SpaceAmple(cfg: Cfg, eng: Engine) {
    forall n :: eng.space(n).leftover >= LEFTOVER_LIMIT && (cfg.dirtyLimit > 0 ==> eng.space(n).dirty < cfg.dirtyLimit)
  }

  /** How many of i rows are behind a checkpoint, with batches of b. */
  function Kept(b: nat, i: nat): (r: nat)
    ensures r <= i
  {
    if b == 0 then 0 else b * (i / b)
  }

  function Counted(b: nat, i: nat): nat { if b == 0 then i else i % b }

  lemma {:induction false} MultipleGrows(b: nat, q: nat, d: nat)
    ensures b * (q + d) >= b * q
    decreases d
  {
    if d > 0 {
      MultipleGrows(b, q, d - 1);
      assert b * (q + d) == b * (q + d - 1) + b;
    }
  }

  lemma QuotientDecides(b: nat, q: nat, r: nat, q': nat, r': nat)
    requires r < b
    ensures q < q' ==> b * q + r < b * q' + r'
  {
    if q < q' {
      MultipleGrows(b, q + 1, q' - q - 1);
      assert b * (q + 1) == b * q + b;
    }
  }

  lemma DivModIs(b: nat, q: nat, r: nat)
    requires r < b
    ensures (b * q + r) / b == q && (b * q + r) % b == r
  {
    var n := b * q + r;
    QuotientDecides(b, q, r, n / b, n % b);
    QuotientDecides(b, n / b, n % b, q, r);
  }

  /** One row more: it completes the batch, or it is counted. */
  lemma OneMore(b: nat, i: nat)
    requires b > 0
    ensures Counted(b, i) < b
    ensures if Counted(b, i) + 1 == b then Kept(b, i + 1) == i + 1 && Counted(b, i + 1) == 0
            else Kept(b, i + 1) == Kept(b, i) && Counted(b, i + 1) == Counted(b, i) + 1
  {
    var q, r := i / b, i % b;
    assert i == b * q + r;
    if r + 1 == b {
      assert i + 1 == b * (q + 1) + 0;
      DivModIs(b, q + 1, 0);
    } else {
      DivModIs(b, q, r + 1);
    }
  }

  /** The contents with the first rows put and checkpointed in batches. */
  ghost predicate InBatches(cfg: Cfg, eng: Engine, nm: Option<bytes>, db0: Db, saved0: Db, w: Work,
                            rows: seq<Row>, i: nat)
    requires nm in db0.tables && i <= |rows|
  {
    var kept := Kept(cfg.batch, i);
    && w.count == Counted(cfg.batch, i)
    && w.db == PutAll(eng, db0, nm, rows[..i])
    && w.saved == if kept == 0 then saved0 else PutAll(eng, db0, nm, rows[..kept])
  }

  lemma BatchStep(cfg: Cfg, eng: Engine, nm: Option<bytes>, db0: Db, saved0: Db, w: Work, rows: seq<Row>, i: nat)
    requires nm in db0.tables && nm in w.db.tables && i < |rows| && SpaceAmple(cfg, eng)
    requires InBatches(cfg, eng, nm, db0, saved0, w, rows, i) && Row(w.key, w.data) == rows[i]
    ensures InBatches(cfg, eng, nm, db0, saved0, Checkpointed(cfg, eng, Stored(eng, nm, w)), rows, i + 1)
  {
    assert rows[..i + 1][..i] == rows[..i];
    assert Stored(eng, nm, w).db == PutAll(eng, db0, nm, rows[..i + 1]);
    if cfg.batch > 0 { OneMore(cfg.batch, i); }
    hide PutAll, Kept, Counted;
    assert cfg.batch == 0 ==> Kept(cfg.batch, i) == 0 == Kept(cfg.batch, i + 1) by { NoBatches(i); NoBatches(i + 1); }
    NoBatches(i);
    NoBatches(i + 1);
  }

  lemma NoBatches(i: nat)
    ensures Kept(0, i) == 0 && Counted(0, i) == i
  {
  }

  /** The engine refuses the m-th put for good, and no other before it. */
  ghost predicate FailsAt(cfg: Cfg, eng: Engine, n: nat, m: nat) {
    && !cfg.noOverwrite
    && (forall j :: n <= j < n + m ==> eng.put(j) == PutOk)
    && (eng.put(n + m) != PutOk && (eng.put(n + m) == BadValSize ==> !cfg.rescue))
  }

  lemma {:induction false} BatchesUntilFailure(cfg: Cfg, eng: Engine, st: Style, nm: Option<bytes>, w: Work,
                                               rows: seq<Row>, i: nat, m: nat, db0: Db, saved0: Db, rest: bytes)
    requires WorkOk(w, nm) && w.kcap >= 9 && nm in db0.tables && i <= m < |rows|
    requires i <= w.puts && FailsAt(cfg, eng, w.puts - i, m) && SpaceAmple(cfg, eng)
    requires RowsPrintable(st.format, rows) && KeysFree(w.db, nm, rows) && (i > 0 ==> w.key == rows[i - 1].key)
    requires w.s == Body(st, rows[i..], Prev(rows, i)) + (DATA_END + [NL] + rest)
    requires InBatches(cfg, eng, nm, db0, saved0, w, rows, i)
    ensures var t := Records(cfg, eng, st.format, nm, w);
            t.Abort? && InBatches(cfg, eng, nm, db0, saved0, t.w, rows, m)
    decreases m - i
  {
    hide Body, Record, InBatches, Checkpointed, Stored, KeysFree, RowsPrintable, SpaceAmple;
    RowsAhead(st.format, w.db, nm, w.db.tables[nm], rows, i);
    var row, end := rows[i], DATA_END + [NL] + rest;
    assert rows[i..][0] == row && rows[i..][1..] == rows[i + 1..];
    BodySplit(st, rows[i..], Prev(rows, i), end);
    var w1 := TakeRecord(cfg, eng, st, nm, w, row, Prev(rows, i), Body(st, rows[i + 1..], Some(row.key)) + end);
    SameBatches(cfg, eng, nm, db0, saved0, w, w1, rows, i);
    if i < m {
      assert eng.put(w.puts) == PutOk;
      BatchStep(cfg, eng, nm, db0, saved0, w1, rows, i);
      var w2 := Checkpointed(cfg, eng, Stored(eng, nm, w1));
      StoredIs(cfg, eng, nm, w1, rows);
      BatchesUntilFailure(cfg, eng, st, nm, w2, rows, i + 1, m, db0, saved0, rest);
    }
  }

  lemma SameBatches(cfg: Cfg, eng: Engine, nm: Option<bytes>, db0: Db, saved0: Db, a: Work, b: Work, rows: seq<Row>,
                    i: nat)
    requires nm in db0.tables && i <= |rows| && InBatches(cfg, eng, nm, db0, saved0, a, rows, i)
    requires a.db == b.db && a.saved == b.saved && a.count == b.count
    ensures InBatches(cfg, eng, nm, db0, saved0, b, rows, i)
  {
  }

  /** What storing a row and a checkpoint leave alone. */
  lemma StoredIs(cfg: Cfg, eng: Engine, nm: Option<bytes>, w: Work, rows: seq<Row>)
    requires WorkOk(w, nm) && KeysFree(w.db, nm, rows)
    ensures var w' := Checkpointed(cfg, eng, Stored(eng, nm, w));
            && WorkOk(w', nm) && w'.s == w.s && w'.key == w.key && w'.kcap == w.kcap && w'.puts == w.puts + 1
            && KeysFree(w'.db, nm, rows)
  {
  }

  /**
   * When the put of the m-th of the printed rows fails and no checkpoint is made because of space, the
   * committed contents are those of the first b * (m / b) rows for batches of b, and none of them
   * without batches.
   */
  lemma PrintedBailoutCommits(cfg: Cfg, eng: Engine, st: Style, nm: Option<bytes>, w: Work, rows: seq<Row>, m: nat,
                              rest: bytes)
    requires WorkOk(w, nm) && w.kcap >= 9 && w.count == 0
    requires FailsAt(cfg, eng, w.puts, m) && SpaceAmple(cfg, eng)
    requires RowsPrintable(st.format, rows) && KeysFree(w.db, nm, rows)
    requires w.s == Body(st, rows, None) + (DATA_END + [NL] + rest)
    ensures var t := Records(cfg, eng, st.format, nm, w);
            m < |rows| ==>
            && t.Abort? && t.w.db == PutAll(eng, w.db, nm, rows[..m])
            && var kept := Kept(cfg.batch, m);
               t.w.saved == if kept == 0 then w.saved else PutAll(eng, w.db, nm, rows[..kept])
  {
    hide Body, Records, Kept, PutAll, InBatches;
    if m < |rows| {
      assert rows[0..] == rows;
      BatchesStart(cfg, eng, nm, w, rows);
      BatchesUntilFailure(cfg, eng, st, nm, w, rows, 0, m, w.db, w.saved, rest);
      BatchesMean(cfg, eng, nm, w.db, w.saved, Records(cfg, eng, st.format, nm, w).w, rows, m);
    }
  }

  lemma BatchesStart(cfg: Cfg, eng: Engine, nm: Option<bytes>, w: Work, rows: seq<Row>)
    requires nm in w.db.tables && w.count == 0
    ensures InBatches(cfg, eng, nm, w.db, w.saved, w, rows, 0)
  {
    NoneYet(cfg.batch);
    assert rows[..0] == [];
  }

  lemma BatchesMean(cfg: Cfg, eng: Engine, nm: Option<bytes>, db0: Db, saved0: Db, w: Work, rows: seq<Row>, i: nat)
    requires nm in db0.tables && i <= |rows| && InBatches(cfg, eng, nm, db0, saved0, w, rows, i)
    ensures w.db == PutAll(eng, db0, nm, rows[..i])
    ensures var kept := Kept(cfg.batch, i);
            w.saved == if kept == 0 then saved0 else PutAll(eng, db0, nm, rows[..kept])
  {
    hide PutAll, Kept, Counted;
  }

  lemma NoneYet(b: nat)
    ensures Kept(b, 0) == 0 && Counted(b, 0) == 0
  {
    if b > 0 { DivModIs(b, 0, 0); }
  }

  // ---------------------------------------------------------------- skipping existing records (-N)

  /** The keys that belong to records of named tables. */
  function TakenKeys(db: Db, nm: Option<bytes>): (r: set<bytes>)
    ensures forall k :: k in r <==> Taken(db, nm, k)
  {
    set n | n in db.tables && nm.None? && n.Some? :: n.value
  }

  lemma TakenStays(db: Db, nm: Option<bytes>, t: Tbl)
    requires nm in db.tables
    ensures TakenKeys(WithTable(db, nm, t), nm) == TakenKeys(db, nm)
  {
    forall k ensures k in TakenKeys(WithTable(db, nm, t), nm) <==> k in TakenKeys(db, nm) {
      assert Taken(WithTable(db, nm, t), nm, k) == Taken(db, nm, k);
    }
  }

  predicate Occurs(taken: set<bytes>, t: Tbl, key: bytes) { key in taken || HasKey(t.rows, key) }

  /** What -N is documented to do: existing records are skipped one by one. */
  function SkipExisting(eng: Engine, taken: set<bytes>, t: Tbl, rows: seq<Row>): Tbl
    decreases |rows|
  {
    if rows == [] then t
    else SkipExisting(eng, taken, if Occurs(taken, t, rows[0].key) then t else PutRow(eng, t, rows[0]), rows[1..])
  }

  /** What the loop does: it ends at the first existing record. */
  function StopAtExisting(eng: Engine, taken: set<bytes>, t: Tbl, rows: seq<Row>): Tbl
    decreases |rows|
  {
    if rows == [] || Occurs(taken, t, rows[0].key) then t
    else StopAtExisting(eng, taken, PutRow(eng, t, rows[0]), rows[1..])
  }

  lemma {:induction false} UpsertKeys(ord: Order, dup: bool, rows: seq<Row>, r: Row, key: bytes)
    ensures HasKey(Upsert(ord, dup, rows, r), key) <==> key == r.key || HasKey(rows, key)
    decreases |rows|
  {
    if rows == [] {
      assert r in [r];
    } else {
      var u := Upsert(ord, dup, rows, r);
      KeysOf(rows, key);
      if SamePlace(dup, rows[0], r) {
        KeysOf(u, key);
        assert u[1..] == rows[1..];
      } else if Before(ord, dup, rows[0], r) {
        UpsertKeys(ord, dup, rows[1..], r, key);
        KeysOf(u, key);
        assert u[1..] == Upsert(ord, dup, rows[1..], r);
      } else {
        KeysOf(u, key);
        assert u[1..] == rows;
      }
    }
  }

  lemma KeysOf(rows: seq<Row>, key: bytes)
    requires rows != []
    ensures HasKey(rows, key) <==> rows[0].key == key || HasKey(rows[1..], key)
  {
    assert rows == [rows[0]] + rows[1..];
    if HasKey(rows, key) {
      var r :| r in rows && r.key == key;
      assert r == rows[0] || r in rows[1..];
    }
  }

  /** The i-th row's key is in the table already, or in an earlier row. */
  predicate Existing(taken: set<bytes>, t: Tbl, rows: seq<Row>, i: nat)
    requires i < |rows|
  {
    Occurs(taken, t, rows[i].key) || HasKey(rows[..i], rows[i].key)
  }

  /** No new record behind an existing one: something that can be checked before loading. */
  ghost predicate NewOnesFirst(taken: set<bytes>, t: Tbl, rows: seq<Row>) {
    forall i, j :: 0 <= i < j < |rows| && Existing(taken, t, rows, i) ==> Existing(taken, t, rows, j)
  }

  lemma ExistingTail(eng: Engine, taken: set<bytes>, t: Tbl, rows: seq<Row>, i: nat)
    requires 0 < i < |rows|
    ensures Existing(taken, t, rows, i) <==> Existing(taken, PutRow(eng, t, rows[0]), rows[1..], i - 1)
  {
    UpsertKeys(eng.order(t.flags), HasDups(t), t.rows, rows[0], rows[i].key);
    KeysOf(rows[..i], rows[i].key);
    assert rows[..i][1..] == rows[1..][..i - 1];
  }

  /** A key that is in the table stays in it, and one that is skipped changes nothing. */
  lemma {:induction false} SkipAddsKey(eng: Engine, taken: set<bytes>, t: Tbl, rows: seq<Row>, key: bytes)
    requires key !in taken
    ensures HasKey(SkipExisting(eng, taken, t, rows).rows, key) <==> HasKey(t.rows, key) || HasKey(rows, key)
    decreases |rows|
  {
    if rows != [] {
      var t1 := if Occurs(taken, t, rows[0].key) then t else PutRow(eng, t, rows[0]);
      UpsertKeys(eng.order(t.flags), HasDups(t), t.rows, rows[0], key);
      KeysOf(rows, key);
      SkipAddsKey(eng, taken, t1, rows[1..], key);
    }
  }

  lemma {:induction false} SkipNothing(eng: Engine, taken: set<bytes>, t: Tbl, rows: seq<Row>)
    requires forall i :: 0 <= i < |rows| ==> Occurs(taken, t, rows[i].key)
    ensures SkipExisting(eng, taken, t, rows) == t
    decreases |rows|
  {
    if rows != [] { SkipNothing(eng, taken, t, rows[1..]); }
  }

  /** Stopping agrees with skipping exactly when no new record stands behind an existing one. */
  lemma {:induction false} StopIsSkipIff(eng: Engine, taken: set<bytes>, t: Tbl, rows: seq<Row>)
    ensures StopAtExisting(eng, taken, t, rows) == SkipExisting(eng, taken, t, rows) <==> NewOnesFirst(taken, t, rows)
    decreases |rows|
  {
    if rows == [] {
    } else if Occurs(taken, t, rows[0].key) {
      assert Existing(taken, t, rows, 0);
      if NewOnesFirst(taken, t, rows) {
        forall i | 0 <= i < |rows| ensures Occurs(taken, t, rows[i].key) { ExistingMeansKey(taken, t, rows, i); }
        SkipNothing(eng, taken, t, rows);
      } else {
        var i, j :| 0 <= i < j < |rows| && Existing(taken, t, rows, i) && !Existing(taken, t, rows, j);
        SkipAddsKey(eng, taken, t, rows, rows[j].key);
        assert rows[j] in rows;
      }
    } else {
      var t1 := PutRow(eng, t, rows[0]);
      StopIsSkipIff(eng, taken, t1, rows[1..]);
      NewOnesFirstTail(eng, taken, t, rows);
    }
  }

  lemma {:induction false} ExistingMeansKey(taken: set<bytes>, t: Tbl, rows: seq<Row>, i: nat)
    requires i < |rows| && forall j :: 0 <= j <= i ==> Existing(taken, t, rows, j)
    ensures Occurs(taken, t, rows[i].key)
    decreases i
  {
    if HasKey(rows[..i], rows[i].key) {
      var r :| r in rows[..i] && r.key == rows[i].key;
      var m :| 0 <= m < i && rows[m] == r;
      ExistingMeansKey(taken, t, rows, m);
    } else {
      assert Existing(taken, t, rows, i);
    }
  }

  lemma NewOnesFirstTail(eng: Engine, taken: set<bytes>, t: Tbl, rows: seq<Row>)
    requires rows != [] && !Occurs(taken, t, rows[0].key)
    ensures NewOnesFirst(taken, t, rows) <==> NewOnesFirst(taken, PutRow(eng, t, rows[0]), rows[1..])
  {
    var t1, tail := PutRow(eng, t, rows[0]), rows[1..];
    assert !Existing(taken, t, rows, 0);
    forall i | 0 < i < |rows| ensures Existing(taken, t, rows, i) <==> Existing(taken, t1, tail, i - 1) {
      ExistingTail(eng, taken, t, rows, i);
    }
    if NewOnesFirst(taken, t1, tail) {
      forall i, j | 0 <= i < j < |rows| && Existing(taken, t, rows, i) ensures Existing(taken, t, rows, j) {
        assert i > 0;
        assert Existing(taken, t1, tail, i - 1);
        assert Existing(taken, t1, tail, j - 1);
      }
    }
    if NewOnesFirst(taken, t, rows) {
      forall i, j | 0 <= i < j < |tail| && Existing(taken, t1, tail, i) ensures Existing(taken, t1, tail, j) {
        assert Existing(taken, t, rows, i + 1);
        assert Existing(taken, t, rows, j + 1);
      }
    }
  }

  /** On a printed table the record loop with -N does stop at the first existing record. */
  lemma {:induction false} NoOverwriteStops(cfg: Cfg, eng: Engine, st: Style, nm: Option<bytes>, w: Work,
                                            rows: seq<Row>, prev: Option<bytes>, rest: bytes)
    requires WorkOk(w, nm) && w.kcap >= 9 && cfg.noOverwrite && (forall n :: eng.put(n) == PutOk)
    requires RowsPrintable(st.format, rows) && (prev.Some? ==> w.key == prev.value)
    requires w.s == Body(st, rows, prev) + (DATA_END + [NL] + rest)
    ensures var t, taken := Records(cfg, eng, st.format, nm, w), TakenKeys(w.db, nm);
            && !t.Abort? && t.w.db == WithTable(w.db, nm, StopAtExisting(eng, taken, w.db.tables[nm], rows))
            && (t.Left? <==> exists i :: 0 <= i < |rows| && Existing(taken, w.db.tables[nm], rows, i))
    decreases |rows|
  {
    hide Body, Record;
    var t, taken := w.db.tables[nm], TakenKeys(w.db, nm);
    if rows == [] {
      NoMoreRecords(cfg, eng, st, nm, w, prev, rest);
    } else {
      var row := rows[0];
      var end := DATA_END + [NL] + rest;
      BodySplit(st, rows, prev, end);
      var w1 := TakeRecord(cfg, eng, st, nm, w, row, prev, Body(st, rows[1..], Some(row.key)) + end);
      if Occurs(taken, t, row.key) {
        assert Existing(taken, t, rows, 0);
        assert WithTable(w.db, nm, t) == w.db;
      } else {
        var w2 := Checkpointed(cfg, eng, Stored(eng, nm, w1));
        var t1 := PutRow(eng, t, row);
        assert w2.db == WithTable(w.db, nm, t1);
        TakenStays(w.db, nm, t1);
        assert RowsPrintable(st.format, rows[1..]);
        NoOverwriteStops(cfg, eng, st, nm, w2, rows[1..], Some(row.key), rest);
        WithTableTwice(w.db, nm, t1, StopAtExisting(eng, taken, t1, rows[1..]));
        ExistsTail(eng, taken, t, rows);
      }
    }
  }

  lemma ExistsTail(eng: Engine, taken: set<bytes>, t: Tbl, rows: seq<Row>)
    requires rows != [] && !Occurs(taken, t, rows[0].key)
    ensures (exists i :: 0 <= i < |rows| && Existing(taken, t, rows, i))
       <==> (exists i :: 0 <= i < |rows[1..]| && Existing(taken, PutRow(eng, t, rows[0]), rows[1..], i))
  {
    var t1, tail := PutRow(eng, t, rows[0]), rows[1..];
    assert !Existing(taken, t, rows, 0);
    if i :| 0 <= i < |rows| && Existing(taken, t, rows, i) {
      ExistingTail(eng, taken, t, rows, i);
      assert Existing(taken, t1, tail, i - 1);
    }
    if i :| 0 <= i < |tail| && Existing(taken, t1, tail, i) {
      ExistingTail(eng, taken, t, rows, i + 1);
      assert Existing(taken, t, rows, i + 1);
    }
  }

  /**
   * So with -N the rows of a dumped table end up as documented if and only if no new record stands behind
   * an existing one; otherwise the new ones behind it are silently lost.
   */
  lemma NoOverwriteMeetsItsDocIff(cfg: Cfg, eng: Engine, st: Style, nm: Option<bytes>, w: Work, rows: seq<Row>,
                                  rest: bytes)
    requires WorkOk(w, nm) && w.kcap >= 9 && cfg.noOverwrite && (forall n :: eng.put(n) == PutOk)
    requires RowsPrintable(st.format, rows) && w.s == Body(st, rows, None) + (DATA_END + [NL] + rest)
    ensures var taken := TakenKeys(w.db, nm);
            Records(cfg, eng, st.format, nm, w).w.db
              == WithTable(w.db, nm, SkipExisting(eng, taken, w.db.tables[nm], rows))
            <==> NewOnesFirst(taken, w.db.tables[nm], rows)
  {
    hide Records, Body;
    var t, taken := w.db.tables[nm], TakenKeys(w.db, nm);
    NoOverwriteStops(cfg, eng, st, nm, w, rows, None, rest);
    StopIsSkipIff(eng, taken, t, rows);
    var stop, skip := StopAtExisting(eng, taken, t, rows), SkipExisting(eng, taken, t, rows);
    assert WithTable(w.db, nm, stop).tables[nm] == stop && WithTable(w.db, nm, skip).tables[nm] == skip;
  }

  /** A table where the documentation fails: the second of three rows exists already, and the third is lost. */
  lemma NoOverwriteLosesRows(eng: Engine)
    ensures var present := Row("b", "0");
            var t := Tbl({}, 0, [present]);
            var rows := [Row("a", "1"), Row("b", "2"), Row("c", "3")];
            && !HasKey(StopAtExisting(eng, {}, t, rows).rows, "c")
            && HasKey(SkipExisting(eng, {}, t, rows).rows, "c")
  {
    var present := Row("b", "0");
    var t := Tbl({}, 0, [present]);
    var rows := [Row("a", "1"), Row("b", "2"), Row("c", "3")];
    var t1 := PutRow(eng, t, rows[0]);
    assert present in t.rows;
    UpsertKeys(eng.order(t.flags), HasDups(t), t.rows, rows[0], "b");
    UpsertKeys(eng.order(t.flags), HasDups(t), t.rows, rows[0], "c");
    assert rows[1..][0] == rows[1];
    assert StopAtExisting(eng, {}, t1, rows[1..]) == t1;
    assert StopAtExisting(eng, {}, t, rows) == t1;
    assert rows[2] in rows;
    SkipAddsKey(eng, {}, t, rows, "c");
  }
}
