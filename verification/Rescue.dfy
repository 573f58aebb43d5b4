/** mdbx_load -r: what becomes of the records behind one whose size the engine refuses. */
module Rescue {
  import opened Bytes
  import opened Codec
  import opened Readline
  import opened Header
  import opened Table
  import opened Dump
  import opened Loader
  import opened RoundTrip

  /** The engine refuses the size of the i-th row, when n puts have been made before the first. */
  predicate Refused(eng: Engine, n: nat, i: nat) { eng.put(n + i) == BadValSize }

  /** What the message "skip line" announces: refused rows are skipped one by one. */
  function SkipRefused(eng: Engine, t: Tbl, rows: seq<Row>, n: nat): Tbl
    decreases |rows|
  {
    if rows == [] then t
    else SkipRefused(eng, if Refused(eng, n, 0) then t else PutRow(eng, t, rows[0]), rows[1..], n + 1)
  }

  /** What the loop does: it ends at the first refused row. */
  function StopAtRefused(eng: Engine, t: Tbl, rows: seq<Row>, n: nat): Tbl
    decreases |rows|
  {
    if rows == [] || Refused(eng, n, 0) then t
    else StopAtRefused(eng, PutRow(eng, t, rows[0]), rows[1..], n + 1)
  }

  /** Each accepted row behind a refused one is in the table before loading. */
  ghost predicate NothingNewBehind(eng: Engine, t: Tbl, rows: seq<Row>, n: nat) {
    forall i, j :: 0 <= i < j < |rows| && Refused(eng, n, i) && !Refused(eng, n, j) ==> rows[j] in t.rows
  }

  ghost predicate InOrder(eng: Engine, t: Tbl, rows: seq<Row>) {
    EngineOk(eng) && SortedFor(eng, t.flags, t.rows) && SortedFor(eng, t.flags, rows)
  }

  lemma PutInOrder(eng: Engine, t: Tbl, rows: seq<Row>)
    requires rows != [] && InOrder(eng, t, rows)
    ensures InOrder(eng, t, rows[1..]) && InOrder(eng, PutRow(eng, t, rows[0]), rows[1..])
    ensures rows[0] in PutRow(eng, t, rows[0]).rows
    ensures forall j :: 0 < j < |rows| ==> (rows[j] in PutRow(eng, t, rows[0]).rows <==> rows[j] in t.rows)
  {
    var ord, dup := eng.order(t.flags), HasDups(t);
    UpsertIsPut(ord, dup, t.rows, rows[0]);
    SortedTail(ord, dup, rows);
    forall j | 0 < j < |rows| ensures !SamePlace(dup, rows[j], rows[0]) {
      assert Before(ord, dup, rows[0], rows[j]);
      BeforeTotal(ord, dup, rows[0], rows[j]);
    }
  }

  /** A row stays in the table if none of those put hits its place. */
  lemma {:induction false} SkipKeeps(eng: Engine, t: Tbl, rows: seq<Row>, n: nat, x: Row)
    requires InOrder(eng, t, rows) && x in t.rows
    requires forall i :: 0 <= i < |rows| ==> !SamePlace(HasDups(t), x, rows[i])
    ensures x in SkipRefused(eng, t, rows, n).rows
    decreases |rows|
  {
    if rows != [] {
      PutInOrder(eng, t, rows);
      UpsertIsPut(eng.order(t.flags), HasDups(t), t.rows, rows[0]);
      SkipKeeps(eng, if Refused(eng, n, 0) then t else PutRow(eng, t, rows[0]), rows[1..], n + 1, x);
    }
  }

  /** Skipping stores every accepted row. */
  lemma {:induction false} SkipStores(eng: Engine, t: Tbl, rows: seq<Row>, n: nat, j: nat)
    requires InOrder(eng, t, rows) && j < |rows| && !Refused(eng, n, j)
    ensures rows[j] in SkipRefused(eng, t, rows, n).rows
    decreases |rows|
  {
    PutInOrder(eng, t, rows);
    if j == 0 {
      forall i | 0 <= i < |rows[1..]| ensures !SamePlace(HasDups(t), rows[0], rows[1..][i]) {
        assert Before(eng.order(t.flags), HasDups(t), rows[0], rows[i + 1]);
        BeforeTotal(eng.order(t.flags), HasDups(t), rows[0], rows[i + 1]);
      }
      SkipKeeps(eng, PutRow(eng, t, rows[0]), rows[1..], n + 1, rows[0]);
    } else {
      SkipStores(eng, if Refused(eng, n, 0) then t else PutRow(eng, t, rows[0]), rows[1..], n + 1, j - 1);
    }
  }

  lemma {:induction false} SkipNothing(eng: Engine, t: Tbl, rows: seq<Row>, n: nat)
    requires InOrder(eng, t, rows)
    requires forall j :: 0 <= j < |rows| && !Refused(eng, n, j) ==> rows[j] in t.rows
    ensures SkipRefused(eng, t, rows, n) == t
    decreases |rows|
  {
    if rows != [] {
      PutInOrder(eng, t, rows);
      if !Refused(eng, n, 0) { UpsertStored(eng.order(t.flags), HasDups(t), t.rows, rows[0]); }
      forall j | 0 <= j < |rows[1..]| && !Refused(eng, n + 1, j) ensures rows[1..][j] in t.rows {
        assert !Refused(eng, n, j + 1);
      }
      SkipNothing(eng, t, rows[1..], n + 1);
    }
  }

  lemma NothingNewTail(eng: Engine, t: Tbl, rows: seq<Row>, n: nat)
    requires rows != [] && InOrder(eng, t, rows) && !Refused(eng, n, 0)
    ensures NothingNewBehind(eng, t, rows, n) <==> NothingNewBehind(eng, PutRow(eng, t, rows[0]), rows[1..], n + 1)
  {
    var t1, tail, m := PutRow(eng, t, rows[0]), rows[1..], n + 1;
    PutInOrder(eng, t, rows);
    hide PutRow;
    if NothingNewBehind(eng, t, rows, n) {
      forall i, j | 0 <= i < j < |tail| && Refused(eng, m, i) && !Refused(eng, m, j) ensures tail[j] in t1.rows {
        assert Refused(eng, n, i + 1) && !Refused(eng, n, j + 1);
      }
    }
    if NothingNewBehind(eng, t1, tail, n + 1) {
      forall i, j | 0 <= i < j < |rows| && Refused(eng, n, i) && !Refused(eng, n, j) ensures rows[j] in t.rows {
        assert Refused(eng, n + 1, i - 1) && !Refused(eng, n + 1, j - 1) && tail[j - 1] == rows[j];
      }
    }
  }

  /** Stopping agrees with skipping exactly when no new row stands behind a refused one. */
  lemma {:induction false} StopIsSkipIff(eng: Engine, t: Tbl, rows: seq<Row>, n: nat)
    requires InOrder(eng, t, rows)
    ensures StopAtRefused(eng, t, rows, n) == SkipRefused(eng, t, rows, n) <==> NothingNewBehind(eng, t, rows, n)
    decreases |rows|
  {
    if rows == [] {
    } else if Refused(eng, n, 0) {
      if NothingNewBehind(eng, t, rows, n) {
        forall j | 0 <= j < |rows| && !Refused(eng, n, j) ensures rows[j] in t.rows {
          assert Refused(eng, n, 0) && j > 0;
        }
        SkipNothing(eng, t, rows, n);
      } else {
        var i, j :| 0 <= i < j < |rows| && Refused(eng, n, i) && !Refused(eng, n, j) && rows[j] !in t.rows;
        SkipStores(eng, t, rows, n, j);
      }
    } else {
      PutInOrder(eng, t, rows);
      NothingNewTail(eng, t, rows, n);
      StopIsSkipIff(eng, PutRow(eng, t, rows[0]), rows[1..], n + 1);
    }
  }

  /** Only the size of a row is ever refused. */
  ghost predicate OnlySizes(cfg: Cfg, eng: Engine) {
    !cfg.noOverwrite && cfg.rescue && forall n :: eng.put(n) == PutOk || eng.put(n) == BadValSize
  }

  /** On a printed table the record loop with -r does end at the first refused record. */
  lemma {:induction false} RescueStops(cfg: Cfg, eng: Engine, st: Style, nm: Option<bytes>, w: Work, rows: seq<Row>,
                                       prev: Option<bytes>, rest: bytes)
    requires WorkOk(w, nm) && w.kcap >= 9 && OnlySizes(cfg, eng)
    requires RowsPrintable(st.format, rows) && KeysFree(w.db, nm, rows) && (prev.Some? ==> w.key == prev.value)
    requires w.s == Body(st, rows, prev) + (DATA_END + [NL] + rest)
    ensures var t := Records(cfg, eng, st.format, nm, w);
            && !t.Abort? && t.w.db == WithTable(w.db, nm, StopAtRefused(eng, w.db.tables[nm], rows, w.puts))
            && (t.Left? <==> exists i :: 0 <= i < |rows| && Refused(eng, w.puts, i))
    decreases |rows|
  {
    hide Body, Record, KeysFree, RowsPrintable;
    var t := w.db.tables[nm];
    if rows == [] {
      NoMoreRecords(cfg, eng, st, nm, w, prev, rest);
    } else {
      var row := rows[0];
      RowsAhead(st.format, w.db, nm, PutRow(eng, t, row), rows, 0);
      var end := DATA_END + [NL] + rest;
      BodySplit(st, rows, prev, end);
      var w1 := TakeRecord(cfg, eng, st, nm, w, row, prev, Body(st, rows[1..], Some(row.key)) + end);
      if Refused(eng, w.puts, 0) {
        assert WithTable(w.db, nm, t) == w.db;
      } else {
        var w2 := Checkpointed(cfg, eng, Stored(eng, nm, w1));
        var t1 := PutRow(eng, t, row);
        assert w2.db == WithTable(w.db, nm, t1) && w2.puts == w.puts + 1;
        RescueStops(cfg, eng, st, nm, w2, rows[1..], Some(row.key), rest);
        WithTableTwice(w.db, nm, t1, StopAtRefused(eng, t1, rows[1..], w2.puts));
        RefusedTail(eng, rows, w.puts, w2.puts);
      }
    }
  }

  lemma RefusedTail(eng: Engine, rows: seq<Row>, n: nat, m: nat)
    requires rows != [] && !Refused(eng, n, 0) && m == n + 1
    ensures (exists i :: 0 <= i < |rows| && Refused(eng, n, i))
       <==> (exists i :: 0 <= i < |rows[1..]| && Refused(eng, m, i))
  {
    if i :| 0 <= i < |rows| && Refused(eng, n, i) { assert Refused(eng, m, i - 1); }
    if i :| 0 <= i < |rows[1..]| && Refused(eng, m, i) { assert Refused(eng, n, i + 1); }
  }

  /**
   * So with -r the rows of a dumped table end up as the message says if and only if no accepted row that
   * is new to the table stands behind a refused one; otherwise these rows are silently lost.
   */
  lemma RescueMeetsItsMessageIff(cfg: Cfg, eng: Engine, st: Style, nm: Option<bytes>, w: Work, rows: seq<Row>,
                                 rest: bytes)
    requires WorkOk(w, nm) && w.kcap >= 9 && OnlySizes(cfg, eng) && InOrder(eng, w.db.tables[nm], rows)
    requires RowsPrintable(st.format, rows) && KeysFree(w.db, nm, rows)
    requires w.s == Body(st, rows, None) + (DATA_END + [NL] + rest)
    ensures Records(cfg, eng, st.format, nm, w).w.db
              == WithTable(w.db, nm, SkipRefused(eng, w.db.tables[nm], rows, w.puts))
       <==> NothingNewBehind(eng, w.db.tables[nm], rows, w.puts)
  {
    hide Records, Body;
    var t := w.db.tables[nm];
    RescueStops(cfg, eng, st, nm, w, rows, None, rest);
    StopIsSkipIff(eng, t, rows, w.puts);
    var stop, skip := StopAtRefused(eng, t, rows, w.puts), SkipRefused(eng, t, rows, w.puts);
    assert WithTable(w.db, nm, stop).tables[nm] == stop && WithTable(w.db, nm, skip).tables[nm] == skip;
  }

  /** A table where the message is wrong: the second of three rows is refused, and the third is lost. */
  lemma RescueLosesRows(eng: Engine)
    requires EngineOk(eng) && SortedFor(eng, {}, [Row("a", "1"), Row("b", "2"), Row("c", "3")])
    requires eng.put(0) == PutOk && eng.put(1) == BadValSize && eng.put(2) == PutOk
    ensures var t := Tbl({}, 0, []);
            var rows := [Row("a", "1"), Row("b", "2"), Row("c", "3")];
            && StopAtRefused(eng, t, rows, 0).rows == [rows[0]]
            && rows[2] in SkipRefused(eng, t, rows, 0).rows
  {
    var t := Tbl({}, 0, []);
    var rows := [Row("a", "1"), Row("b", "2"), Row("c", "3")];
    assert !Refused(eng, 0, 0) && Refused(eng, 1, 0) && !Refused(eng, 0, 2);
    assert StopAtRefused(eng, t, rows, 0) == StopAtRefused(eng, PutRow(eng, t, rows[0]), rows[1..], 1);
    SkipStores(eng, t, rows, 0, 2);
  }
}
