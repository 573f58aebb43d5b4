/** Tables as ordered lists of rows, and what one put does to them. */
module Table {
  import opened Bytes
  import opened Header

  datatype Row = Row(key: bytes, data: bytes)

  /** "Less than" on keys and on the data of one key; the comparators of a table depend on its flags. */
  datatype Order = Order(key: (bytes, bytes) -> bool, data: (bytes, bytes) -> bool)

  ghost predicate StrictTotal(less: (bytes, bytes) -> bool) {
    && (forall a :: !less(a, a))
    && (forall a, b, c :: less(a, b) && less(b, c) ==> less(a, c))
    && (forall a, b :: a != b ==> less(a, b) || less(b, a))
  }

  ghost predicate OrderOk(ord: Order) { StrictTotal(ord.key) && StrictTotal(ord.data) }

  /** a stands in front of b in a table with (dup) or without duplicates. */
  predicate Before(ord: Order, dup: bool, a: Row, b: Row) {
    ord.key(a.key, b.key) || (dup && a.key == b.key && ord.data(a.data, b.data))
  }

  /** A put of b hits the place of a: the same key, with duplicates also the same datum. */
  predicate SamePlace(dup: bool, a: Row, b: Row) { a.key == b.key && (!dup || a.data == b.data) }

  ghost predicate Sorted(ord: Order, dup: bool, rows: seq<Row>) {
    forall i, j :: 0 <= i < j < |rows| ==> Before(ord, dup, rows[i], rows[j])
  }

  /** mdbx_cursor_put() with MDBX_UPSERT. */
  function Upsert(ord: Order, dup: bool, rows: seq<Row>, r: Row): seq<Row> {
    if rows == [] then [r]
    else if SamePlace(dup, rows[0], r) then [r] + rows[1..]
    else if Before(ord, dup, rows[0], r) then [rows[0]] + Upsert(ord, dup, rows[1..], r)
    else [r] + rows
  }

  lemma BeforeTransitive(ord: Order, dup: bool, a: Row, b: Row, c: Row)
    requires OrderOk(ord) && Before(ord, dup, a, b) && Before(ord, dup, b, c)
    ensures Before(ord, dup, a, c)
  {
  }

  lemma BeforeTotal(ord: Order, dup: bool, a: Row, b: Row)
    requires OrderOk(ord)
    ensures SamePlace(dup, a, b) || Before(ord, dup, a, b) || Before(ord, dup, b, a)
    ensures !(Before(ord, dup, a, b) && SamePlace(dup, a, b))
  {
  }

  /** A put keeps the table in order, stores the row and touches no other place. */
  lemma {:induction false} UpsertIsPut(ord: Order, dup: bool, rows: seq<Row>, r: Row)
    requires OrderOk(ord) && Sorted(ord, dup, rows)
    ensures Sorted(ord, dup, Upsert(ord, dup, rows, r))
    ensures forall x :: x in Upsert(ord, dup, rows, r) <==> x == r || (x in rows && !SamePlace(dup, x, r))
    decreases |rows|
  {
    if rows != [] {
      var head, tail := rows[0], rows[1..];
      assert rows == [head] + tail;
      forall x | x in tail ensures Before(ord, dup, head, x) {
        var i :| 0 <= i < |tail| && tail[i] == x;
        assert Before(ord, dup, rows[0], rows[i + 1]);
      }
      SortedTail(ord, dup, rows);
      BeforeTotal(ord, dup, head, r);
      if SamePlace(dup, head, r) {
        forall x | x in tail ensures !SamePlace(dup, x, r) && Before(ord, dup, r, x) {
          BeforeTotal(ord, dup, head, x);
        }
        SortedCons(ord, dup, r, tail);
      } else if Before(ord, dup, head, r) {
        UpsertIsPut(ord, dup, tail, r);
        SortedCons(ord, dup, head, Upsert(ord, dup, tail, r));
      } else {
        forall x | x in rows ensures Before(ord, dup, r, x) {
          if x != head { BeforeTransitive(ord, dup, r, head, x); }
        }
        forall x | x in rows ensures !SamePlace(dup, x, r) { BeforeTotal(ord, dup, r, x); }
        SortedCons(ord, dup, r, rows);
      }
    }
  }

  lemma SortedTail(ord: Order, dup: bool, rows: seq<Row>)
    requires rows != [] && Sorted(ord, dup, rows)
    ensures Sorted(ord, dup, rows[1..])
  {
    var tail := rows[1..];
    forall i, j | 0 <= i < j < |tail| ensures Before(ord, dup, tail[i], tail[j]) {
      assert Before(ord, dup, rows[i + 1], rows[j + 1]);
    }
  }

  lemma SortedCons(ord: Order, dup: bool, head: Row, tail: seq<Row>)
    requires Sorted(ord, dup, tail) && forall x :: x in tail ==> Before(ord, dup, head, x)
    ensures Sorted(ord, dup, [head] + tail)
  {
    var rows := [head] + tail;
    forall i, j | 0 <= i < j < |rows| ensures Before(ord, dup, rows[i], rows[j]) {
      if i == 0 { assert rows[j] == tail[j - 1] && tail[j - 1] in tail; }
      else { assert rows[i] == tail[i - 1] && rows[j] == tail[j - 1]; }
    }
  }

  /** Rows that arrive in order are appended. */
  lemma {:induction false} UpsertAppends(ord: Order, dup: bool, rows: seq<Row>, r: Row)
    requires OrderOk(ord) && Sorted(ord, dup, rows + [r])
    ensures Upsert(ord, dup, rows, r) == rows + [r]
    decreases |rows|
  {
    if rows != [] {
      var s := rows + [r];
      assert Before(ord, dup, s[0], s[|rows|]);
      BeforeTotal(ord, dup, rows[0], r);
      assert rows[1..] + [r] == s[1..];
      SortedTail(ord, dup, s);
      UpsertAppends(ord, dup, rows[1..], r);
      assert [rows[0]] + (rows[1..] + [r]) == rows + [r];
    }
  }

  /** Putting a row that is stored already changes nothing. */
  lemma {:induction false} UpsertStored(ord: Order, dup: bool, rows: seq<Row>, r: Row)
    requires OrderOk(ord) && Sorted(ord, dup, rows) && r in rows
    ensures Upsert(ord, dup, rows, r) == rows
    decreases |rows|
  {
    var k :| 0 <= k < |rows| && rows[k] == r;
    assert rows == [rows[0]] + rows[1..];
    if k > 0 {
      assert Before(ord, dup, rows[0], rows[k]);
      BeforeTotal(ord, dup, rows[0], r);
      SortedTail(ord, dup, rows);
      assert rows[1..][k - 1] == r;
      UpsertStored(ord, dup, rows[1..], r);
    }
  }

  // ---------------------------------------------------------------- database

  /** A table: its persistent flags, its sequence number and its rows. */
  datatype Tbl = Tbl(flags: set<Flag>, sequence: nat, rows: seq<Row>)

  /**
   * The tables and the canary. None is the main table, which also holds a record for each named table;
   * it exists in every database, with no flags and no rows of its own where it is not listed.
   */
  datatype Db = Db(tables: map<Option<bytes>, Tbl>, canary: Canary)

  const EMPTY_DB: Db := Db(map[], Canary(0, 0, 0, 0))

  function HasDups(t: Tbl): bool { DupSort in t.flags }

  function MainOf(db: Db): Tbl {
    if None in db.tables then db.tables[None] else Tbl({}, 0, [])
  }

  predicate AnyNamed(db: Db) {
    exists n | n in db.tables :: n.Some?
  }

  /** The table's tree is not empty. */
  predicate Filled(db: Db, nm: Option<bytes>) {
    (nm in db.tables && db.tables[nm].rows != []) || (nm.None? && AnyNamed(db))
  }

  predicate HasKey(rows: seq<Row>, key: bytes) {
    exists r | r in rows :: r.key == key
  }

  /** In the main table the key belongs to the record of a named table. */
  predicate Taken(db: Db, nm: Option<bytes>, key: bytes) { nm.None? && Some(key) in db.tables }
}
