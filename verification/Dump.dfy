/** dump_tbl() of mdbx_dump.c: one table, or a list of tables, as text. */
module Dump {
  import opened Bytes
  import opened Codec
  import opened Header
  import opened Table

  const DATA_END: bytes := "DATA=END"

  /** A table as the dump sees it: its name, if any, and its contents. */
  datatype Source = Source(name: Option<bytes>, tbl: Tbl)

  /** How to print. */
  datatype Style = Style(format: Format, concise: bool)

  /**
   * The records, where prev is the key of the record in front: in concise style a repeated key is a
   * single space.
   */
  function Body(st: Style, rows: seq<Row>, prev: Option<bytes>): bytes {
    if rows == [] then []
    else
      (if st.concise && prev == Some(rows[0].key) then [SP] else EncodeValue(st.format, rows[0].key))
      + (EncodeValue(st.format, rows[0].data) + Body(st, rows[1..], Some(rows[0].key)))
  }

  /** Keys are left out only in tables with duplicates. */
  function BodyStyle(st: Style, t: Tbl): Style {
    st.(concise := st.concise && HasDups(t))
  }

  function TableText(env: EnvInfo, global: bool, st: Style, src: Source): bytes {
    HeaderText(env, global, st.format, src.name, src.tbl.flags, src.tbl.sequence)
    + (Body(BodyStyle(st, src.tbl), src.tbl.rows, None) + (DATA_END + [NL]))
  }

  function DumpText(env: EnvInfo, global: bool, st: Style, srcs: seq<Source>): bytes {
    if srcs == [] then [] else TableText(env, global, st, srcs[0]) + DumpText(env, false, st, srcs[1..])
  }

  /** What a key of the main table stands for: a table that can be opened, or a record of its own. */
  datatype Item = Sub(name: bytes, tbl: Tbl) | Raw(name: bytes)

  /** The main table: its contents, and its keys as -a walks through them. */
  datatype Main = Main(tbl: Tbl, items: seq<Item>)

  /** The tables -a finds; a name with a NUL is passed over. */
  function Listed(items: seq<Item>): seq<Source> {
    if items == [] then []
    else if items[0].Sub? && NulFree(items[0].name) then
      [Source(Some(items[0].name), items[0].tbl)] + Listed(items[1..])
    else Listed(items[1..])
  }

  predicate HasRaw(items: seq<Item>) {
    exists i | i in items :: i.Raw? && NulFree(i.name)
  }

  /** What -a prints: the tables it finds; only where there is none, the main table, if it holds records. */
  function Selected(main: Main): seq<Source> {
    if Listed(main.items) != [] then Listed(main.items)
    else if HasRaw(main.items) then [Source(None, main.tbl)]
    else []
  }

  lemma {:induction false} ListedMembers(items: seq<Item>, src: Source)
    ensures src in Listed(items) <==>
              exists i :: 0 <= i < |items| && items[i].Sub? && NulFree(items[i].name)
                          && src == Source(Some(items[i].name), items[i].tbl)
    decreases |items|
  {
    if items != [] {
      ListedMembers(items[1..], src);
      if src in Listed(items[1..]) {
        var i :| 0 <= i < |items[1..]| && items[1..][i].Sub? && NulFree(items[1..][i].name)
                 && src == Source(Some(items[1..][i].name), items[1..][i].tbl);
        assert items[i + 1] == items[1..][i];
      }
      if i :| 0 < i < |items| && items[i].Sub? && NulFree(items[i].name)
              && src == Source(Some(items[i].name), items[i].tbl) {
        assert items[1..][i - 1] == items[i];
      }
    }
  }

  /** One key more of the main table. */
  lemma ListedStep(items: seq<Item>, i: nat)
    requires i < |items|
    ensures var item, more := items[i], Listed(items[i + 1..]);
            && Listed(items[i..]) == (if item.Sub? && NulFree(item.name)
                                      then [Source(Some(item.name), item.tbl)] + more else more)
            && (HasRaw(items[..i + 1]) <==> HasRaw(items[..i]) || (item.Raw? && NulFree(item.name)))
  {
    assert items[i..][1..] == items[i + 1..];
    assert items[..i + 1] == items[..i] + [items[i]];
  }

  lemma NoneListed()
    ensures Listed([]) == [] && !HasRaw([])
  {
  }

  lemma NothingDumped(text: bytes, env: EnvInfo, global: bool, st: Style)
    ensures text + DumpText(env, global, st, []) == text
  {
  }

  lemma DumpStep(text: bytes, env: EnvInfo, global: bool, st: Style, src: Source, more: seq<Source>)
    ensures text + DumpText(env, global, st, [src] + more)
         == text + TableText(env, global, st, src) + DumpText(env, false, st, more)
  {
    hide TableText;
    assert ([src] + more)[1..] == more;
    Assoc(text, TableText(env, global, st, src), DumpText(env, false, st, more));
  }

  lemma DumpOfOne(env: EnvInfo, global: bool, st: Style, src: Source)
    ensures DumpText(env, global, st, [src]) == TableText(env, global, st, src)
  {
  }

  // ---------------------------------------------------------------- the printer

  /** The rows of a table and a cursor on them, as dump_tbl() uses it. */
  class Cursor {
    const rows: seq<Row>
    var at: int

    ghost predicate Valid() reads this { -1 <= at < |rows| }

    constructor (rows: seq<Row>)
      ensures Valid() && this.rows == rows && at == -1
    {
      this.rows, at := rows, -1;
    }

    /** MDBX_NEXT */
    method Next() returns (r: Option<Row>)
      requires Valid()
      modifies this
      ensures Valid()
      ensures old(at) + 1 < |rows| ==> at == old(at) + 1 && r == Some(rows[at])
      ensures old(at) + 1 == |rows| ==> at == old(at) && r == None
    {
      if at + 1 == |rows| {
        return None;
      }
      at := at + 1;
      return Some(rows[at]);
    }

    /** MDBX_NEXT_DUP: the next row if it has the same key. */
    method NextDup() returns (r: Option<Row>)
      requires Valid() && at >= 0
      modifies this
      ensures Valid()
      ensures if old(at) + 1 < |rows| && rows[old(at) + 1].key == rows[old(at)].key
              then at == old(at) + 1 && r == Some(rows[at])
              else at == old(at) && r == None
    {
      if at + 1 == |rows| || rows[at + 1].key != rows[at].key {
        return None;
      }
      at := at + 1;
      return Some(rows[at]);
    }
  }

  /** The static `mode` of mdbx_dump.c with its output. */
  class Dumper {
    const out: Stdout
    const env: EnvInfo
    const style: Style
    var global: bool

    constructor (env: EnvInfo, style: Style)
      ensures fresh(out) && this.env == env && this.style == style && global && out.text == []
    {
      this.env, this.style, global := env, style, true;
      out := new Stdout();
    }

    /** dump_tbl() */
    method DumpTbl(src: Source)
      modifies this, out
      ensures out.text == old(out.text) + TableText(env, old(global), style, src)
      ensures !global
    {
      out.Puts(HeaderText(env, global, style.format, src.name, src.tbl.flags, src.tbl.sequence));
      global := false;
      ghost var before := out.text;
      DumpRows(BodyStyle(style, src.tbl), src.tbl.rows);
      ghost var body := Body(BodyStyle(style, src.tbl), src.tbl.rows, None);
      out.Puts(DATA_END);
      out.Putchar(NL);
      Assoc(before, body, DATA_END + [NL]);
      Assoc(before + body, DATA_END, [NL]);
      Assoc(old(out.text), HeaderText(env, old(global), style.format, src.name, src.tbl.flags, src.tbl.sequence),
            body + (DATA_END + [NL]));
    }

    /** -a: the loop over the keys of the main table, and what is left when it finds no table. */
    method DumpMain(main: Main) returns (found: bool)
      modifies this, out
      ensures out.text == old(out.text) + DumpText(env, old(global), style, Selected(main))
      ensures found <==> Selected(main) != []
    {
      hide Listed, HasRaw, DumpText, TableText;
      var haveRaw, count := false, 0;
      ghost var total := out.text + DumpText(env, global, style, Listed(main.items));
      assert main.items[0..] == main.items;
      NoneListed();
      for i := 0 to |main.items|
        invariant out.text + DumpText(env, global, style, Listed(main.items[i..])) == total
        invariant haveRaw <==> HasRaw(main.items[..i])
        invariant count + |Listed(main.items[i..])| == |Listed(main.items)|
        invariant count == 0 ==> out.text == old(out.text) && global == old(global)
      {
        ListedStep(main.items, i);
        var item := main.items[i];
        if NulFree(item.name) {
          match item
          case Raw(_) =>
            haveRaw := true;
          case Sub(name, tbl) =>
            count := count + 1;
            DumpStep(out.text, env, global, style, Source(Some(name), tbl), Listed(main.items[i + 1..]));
            DumpTbl(Source(Some(name), tbl));
        }
      }
      assert main.items[|main.items|..] == [] && main.items[..|main.items|] == main.items;
      NothingDumped(out.text, env, global, style);
      if haveRaw && count == 0 {
        DumpTbl(Source(None, main.tbl));
        DumpOfOne(env, old(global), style, Source(None, main.tbl));
      }
      return count > 0 || haveRaw;
    }

    /** The nested cursor loops: the inner one runs over the duplicates of a key in concise style. */
    method DumpRows(st: Style, rows: seq<Row>)
      modifies out
      ensures out.text == old(out.text) + Body(st, rows, None)
    {
      hide Body, ToPrint;
      AllToPrint(st, rows, out.text);
      ghost var total := out.text + Body(st, rows, None);
      var cursor := new Cursor(rows);
      var r := cursor.Next();
      while r.Some?
        invariant cursor.Valid() && fresh(cursor) && cursor.rows == rows
        invariant Printed(st, rows, cursor.at, r, out.text, total)
        invariant r.None? ==> cursor.at + 1 == |rows|
        invariant st.concise && r.Some? && cursor.at > 0 ==> rows[cursor.at - 1].key != rows[cursor.at].key
        decreases |rows| - cursor.at, r.Some?
      {
        DumpRow(st, rows, cursor.at, r.value, false);
        if st.concise {
          DumpDups(st, cursor, total);
        }
        r := cursor.Next();
      }
      AllToPrint(st, rows, out.text);
    }

    /** The inner loop: the further data of the key at the cursor. */
    method DumpDups(st: Style, cursor: Cursor, ghost total: bytes)
      requires cursor.Valid() && cursor.at >= 0 && st.concise
      requires Printed(st, cursor.rows, cursor.at, None, out.text, total)
      modifies cursor, out
      ensures cursor.Valid() && cursor.at >= old(cursor.at)
      ensures Printed(st, cursor.rows, cursor.at, None, out.text, total)
      ensures cursor.at + 1 < |cursor.rows| ==> cursor.rows[cursor.at].key != cursor.rows[cursor.at + 1].key
    {
      hide Body, ToPrint;
      var rows := cursor.rows;
      var r := cursor.NextDup();
      while r.Some?
        invariant cursor.Valid() && cursor.at >= old(cursor.at)
        invariant Printed(st, rows, cursor.at, r, out.text, total)
        invariant r.Some? ==> cursor.at > 0 && rows[cursor.at - 1].key == rows[cursor.at].key
        invariant r.None? && cursor.at + 1 < |rows| ==> rows[cursor.at].key != rows[cursor.at + 1].key
        decreases |rows| - cursor.at, r.Some?
      {
        DumpRow(st, rows, cursor.at, r.value, true);
        assert Printed(st, rows, cursor.at, None, out.text, total);
        r := cursor.NextDup();
      }
    }

    /** One record, with its key or with a space in place of it. */
    method DumpRow(st: Style, ghost rows: seq<Row>, ghost i: nat, row: Row, again: bool)
      requires i < |rows| && row == rows[i] && (again <==> st.concise && Prev(rows, i) == Some(row.key))
      modifies out
      ensures out.text + ToPrint(st, rows, i + 1) == old(out.text) + ToPrint(st, rows, i)
    {
      BodyStep(st, rows, i, out.text);
      if again {
        out.Putchar(SP);
      } else {
        out.DumpVal(st.format, row.key);
      }
      out.DumpVal(st.format, row.data);
    }
  }

  function Prev(rows: seq<Row>, i: nat): Option<bytes>
    requires i <= |rows|
  {
    if i == 0 then None else Some(rows[i - 1].key)
  }

  /** The records from the i-th on. */
  function ToPrint(st: Style, rows: seq<Row>, i: nat): bytes
    requires i <= |rows|
  {
    Body(st, rows[i..], Prev(rows, i))
  }

  lemma AllToPrint(st: Style, rows: seq<Row>, text: bytes)
    ensures ToPrint(st, rows, 0) == Body(st, rows, None) && text + ToPrint(st, rows, |rows|) == text
  {
    assert rows[0..] == rows && rows[|rows|..] == [];
  }

  /** With the cursor at `at` and r the row just fetched, what is still to be printed completes the text. */
  ghost predicate Printed(st: Style, rows: seq<Row>, at: int, r: Option<Row>, text: bytes, total: bytes)
    requires -1 <= at < |rows|
  {
    var i := if r.Some? then at else at + 1;
    && i >= 0 && (r.Some? ==> r.value == rows[at])
    && text + ToPrint(st, rows, i) == total
  }

  lemma BodyStep(st: Style, rows: seq<Row>, i: nat, text: bytes)
    requires i < |rows|
    ensures text + Body(st, rows[i..], Prev(rows, i)) ==
            text + (if st.concise && Prev(rows, i) == Some(rows[i].key) then [SP]
                    else EncodeValue(st.format, rows[i].key))
            + EncodeValue(st.format, rows[i].data) + Body(st, rows[i + 1..], Prev(rows, i + 1))
  {
    var k := if st.concise && Prev(rows, i) == Some(rows[i].key) then [SP] else EncodeValue(st.format, rows[i].key);
    var d, b := EncodeValue(st.format, rows[i].data), Body(st, rows[i + 1..], Prev(rows, i + 1));
    assert rows[i..][1..] == rows[i + 1..];
    Assoc(text, k, d + b);
    Assoc(text + k, d, b);
  }
}
