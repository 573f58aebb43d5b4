/** The load loops of mdbx_load.c's main(), as functions of the text still to be read. */
module Loader {
  import opened Bytes
  import opened Codec
  import opened Stdio
  import opened Readline
  import opened Header
  import opened Table

  /** What a put may return. */
  datatype PutRc = PutOk | KeyExist | BadValSize | PutFailed

  /** What mdbx_txn_info() says about the transaction's size, in bytes. */
  datatype Space = Space(dirty: nat, leftover: nat)

  /** The options -b, -L, -N, -r and -p. */
  datatype Cfg = Cfg(batch: nat, dirtyLimit: nat, noOverwrite: bool, rescue: bool, purge: bool)

  /**
   * What the model leaves open about the storage engine: the order that goes with a table's flags, the
   * outcome of the n-th put apart from -N, the transaction's size after it, and the number of the first
   * write transaction.
   */
  datatype Engine = Engine(order: set<Flag> -> Order, put: nat -> PutRc, space: nat -> Space, txnid: nat)

  const LEFTOVER_LIMIT: nat := 42 * 1024 * 1024

  /** The transaction in hand: text left, current key and datum, buffer sizes, pending and committed contents. */
  datatype Work = Work(s: bytes, key: bytes, data: bytes, kcap: nat, dcap: nat, db: Db, saved: Db,
                       count: nat, puts: nat)

  ghost predicate WorkOk(w: Work, nm: Option<bytes>) {
    nm in w.db.tables && w.kcap >= 3 && w.dcap >= 3
  }

  /**
   * The return code of mdbx_cursor_put(): sizes are checked first, and a plain record does not replace
   * the record of a table.
   */
  function PutOutcome(cfg: Cfg, eng: Engine, db: Db, nm: Option<bytes>, key: bytes, n: nat): PutRc
    requires nm in db.tables
  {
    if eng.put(n) == BadValSize then BadValSize
    else if cfg.noOverwrite && (Taken(db, nm, key) || HasKey(db.tables[nm].rows, key)) then KeyExist
    else if Taken(db, nm, key) then PutFailed
    else eng.put(n)
  }

  function PutRow(eng: Engine, t: Tbl, r: Row): Tbl {
    t.(rows := Upsert(eng.order(t.flags), HasDups(t), t.rows, r))
  }

  function WithTable(db: Db, nm: Option<bytes>, t: Tbl): Db {
    db.(tables := db.tables[nm := t])
  }

  /** A successful put is counted. */
  function Stored(eng: Engine, nm: Option<bytes>, w: Work): Work
    requires nm in w.db.tables
  {
    w.(db := WithTable(w.db, nm, PutRow(eng, w.db.tables[nm], Row(w.key, w.data))),
       count := w.count + 1, puts := w.puts + 1)
  }

  predicate ShouldCheckpoint(cfg: Cfg, eng: Engine, w: Work) {
    || (cfg.batch > 0 && w.count >= cfg.batch)
    || ((cfg.dirtyLimit > 0 || w.count % 256 == 0)
        && ((cfg.dirtyLimit > 0 && eng.space(w.puts).dirty >= cfg.dirtyLimit)
            || eng.space(w.puts).leftover < LEFTOVER_LIMIT))
  }

  /** mdbx_txn_checkpoint(): commit and go on. */
  function Checkpointed(cfg: Cfg, eng: Engine, w: Work): Work {
    if ShouldCheckpoint(cfg, eng, w) then w.(saved := w.db, count := 0) else w
  }

  function TakeKey(w: Work, l: Line): (w': Work)
    requires l.Value? || l.Repeat?
  {
    if l.Value? then w.(key := l.v, s := l.rest, kcap := l.cap) else w.(s := l.rest)
  }

  function TakeData(w: Work, l: Line): (w': Work)
    requires l.Value? || l.Repeat?
  {
    if l.Value? then w.(data := l.v, s := l.rest, dcap := l.cap) else w.(s := l.rest)
  }

  /** One turn of the record loop. */
  datatype Turn = Again(w: Work) | TableDone(w: Work) | Left(w: Work) | Abort(w: Work)

  function Record(cfg: Cfg, eng: Engine, f: Format, nm: Option<bytes>, w: Work): (t: Turn)
    requires WorkOk(w, nm)
    ensures WorkOk(t.w, nm)
    ensures !t.Abort? ==> |t.w.s| <= |w.s|
    ensures t.Again? ==> |t.w.s| < |w.s|
  {
    HeaderModeProgress(f, w.kcap, w.s);
    match ReadLine(f, false, w.kcap, w.s)
    case Bad => Abort(w)
    case DataEnd(rest) => TableDone(w.(s := rest))
    case Eof(cap) => TableDone(w.(s := [], kcap := cap))
    case Value(_, _, _) => RecordData(cfg, eng, f, nm, TakeKey(w, ReadLine(f, false, w.kcap, w.s)))
    case Repeat(_) => RecordData(cfg, eng, f, nm, TakeKey(w, ReadLine(f, false, w.kcap, w.s)))
  }

  /** The datum and the put; a tolerated error leaves the loop, since its condition is tested again. */
  function RecordData(cfg: Cfg, eng: Engine, f: Format, nm: Option<bytes>, w: Work): (t: Turn)
    requires WorkOk(w, nm)
    ensures WorkOk(t.w, nm)
    ensures !t.Abort? ==> |t.w.s| <= |w.s|
  {
    var l := ReadLine(f, false, w.dcap, w.s);
    if !l.Value? && !l.Repeat? then Abort(w)
    else
      var w1 := TakeData(w, l);
      match PutOutcome(cfg, eng, w1.db, nm, w1.key, w1.puts)
      case PutOk => Again(Checkpointed(cfg, eng, Stored(eng, nm, w1)))
      case KeyExist => if cfg.noOverwrite then Left(w1.(puts := w1.puts + 1)) else Abort(w1)
      case BadValSize => if cfg.rescue then Left(w1.(puts := w1.puts + 1)) else Abort(w1)
      case PutFailed => Abort(w1)
  }

  /** The record loop. */
  function Records(cfg: Cfg, eng: Engine, f: Format, nm: Option<bytes>, w: Work): (t: Turn)
    requires WorkOk(w, nm)
    ensures WorkOk(t.w, nm) && !t.Again?
    ensures !t.Abort? ==> |t.w.s| <= |w.s|
    decreases |w.s|
  {
    var t := Record(cfg, eng, f, nm, w);
    if t.Again? then Records(cfg, eng, f, nm, t.w) else t
  }

  /** A table with that name can stand in the main table: no duplicates there, and no plain record in its place. */
  predicate Holds(db: Db, nm: Option<bytes>) {
    nm.Some? ==> !(HasDups(MainOf(db)) && Filled(db, None)) && !HasKey(MainOf(db).rows, nm.value)
  }

  /** An empty main table with duplicates is made one without, to hold tables. */
  function MadeToHold(db: Db, nm: Option<bytes>): (r: Db) {
    if nm.Some? && HasDups(MainOf(db))
    then WithTable(db, None, MainOf(db).(flags := MainOf(db).flags * {ReverseKey, IntegerKey})) else db
  }

  /** The table as it is before loading, a new one where there is none. */
  function Present(h: Hdr, db: Db): Tbl {
    if h.name in db.tables then db.tables[h.name] else Tbl(if h.name.None? then {} else h.flags, 0, [])
  }

  /** mdbx_drop() without deleting: a tree that is not empty loses its rows, its tables and its sequence. */
  function Purge(h: Hdr, db: Db): Db {
    if Filled(db, h.name) then
      WithTable(if h.name.None? then db.(tables := map[]) else db, h.name, Tbl(h.flags, 0, []))
    else db
  }

  /**
   * mdbx_dbi_open_ex() with MDBX_CREATE, which gives an empty table new flags, then the sequence check
   * and -p; None is a bailout.
   */
  function OpenTable(cfg: Cfg, h: Hdr, db: Db): (r: Option<Db>)
    ensures r.Some? ==> h.name in r.value.tables
  {
    var db1 := MadeToHold(db, h.name);
    var t := Present(h, db1);
    if !FlagsOk(h.flags) || !Holds(db, h.name) || (t.flags != h.flags && Filled(db1, h.name)) then None
    else if t.sequence > h.sequence then None
    else
      var db2 := WithTable(db1, h.name, Tbl(h.flags, h.sequence, t.rows));
      Some(if cfg.purge then Purge(h, db2) else db2)
  }

  predicate SameMarkers(a: Canary, b: Canary) { a.x == b.x && a.y == b.y && a.z == b.z }

  /** mdbx_canary_put(): x, y and z are set, and v becomes the transaction's number, unless nothing changes. */
  function PutCanary(eng: Engine, h: Hdr, db: Db): Db {
    if h.global && h.canary != Canary(0, 0, 0, 0) && !SameMarkers(h.canary, db.canary) then
      db.(canary := Canary(eng.txnid, h.canary.x, h.canary.y, h.canary.z))
    else db
  }

  /** How the program ends, with the contents that are then committed. */
  datatype LoadEnd = Loaded(db: Db) | Failed(db: Db)

  /** The table loop, entered with a header already read. */
  function Tables(cfg: Cfg, eng: Engine, h: Hdr, s: bytes, kcap: nat, dcap: nat, saved: Db, puts: nat): LoadEnd
    requires kcap >= 3 && dcap >= 3
    decreases |s|
  {
    var h1 := h.(global := false);
    var o := OpenTable(cfg, h1, PutCanary(eng, h, saved));
    if o.None? then Failed(saved)
    else
      var t := Records(cfg, eng, FormatOf(h1), h1.name, Work(s, [], [], kcap, dcap, o.value, saved, 0, puts));
      if t.Abort? then Failed(t.w.saved)
      else
        match ReadHeader(h1, t.w.s, t.w.dcap)
        case HdrEof => Loaded(t.w.db)
        case HdrExit => Failed(t.w.db)
        case HdrOk(h2, rest) => Tables(cfg, eng, h2, rest, t.w.kcap, t.w.dcap, t.w.db, t.w.puts)
  }

  /** main() from the first header on. */
  function Load(cfg: Cfg, eng: Engine, s: bytes, kcap: nat, db: Db): LoadEnd
    requires kcap >= 3
  {
    match ReadHeader(INITIAL, s, LINE_BUFFER)
    case HdrEof => Failed(db)
    case HdrExit => Failed(db)
    case HdrOk(h, rest) => Tables(cfg, eng, h, rest, kcap, LINE_BUFFER, db, 0)
  }
}
