/** mdbx_load.c at work: its static variables and buffers, readhdr() and the loops of main(). */
module Session {
  import opened Bytes
  import opened Codec
  import opened Stdio
  import opened Readline
  import opened Header
  import opened HeaderReader
  import opened Table
  import opened Loader

  datatype HdrRc = HdrRead | HdrAtEof | HdrFatal

  datatype Kind = More | Finished | LeftLoop | Bailout

  /** The bytes an `MDBX_val` stands for. */
  ghost function BytesOf(v: Val): bytes
    requires v.base != null ==> v.len <= v.base.Length
    reads v, v.base
  {
    if v.base == null then [] else v.base[..v.len]
  }

  class Session {
    const cfg: Cfg
    const eng: Engine
    const input: Stdin
    const kbuf: Buf
    const dbuf: Buf
    const key: Val
    const data: Val
    var hdr: Hdr
    var db: Db
    var saved: Db
    var count: nat
    var puts: nat

    ghost predicate Valid()
      reads this, input, kbuf, dbuf
    {
      && input.Valid() && kbuf.Valid() && dbuf.Valid()
      && kbuf != dbuf && kbuf.base != dbuf.base && key != data
    }

    /** The key points into the key buffer, the datum into the data buffer, or neither does yet. */
    ghost predicate Pointers()
      reads this, kbuf, dbuf, key, data
    {
      && (key.base != null ==> key.base == kbuf.base && key.len <= key.base.Length)
      && (data.base != null ==> data.base == dbuf.base && data.len <= data.base.Length)
    }

    /** The abstract state of the transaction. */
    ghost function Current(): Work
      requires Valid() && Pointers()
      reads this, input, kbuf, kbuf.base, dbuf, dbuf.base, key, key.base, data, data.base
    {
      Work(input.rest, BytesOf(key), BytesOf(data), kbuf.len, dbuf.len, db, saved, count, puts)
    }

    /** Everything of the abstract state but the current record. */
    ghost predicate Reached(w: Work)
      reads this, input, kbuf, dbuf
    {
      input.rest == w.s && kbuf.len == w.kcap && dbuf.len == w.dcap && db == w.db && saved == w.saved && puts == w.puts
    }

    constructor (cfg: Cfg, eng: Engine, text: bytes, kcap: nat, initial: Db)
      requires NulFree(text) && kcap >= 3
      ensures Valid() && fresh(input) && fresh(kbuf) && fresh(dbuf) && fresh(key) && fresh(data)
      ensures fresh(kbuf.base) && fresh(dbuf.base)
      ensures this.cfg == cfg && this.eng == eng && input.rest == text && hdr == INITIAL
      ensures kbuf.len == kcap && dbuf.len == LINE_BUFFER && saved == initial && puts == 0
    {
      this.cfg, this.eng := cfg, eng;
      input := new Stdin(text);
      kbuf := new Buf(kcap);
      dbuf := new Buf(LINE_BUFFER);
      key := new Val();
      data := new Val();
      hdr, db, saved, count, puts := INITIAL, initial, initial, 0, 0;
    }

    /** readhdr(): lines are read into the data buffer and applied until HEADER=END. */
    method ReadHdr() returns (rc: HdrRc)
      requires Valid()
      modifies this`hdr, input, dbuf.base
      ensures Valid()
      ensures var r := ReadHeader(old(hdr), old(input.rest), dbuf.len);
              match rc
              case HdrRead => r.HdrOk? && hdr == r.h && input.rest == r.rest
              case HdrAtEof => r.HdrEof?
              case HdrFatal => r.HdrExit?
    {
      hide ApplyLine, Reset;
      hdr := Reset(hdr);
      ghost var start, text := hdr, input.rest;
      while true
        invariant Valid()
        invariant ParseHeader(start, text, dbuf.len) == ParseHeader(hdr, input.rest, dbuf.len)
        decreases |input.rest|
      {
        ghost var s := input.rest;
        var got, k := input.Fgets(dbuf.base, 0, dbuf.len);
        if !got {
          return HdrAtEof;
        }
        ChunkIsFgetsLen(s, dbuf.len, k);
        assert dbuf.base[..k] == s[..k];
        var step := ApplyInPlace(hdr, dbuf.base, k);
        match step {
          case Exit => return HdrFatal;
          case End(h) =>
            hdr := h;
            return HdrRead;
          case Next(h) => hdr := h;
        }
      }
    }

    /** One turn of the record loop: key, datum, put and perhaps a checkpoint. */
    method ReadRecord(f: Format, nm: Option<bytes>) returns (t: Kind)
      requires Valid() && Pointers() && nm in db.tables
      modifies this, input, kbuf, kbuf.base, dbuf, dbuf.base, key, data
      ensures Valid() && hdr == old(hdr)
      ensures kbuf.base == old(kbuf.base) || fresh(kbuf.base)
      ensures dbuf.base == old(dbuf.base) || fresh(dbuf.base)
      ensures var r := Record(cfg, eng, f, nm, old(Current()));
              match t
              case More => r.Again? && Pointers() && Current() == r.w
              case Finished => r.TableDone? && Reached(r.w)
              case LeftLoop => r.Left? && Reached(r.w)
              case Bailout => r.Abort? && saved == r.w.saved
    {
      hide ReadLine;
      ghost var w := Current();
      ghost var l := ReadLine(f, false, kbuf.len, input.rest);
      var rc := ReadOne(key, kbuf, input, f, false);
      if rc.EndOfFile? {
        return Finished;
      }
      if rc.NoData? {
        return Bailout;
      }
      assert Current() == TakeKey(w, l);
      t := ReadDatum(f, nm);
    }

    method ReadDatum(f: Format, nm: Option<bytes>) returns (t: Kind)
      requires Valid() && Pointers() && nm in db.tables
      modifies this, input, dbuf, dbuf.base, data
      ensures Valid() && hdr == old(hdr)
      ensures dbuf.base == old(dbuf.base) || fresh(dbuf.base)
      ensures var r := RecordData(cfg, eng, f, nm, old(Current()));
              match t
              case More => r.Again? && Pointers() && Current() == r.w
              case Finished => false
              case LeftLoop => r.Left? && Reached(r.w)
              case Bailout => r.Abort? && saved == r.w.saved
    {
      hide ReadLine;
      ghost var w := Current();
      ghost var l := ReadLine(f, false, dbuf.len, input.rest);
      var rc := ReadOne(data, dbuf, input, f, false);
      if !rc.Success? {
        return Bailout;
      }
      assert Current() == TakeData(w, l);
      t := PutRecord(nm);
    }

    /** mdbx_cursor_put() with the bytes that key and datum point to, and what follows it. */
    method PutRecord(nm: Option<bytes>) returns (t: Kind)
      requires Valid() && Pointers() && nm in db.tables
      modifies this
      ensures Valid() && Pointers() && hdr == old(hdr)
      ensures var w := old(Current());
              var rc := PutOutcome(cfg, eng, w.db, nm, w.key, w.puts);
              match t
              case More => rc.PutOk? && Current() == Checkpointed(cfg, eng, Stored(eng, nm, w))
              case Finished => false
              case LeftLoop =>
                (if rc.KeyExist? then cfg.noOverwrite else rc.BadValSize? && cfg.rescue)
                && Reached(w.(puts := w.puts + 1))
              case Bailout =>
                (match rc
                 case PutOk => false
                 case KeyExist => !cfg.noOverwrite
                 case BadValSize => !cfg.rescue
                 case PutFailed => true)
                && saved == w.saved
    {
      hide PutRow, WithTable, ShouldCheckpoint;
      var k: bytes := if key.base == null then [] else key.base[..key.len];
      var d: bytes := if data.base == null then [] else data.base[..data.len];
      var rc := PutOutcome(cfg, eng, db, nm, k, puts);
      if (rc.KeyExist? && cfg.noOverwrite) || (rc.BadValSize? && cfg.rescue) {
        puts := puts + 1;
        return LeftLoop;
      }
      if !rc.PutOk? {
        return Bailout;
      }
      db := WithTable(db, nm, PutRow(eng, db.tables[nm], Row(k, d)));
      count, puts := count + 1, puts + 1;
      assert Current() == Stored(eng, nm, old(Current()));
      MayCheckpoint();
      t := More;
    }

    /** The checkpoint by number of puts or by space. */
    method MayCheckpoint()
      requires Valid() && Pointers()
      modifies this`saved, this`count
      ensures Valid() && Pointers() && Current() == Checkpointed(cfg, eng, old(Current()))
    {
      var byCount := cfg.batch > 0 && count >= cfg.batch;
      var bySpace := false;
      if !byCount && (cfg.dirtyLimit > 0 || count % 256 == 0) {
        var info := eng.space(puts);
        bySpace := (cfg.dirtyLimit > 0 && info.dirty >= cfg.dirtyLimit) || info.leftover < LEFTOVER_LIMIT;
      }
      if byCount || bySpace {
        saved, count := db, 0;
      }
    }

    /** The record loop of one table. */
    method ReadRecords(f: Format, nm: Option<bytes>) returns (t: Kind)
      requires Valid() && Pointers() && nm in db.tables
      modifies this, input, kbuf, kbuf.base, dbuf, dbuf.base, key, data
      ensures Valid() && hdr == old(hdr)
      ensures kbuf.base == old(kbuf.base) || fresh(kbuf.base)
      ensures dbuf.base == old(dbuf.base) || fresh(dbuf.base)
      ensures var r := Records(cfg, eng, f, nm, old(Current()));
              match t
              case More => false
              case Finished => r.TableDone? && Reached(r.w)
              case LeftLoop => r.Left? && Reached(r.w)
              case Bailout => r.Abort? && saved == r.w.saved
    {
      hide Record;
      ghost var w0 := Current();
      while true
        invariant Valid() && Pointers() && nm in db.tables && hdr == old(hdr)
        invariant kbuf.base == old(kbuf.base) || fresh(kbuf.base)
        invariant dbuf.base == old(dbuf.base) || fresh(dbuf.base)
        invariant Records(cfg, eng, f, nm, w0) == Records(cfg, eng, f, nm, Current())
        decreases |input.rest|
      {
        t := ReadRecord(f, nm);
        if !t.More? {
          return;
        }
      }
    }

    /** A new transaction: the canary, the table, and no record yet. */
    method BeginTable() returns (ready: bool)
      requires Valid()
      modifies this`db, this`hdr, this`count, key, data
      ensures Valid() && hdr == old(hdr).(global := false)
      ensures var o := OpenTable(cfg, hdr, PutCanary(eng, old(hdr), saved));
              if ready then o.Some? && Pointers()
                            && Current() == Work(input.rest, [], [], kbuf.len, dbuf.len, o.value, saved, 0, puts)
              else o.None?
    {
      hide OpenTable, PutCanary;
      db := PutCanary(eng, hdr, saved);
      hdr := hdr.(global := false);
      var target := OpenTable(cfg, hdr, db);
      if target.None? {
        return false;
      }
      db, count := target.value, 0;
      key.base, key.len := null, 0;
      data.base, data.len := null, 0;
      return true;
    }

    /** main() behind the opening of the environment: all tables, with the exit status. */
    method Run() returns (ok: bool)
      requires Valid() && hdr == INITIAL && dbuf.len == LINE_BUFFER && puts == 0
      modifies this, input, kbuf, kbuf.base, dbuf, dbuf.base, key, data
      ensures Load(cfg, eng, old(input.rest), old(kbuf.len), old(saved))
           == (if ok then Loaded(saved) else Failed(saved))
    {
      hide Records, ReadHeader, OpenTable, PutCanary;
      ghost var expected := Load(cfg, eng, input.rest, kbuf.len, saved);
      var rc := ReadHdr();
      if !rc.HdrRead? {
        return false;
      }
      while true
        invariant Valid()
        invariant kbuf.base == old(kbuf.base) || fresh(kbuf.base)
        invariant dbuf.base == old(dbuf.base) || fresh(dbuf.base)
        invariant expected == Tables(cfg, eng, hdr, input.rest, kbuf.len, dbuf.len, saved, puts)
        decreases |input.rest|
      {
        var ready := BeginTable();
        if !ready {
          return false;
        }
        var t := ReadRecords(FormatOf(hdr), hdr.name);
        if t.Bailout? {
          return false;
        }
        saved := db;
        rc := ReadHdr();
        if rc.HdrAtEof? {
          return true;
        }
        if rc.HdrFatal? {
          return false;
        }
      }
    }
  }
}
