/**
 * Readers, the writer, page reuse, meta pages and crashes together: one step system whose every run
 * keeps the snapshots being read whole, reuses no page too early, and survives a crash at any step.
 */
module Mvcc {

  import opened Bytes
  import T = Troika
  import M = Metas
  import R = ReaderTable
  import P = Pages

  /**
   * The database and the processes using it. live is the oldest snapshot still kept whole and acked the
   * newest transaction whose durable commit has returned; the program keeps neither.
   */
  datatype State = State(st: P.Store, disk: M.Disk, table: R.Table, txn: Option<P.Txn>, live: nat, acked: nat)

  datatype Event =
    | Reader(k: nat, ract: R.ReaderAct)
    | Table(wact: R.WriterAct)
    | BeginWrite
    | Page(act: P.Act)
    | Abort
    | SyncData                                             // the data pages reach the disk
    | Commit(back: map<nat, set<P.Page>>, steady: bool)    // snapshot published, its meta written
    | Upgrade                                              // a weak head made steady by mdbx_env_sync()
    | SyncMeta                                             // the meta pages reach the disk
    | Crash(img: seq<T.Meta>, mem: map<P.Page, int>)       // what is left, and recovery

  // ---------------------------------------------------------------- steps

  function Head(s: State): int { |s.st.hist| - 1 }

  /** The newest transaction certainly on disk. */
  function Base(s: State): nat {
    if s.disk.base < |s.disk.cur| then s.disk.cur[s.disk.base].txn else 0
  }

  /**
   * What a reader's step takes from the metas. ro_seize() reads the retired counter in an access of its
   * own: while the meta it looks at is the head, nobody overwrites it; later it may hold anything.
   */
  ghost predicate ReaderActFits(s: State, r: R.Reader, act: R.ReaderAct)
    requires T.Three(s.disk.cur)
  {
    match act
    case Tap(h) => h <= Head(s)
    case Retap(h) => h == s.disk.cur[M.HeadSlot(s.disk)].txn
    case RetapFails(h) => h <= Head(s)
    case Note(n) => 0 <= r.seen == Head(s) ==> n == s.st.hist[r.seen].retired
    case _ => true
  }

  /** The scan and the oust compare with the last steady point. */
  ghost predicate WriterActFits(s: State, act: R.WriterAct)
    requires T.Three(s.disk.cur)
  {
    match act
    case ScanStart(steady) => steady == s.disk.cur[M.SteadySlot(s.disk)].txn
    case OustLook(_, steady) => steady == s.disk.cur[M.SteadySlot(s.disk)].txn
    case _ => true
  }

  ghost function NextReader(s: State, k: nat, act: R.ReaderAct): Option<State> {
    if T.Three(s.disk.cur) && k < |s.table.readers| && ReaderActFits(s, s.table.readers[k], act) then
      var t := R.ReaderStep(s.table, k, act);
      if t.Some? then Some(s.(table := t.value)) else None
    else None
  }

  ghost function NextTable(s: State, act: R.WriterAct): Option<State> {
    if T.Three(s.disk.cur) && s.disk.phase == M.Quiet && WriterActFits(s, act) then
      var t := R.WriterStep(s.table, act);
      if t.Some? then Some(s.(table := t.value, live := P.Max(s.live, t.value.floor))) else None
    else None
  }

  ghost function NextPage(s: State, act: P.Act): Option<State> {
    if s.txn.Some? && s.disk.phase == M.Quiet then
      Some(s.(st := P.StepStore(s.st, s.txn.value, act), txn := Some(P.StepTxn(s.table.floor, s.txn.value, act))))
    else None
  }

  /** A steady meta is written only when no page is left unsynced. */
  ghost function NextCommit(s: State, back: map<nat, set<P.Page>>, steady: bool): Option<State> {
    if s.txn.Some? && s.st.hist != [] && T.Three(s.disk.cur) && |s.disk.cand| == 3
       && P.GiveBackOk(s.txn.value, s.table.floor, back) && (steady ==> s.st.unsynced == {}) then
      var d := M.WriteTail(s.disk, T.Meta(|s.st.hist|, steady));
      if d.Some? then
        Some(s.(st := P.Publish(s.st, P.CommitSnap(s.st, s.txn.value, back)), disk := d.value, txn := None))
      else None
    else None
  }

  ghost function NextUpgrade(s: State): Option<State> {
    if T.Three(s.disk.cur) && |s.disk.cand| == 3 && s.st.unsynced == {} then
      var d := M.Upgrade(s.disk);
      if d.Some? then Some(s.(disk := d.value)) else None
    else None
  }

  /** Flushing a steady meta completes a durable commit, or a sync, of its transaction. */
  function NextSyncMeta(s: State): State {
    var slot := if s.disk.phase.Pending? then s.disk.phase.slot else s.disk.base;
    s.(disk := M.Flush(s.disk),
       acked := if s.disk.phase.Pending? && slot < |s.disk.cur| then s.disk.cur[slot].txn else s.acked)
  }

  function FreshTable(n: nat): R.Table {
    R.Table(seq(n, _ => R.Reader(R.Idle, 0, None, R.Owner, 0)), 0, false, R.NoScan, R.NoOust)
  }

  /** A crash of the whole system, then the first process to open the database recovers it. */
  ghost function NextCrash(s: State, img: seq<T.Meta>, mem: map<P.Page, int>): Option<State> {
    if M.Image(s.disk, img) && P.SurvivesIn(s.st, mem) && M.Opens(img, M.REBOOTED) then
      var txn := img[T.Tap(img).preferSteady].txn;
      if txn < |s.st.hist| then
        Some(State(P.Rollback(s.st, mem, txn), M.Recovered(img), FreshTable(|s.table.readers|), None, txn, s.acked))
      else None
    else None
  }

  ghost function Next(s: State, e: Event): Option<State> {
    match e
    case Reader(k, act) => NextReader(s, k, act)
    case Table(act) => NextTable(s, act)
    case BeginWrite =>
      if s.txn.None? && s.st.hist != [] && s.disk.phase == M.Quiet then Some(s.(txn := Some(P.Begin(s.st)))) else None
    case Page(act) => NextPage(s, act)
    case Abort => Some(s.(txn := None))
    case SyncData => Some(s.(st := s.st.(unsynced := {})))
    case Commit(back, steady) => NextCommit(s, back, steady)
    case Upgrade => NextUpgrade(s)
    case SyncMeta => Some(NextSyncMeta(s))
    case Crash(img, mem) => NextCrash(s, img, mem)
  }

  /** A run; events that are not possible at their moment end it. */
  ghost function Run(s: State, es: seq<Event>): Option<State>
    decreases |es|
  {
    if es == [] then Some(s)
    else
      var n := Next(s, es[0]);
      if n.None? then None else Run(n.value, es[1..])
  }

  /** A database just created: three steady metas and an empty tree. */
  function Created(readers: nat): State {
    var empty := P.Snap(map[], map[], P.NUM_METAS, 0, {});
    var metas := [T.Meta(1, true), T.Meta(2, true), T.Meta(3, true)];
    State(P.Store([empty, empty, empty, empty], map[], {}), M.Disk(metas, M.Flushed(metas), 2, M.Quiet),
          FreshTable(readers), None, 0, 0)
  }

  // ---------------------------------------------------------------- invariant

  /** The snapshot's pages have all reached the disk. */
  ghost predicate OnDisk(st: P.Store, txn: nat) {
    txn < |st.hist| ==> st.hist[txn].tree.Keys !! st.unsynced
  }

  /** Every steady meta a crash may bring up, unless too old to matter, names a snapshot that is on disk. */
  ghost predicate Durable(st: P.Store, live: nat, cand: set<T.Meta>) {
    forall m :: m in cand && m.steady && live <= m.txn ==> OnDisk(st, m.txn)
  }

  ghost predicate DiskOk(s: State) {
    && 0 <= Head(s) && M.DiskInv(s.disk, Head(s))
    && s.live <= Base(s) && s.acked <= Base(s)
    && Durable(s.st, s.live, s.disk.cand[0]) && Durable(s.st, s.live, s.disk.cand[1])
    && Durable(s.st, s.live, s.disk.cand[2])
  }

  /** The retired counter has been stored. */
  predicate HasNoted(pc: R.Pc) { pc == R.Noted || pc == R.Posted || pc == R.Flagged || R.Confirmed(pc) }

  /** The counter stored is that of the snapshot seen, which is certain only once the head was seen unchanged. */
  ghost predicate CounterOk(s: State, r: R.Reader)
    requires r.seen <= Head(s)
  {
    HasNoted(r.pc) && (R.Confirmed(r.pc) || r.seen == Head(s)) ==> r.retired == s.st.hist[r.seen].retired
  }

  ghost predicate ReaderOk(s: State, k: nat)
    requires k < |s.table.readers|
  {
    var r := s.table.readers[k];
    && (R.Pinned(r) ==> s.live <= r.seen)
    && r.seen <= Head(s) && CounterOk(s, r)
  }

  /** A scan does not aim above the base. */
  predicate ScanBelow(scan: R.Scan, base: nat) {
    match scan
    case NoScan => true
    case Check(res, steady) => res <= base && steady <= base
    case Store(res) => res <= base
    case Clear(steady) => steady <= base
    case Read(res, steady, _) => res <= base && steady <= base
    case Kick(res, steady, _, _) => res <= base && steady <= base
  }

  ghost predicate TableOk(s: State) {
    && 0 <= Head(s) && R.Inv(s.table, Head(s))
    && s.table.floor <= s.live && ScanBelow(s.table.scan, Base(s))
    && (forall k :: 0 <= k < |s.table.readers| ==> ReaderOk(s, k))
  }

  ghost predicate Inv(s: State) {
    && P.StoreInv(s.st, s.live)
    && DiskOk(s)
    && TableOk(s)
    && (s.txn.Some? ==> P.TxnInv(s.st, s.live, s.txn.value))
  }

  // ---------------------------------------------------------------- preservation

  lemma CreatedInv(n: nat)
    ensures Inv(Created(n))
  {
    hide R.ScanOk, R.OustOk;
    var s := Created(n);
    M.SettledKeepsInv(s.disk.cur, 2, 3);
    assert P.Counted(s.st.hist);
    assert forall k :: 0 <= k < |s.table.readers| ==> ReaderOk(s, k) && R.ReaderInv(s.table, 3, k);
    TableCreated(n, 3);
  }

  lemma TableCreated(n: nat, head: nat)
    ensures R.Inv(FreshTable(n), head)
  {
    assert forall k :: 0 <= k < n ==> R.ReaderInv(FreshTable(n), head, k);
  }

  lemma Bounds(s: State)
    requires Inv(s)
    ensures s.st.hist != [] && M.Shape(s.disk) && s.table.floor <= s.live <= Base(s) <= Head(s) && s.acked <= Base(s)
  {
    assert s.disk.cur[s.disk.base] in s.disk.cand[s.disk.base];
  }

  lemma ReaderKeeps(s: State, k: nat, act: R.ReaderAct)
    requires Inv(s) && NextReader(s, k, act).Some?
    ensures Inv(NextReader(s, k, act).value)
  {
    hide R.Local, P.StoreInv, P.TxnInv, M.DiskInv, Durable, T.Tap, R.Inv;
    M.Choices(s.disk, Head(s));
    assert R.ActOk(act, Head(s));
    R.ReaderStepKeepsInv(s.table, Head(s), k, act);
    ReaderStaysOk(s, k, act);
    var s' := NextReader(s, k, act).value;
    forall j | 0 <= j < |s'.table.readers| ensures ReaderOk(s', j) { assert j != k ==> ReaderOk(s, j); }
  }

  lemma ReaderStaysOk(s: State, k: nat, act: R.ReaderAct)
    requires Inv(s) && NextReader(s, k, act).Some? && R.ActOk(act, Head(s))
    ensures ReaderOk(NextReader(s, k, act).value, k)
  {
    Bounds(s);
    hide P.StoreInv, P.TxnInv, M.DiskInv, Durable, T.Tap;
    assert ReaderOk(s, k) && R.ReaderInv(s.table, Head(s), k);
    LocalNoted(s.table.readers[k], s.table.floor, act);
    R.LocalPins(s.table.readers[k], s.table.floor, act, Head(s));
    hide R.Local;
  }

  /** The counter stays with the snapshot it was noted for, until a second look at the metas settles it. */
  lemma LocalNoted(r: R.Reader, floor: nat, act: R.ReaderAct)
    ensures var o := R.Local(r, floor, act);
            o.Some? ==>
              && (o.value.seen == r.seen || ((act.Tap? || act.RetapFails?) && o.value.seen == act.head))
              && (HasNoted(o.value.pc) ==>
                    o.value.seen == r.seen && (if act.Note? then o.value.retired == act.retired
                                               else HasNoted(r.pc) && o.value.retired == r.retired))
              && (R.Confirmed(o.value.pc) ==> R.Confirmed(r.pc) || (act.Retap? && r.seen == act.head))
  {
  }

  lemma TableKeeps(s: State, act: R.WriterAct)
    requires Inv(s) && NextTable(s, act).Some?
    ensures Inv(NextTable(s, act).value)
  {
    hide R.WriterStep, P.StoreInv, P.TxnInv, M.DiskInv, Durable, T.Tap, R.Inv;
    M.Choices(s.disk, Head(s));
    Bounds(s);
    var s' := NextTable(s, act).value;
    R.WriterStepKeepsInv(s.table, Head(s), act);
    ScanStaysBelow(s.table, act, Base(s));
    P.LiveMoves(s.st, s.live, s'.live);
    if s.txn.Some? { P.TxnLiveMoves(s.st, s.live, s'.live, s.txn.value); }
    forall k | 0 <= k < |s'.table.readers| ensures ReaderOk(s', k) { TableReaderOk(s, act, k); }
    DurableMoves(s.st, s.live, s'.live, s.disk);
  }

  /** The cached oldest goes no further than the base, and no scan starts above it. */
  lemma ScanStaysBelow(t: R.Table, act: R.WriterAct, base: nat)
    requires ScanBelow(t.scan, base) && t.floor <= base && (act.ScanStart? ==> act.steady == base)
    ensures var r := R.WriterStep(t, act);
            r.Some? ==> ScanBelow(r.value.scan, base) && r.value.floor <= base && |r.value.readers| == |t.readers|
  {
  }

  lemma TableReaderOk(s: State, act: R.WriterAct, k: nat)
    requires Inv(s) && NextTable(s, act).Some? && k < |s.table.readers|
    requires var t := R.WriterStep(s.table, act).value; R.Inv(t, Head(s)) && |t.readers| == |s.table.readers|
    ensures ReaderOk(NextTable(s, act).value, k)
  {
    hide P.StoreInv, P.TxnInv, M.DiskInv, Durable, T.Tap;
    var t := R.WriterStep(s.table, act).value;
    assert ReaderOk(s, k) && R.ReaderInv(t, Head(s), k);
    R.OnlyParkedAreOusted(s.table, Head(s), act, k);
    WriterPinsNothing(s.table, act, k);
    hide R.WriterStep;
  }

  /** A step of the writer neither pins a reader nor changes a retired counter. */
  lemma WriterPinsNothing(t: R.Table, act: R.WriterAct, k: nat)
    requires k < |t.readers| && R.WriterStep(t, act).Some?
    ensures var r, r' := t.readers[k], R.WriterStep(t, act).value.readers[k];
            (R.Pinned(r') ==> R.Pinned(r)) && r'.retired == r.retired
  {
  }

  lemma DurableMoves(st: P.Store, live: nat, live': nat, d: M.Disk)
    requires |d.cand| == 3 && live <= live'
    ensures forall j :: 0 <= j < 3 && Durable(st, live, d.cand[j]) ==> Durable(st, live', d.cand[j])
  {
  }

  lemma PageKeeps(s: State, act: P.Act)
    requires Inv(s) && NextPage(s, act).Some?
    ensures Inv(NextPage(s, act).value)
  {
    hide P.StoreInv, P.TxnInv, M.DiskInv, T.Tap, R.Inv, P.StepTxn;
    Bounds(s);
    var w := s.txn.value;
    var s' := NextPage(s, act).value;
    P.StepKeepsStore(s.st, s.live, w, act);
    P.StepKeepsTxn(s.st, s.live, s.table.floor, w, act);
    forall k | 0 <= k < |s'.table.readers| ensures ReaderOk(s', k) { assert ReaderOk(s, k); }
    forall j | 0 <= j < 3 ensures Durable(s'.st, s.live, s.disk.cand[j]) {
      forall m | m in s.disk.cand[j] && m.steady && s.live <= m.txn ensures OnDisk(s'.st, m.txn) {
        PageOffDisk(s, act, m.txn);
      }
    }
  }

  /** A step does not touch the pages of a live snapshot. */
  lemma PageOffDisk(s: State, act: P.Act, txn: nat)
    requires s.txn.Some? && P.TxnInv(s.st, s.live, s.txn.value) && s.live <= txn && OnDisk(s.st, txn)
    ensures OnDisk(P.StepStore(s.st, s.txn.value, act), txn)
  {
    if P.Target(s.txn.value, act).Some? { P.TargetIsUnused(s.st, s.live, s.txn.value, act); }
  }

  lemma BeginKeeps(s: State)
    requires Inv(s) && Next(s, BeginWrite).Some?
    ensures Inv(Next(s, BeginWrite).value)
  {
    hide P.StoreInv, P.TxnInv, M.DiskInv, T.Tap, R.Inv, Durable;
    P.BeginKeepsInv(s.st, s.live);
    var s' := Next(s, BeginWrite).value;
    forall k | 0 <= k < |s'.table.readers| ensures ReaderOk(s', k) { assert ReaderOk(s, k); }
  }

  lemma SyncDataKeeps(s: State)
    requires Inv(s)
    ensures Inv(Next(s, SyncData).value)
  {
    hide M.DiskInv, T.Tap, R.Inv, ReaderOk;
    Bounds(s);
    var s' := Next(s, SyncData).value;
    SyncDataKeepsPages(s);
    hide P.StoreInv, P.TxnInv;
    forall k | 0 <= k < |s'.table.readers| ensures ReaderOk(s', k) { SameReaderOk(s, s', k); }
  }

  lemma SameReaderOk(s: State, s': State, k: nat)
    requires k < |s.table.readers| && ReaderOk(s, k)
    requires s'.table == s.table && s'.live == s.live && s'.st.hist == s.st.hist
    ensures ReaderOk(s', k)
  {
  }

  lemma SyncDataKeepsPages(s: State)
    requires P.StoreInv(s.st, s.live) && (s.txn.Some? ==> P.TxnInv(s.st, s.live, s.txn.value))
    ensures var st := s.st.(unsynced := {});
            P.StoreInv(st, s.live) && (s.txn.Some? ==> P.TxnInv(st, s.live, s.txn.value))
  {
    hide P.SnapOk, P.Unused, P.GcUnused, P.Counted, P.Partition, P.Intact;
  }

  lemma SyncMetaKeeps(s: State)
    requires Inv(s)
    ensures Inv(Next(s, SyncMeta).value)
    ensures Base(s) <= Base(Next(s, SyncMeta).value)
  {
    hide P.StoreInv, P.TxnInv, T.Tap, R.Inv, OnDisk, M.Distinct, M.UpTo;
    Bounds(s);
    var s' := Next(s, SyncMeta).value;
    M.FlushKeepsInv(s.disk, Head(s));
    assert forall j :: 0 <= j < 3 ==> s'.disk.cand[j] == {s.disk.cur[j]} && s.disk.cur[j] in s.disk.cand[j];
    ScanHigher(s.table.scan, Base(s), Base(s'));
    forall k | 0 <= k < |s'.table.readers| ensures ReaderOk(s', k) { assert ReaderOk(s, k); }
  }

  lemma ScanHigher(scan: R.Scan, base: nat, base': nat)
    requires ScanBelow(scan, base) && base <= base'
    ensures ScanBelow(scan, base')
  {
  }

  lemma UpgradeKeeps(s: State)
    requires Inv(s) && NextUpgrade(s).Some?
    ensures Inv(NextUpgrade(s).value)
  {
    hide P.StoreInv, P.TxnInv, T.Tap, R.Inv, M.DiskInv;
    Bounds(s);
    M.UpgradeKeepsInv(s.disk, Head(s));
    M.Choices(s.disk, Head(s));
    T.TapIsSound(s.disk.cur);
    var s' := NextUpgrade(s).value;
    BaseStays(s.disk, M.HeadSlot(s.disk), T.Meta(s.disk.cur[M.HeadSlot(s.disk)].txn, true), Head(s));
    forall k | 0 <= k < |s'.table.readers| ensures ReaderOk(s', k) { assert ReaderOk(s, k); }
  }

  lemma BaseStays(d: M.Disk, slot: nat, m: T.Meta, head: nat)
    requires M.DiskInv(d, head) && slot < 3 && (slot != d.base || !d.cur[slot].steady)
    ensures var d' := M.SetMeta(d, slot, m); d'.base == d.base && d'.cur[d.base] == d.cur[d.base]
  {
  }

  lemma CommitKeeps(s: State, back: map<nat, set<P.Page>>, steady: bool)
    requires Inv(s) && NextCommit(s, back, steady).Some?
    ensures Inv(NextCommit(s, back, steady).value)
  {
    hide P.StoreInv, P.TxnInv, T.Tap, R.Inv, M.DiskInv, P.CommitSnap, Durable;
    Bounds(s);
    var m := T.Meta(|s.st.hist|, steady);
    var s' := NextCommit(s, back, steady).value;
    M.WriteTailKeepsInv(s.disk, Head(s), m);
    M.Choices(s.disk, Head(s));
    T.TapIsSound(s.disk.cur);
    BaseStays(s.disk, T.Tap(s.disk.cur).tail, m, Head(s));
    P.CommitKeepsInv(s.st, s.live, s.txn.value, back);
    R.HeadMoves(s.table, Head(s), Head(s'));
    forall k | 0 <= k < |s'.table.readers| ensures ReaderOk(s', k) { assert ReaderOk(s, k); }
    CommitDurable(s, back, steady);
  }

  lemma CommitDurable(s: State, back: map<nat, set<P.Page>>, steady: bool)
    requires Inv(s) && NextCommit(s, back, steady).Some?
    ensures var s' := NextCommit(s, back, steady).value;
            forall j :: 0 <= j < 3 ==> Durable(s'.st, s.live, s'.disk.cand[j])
  {
    hide P.StoreInv, P.TxnInv, T.Tap, R.Inv, M.DiskInv, P.CommitSnap;
    Bounds(s);
    var s' := NextCommit(s, back, steady).value;
    forall j | 0 <= j < 3 ensures Durable(s'.st, s.live, s'.disk.cand[j]) {
      forall m | m in s'.disk.cand[j] && m.steady && s.live <= m.txn ensures OnDisk(s'.st, m.txn) {
        if m in s.disk.cand[j] {
          assert OnDisk(s.st, m.txn) && m.txn <= Head(s) by { CandBelow(s.disk, Head(s), j, m); }
        }
      }
    }
  }

  lemma CandBelow(d: M.Disk, head: nat, j: nat, m: T.Meta)
    requires M.DiskInv(d, head) && j < 3 && m in d.cand[j]
    ensures m.txn <= head
  {
  }

  lemma CrashKeeps(s: State, img: seq<T.Meta>, mem: map<P.Page, int>)
    requires Inv(s) && NextCrash(s, img, mem).Some?
    ensures Inv(NextCrash(s, img, mem).value)
  {
    hide P.StoreInv, P.TxnInv, T.Tap, R.Inv, M.DiskInv, P.SurvivesIn, M.Opens;
    Bounds(s);
    var s' := NextCrash(s, img, mem).value;
    var slot := T.Tap(img).preferSteady;
    M.CrashIsRecoverable(s.disk, Head(s), img);
    M.RecoveredKeepsInv(s.disk, Head(s), img);
    assert OnDisk(s.st, img[slot].txn);
    P.RollbackKeepsInv(s.st, s.live, mem, img[slot].txn);
    TableCreated(|s.table.readers|, Head(s'));
  }

  lemma NextKeepsInv(s: State, e: Event)
    requires Inv(s) && Next(s, e).Some?
    ensures Inv(Next(s, e).value)
  {
    hide Inv, NextReader, NextTable, NextPage, NextCommit, NextUpgrade, NextSyncMeta, NextCrash;
    match e {
      case Reader(k, act) => ReaderKeeps(s, k, act);
      case Table(act) => TableKeeps(s, act);
      case BeginWrite => BeginKeeps(s);
      case Page(act) => PageKeeps(s, act);
      case Abort => AbortKeeps(s);
      case SyncData => SyncDataKeeps(s);
      case Commit(back, steady) => CommitKeeps(s, back, steady);
      case Upgrade => UpgradeKeeps(s);
      case SyncMeta => SyncMetaKeeps(s);
      case Crash(img, mem) => CrashKeeps(s, img, mem);
    }
  }

  lemma AbortKeeps(s: State)
    requires Inv(s)
    ensures Inv(Next(s, Abort).value)
  {
    hide P.StoreInv, P.TxnInv, M.DiskInv, T.Tap, R.Inv, Durable;
    var s' := Next(s, Abort).value;
    forall k | 0 <= k < |s'.table.readers| ensures ReaderOk(s', k) { assert ReaderOk(s, k); }
  }

  /** Every state of every run from a new database. */
  lemma {:induction false} RunKeepsInv(s: State, es: seq<Event>)
    requires Inv(s) && Run(s, es).Some?
    ensures Inv(Run(s, es).value)
    decreases |es|
  {
    hide Inv, Next;
    if es != [] {
      NextKeepsInv(s, es[0]);
      RunKeepsInv(Next(s, es[0]).value, es[1..]);
    }
  }
}
