/**
 * The reader table: read transactions, the writer's lock-free scan for the oldest of them, and the
 * ousting of parked ones. Every step is one atomic access to shared memory.
 */
module ReaderTable {

  import opened Bytes

  /** A slot's tid: its owner's, or one of the two marks. */
  datatype Tid = Owner | ParkedMark | OustedMark

  /** Where a reader is in ro_seize(), txn_ro_park(), txn_ro_unpark() or ro_slot_clean(). */
  datatype Pc =
    | Idle
    | Tapped      // metas read, head seen
    | Cleared     // slot->txnid reset
    | Noted       // retired counter stored
    | Posted      // slot->txnid stored
    | Flagged     // refresh flag raised
    | Validated   // metas read again, unchanged
    | FloorOk     // not below the cached oldest
    | Active
    | Parked
    | Unparking   // mark and txnid looked at
    | Restored    // mark taken back by CAS
    | Dropping
    | Dropped

  /** A slot with the thread that uses it: shared are slot (None is INVALID_TXNID), tid and retired. */
  datatype Reader = Reader(pc: Pc, seen: nat, slot: Option<nat>, tid: Tid, retired: nat)

  /** Where the writer is in mvcc_shapshot_oldest_rw(). */
  datatype Scan =
    | NoScan
    | Check(res: nat, steady: nat)                    // loop condition: is the table unchanged?
    | Store(res: nat)                                 // it is: about to store the cached oldest
    | Clear(steady: nat)                              // flag seen raised
    | Read(res: nat, steady: nat, i: nat)             // about to look at slot i
    | Kick(res: nat, steady: nat, i: nat, txn: nat)   // about to reset a stuck slot

  /** Where the writer is in ousting a parked reader of the oldest snapshot. */
  datatype Oust =
    | NoOust
    | Seen(i: nat, txn: nat)     // slot's txnid read
    | Marked(i: nat, txn: nat)   // slot's tid read: parked
    | Taken(i: nat, txn: nat)    // tid changed to ousted by CAS

  /** floor is the cached oldest txnid, quiet says that the refresh flag holds "nothing changed". */
  datatype Table = Table(readers: seq<Reader>, floor: nat, quiet: bool, scan: Scan, oust: Oust)

  datatype ReaderAct =
    | Tap(head: nat) | ClearSlot | Note(retired: nat) | Post | Flag | Retap(head: nat) | RetapFails(head: nat)
    | CheckFloor | CheckSlot | GiveUp | End | Nudge
    | Park | Look | TakeBack | Verify | Drop | DropSlot | DropTid

  datatype WriterAct =
    | ScanStart(steady: nat) | ScanCheck | ScanStore | ScanClear | ScanRead(stop: bool, kick: bool) | ScanKick
    | OustLook(i: nat, steady: nat) | OustMark | OustTake | OustReset

  function Put(t: Table, k: nat, r: Reader): Table
    requires k < |t.readers|
  {
    t.(readers := t.readers[k := r])
  }

  /**
   * What a step does to the reader itself; None where it is not enabled. Tap may see any older head,
   * since the process's copy of the metas can be stale; Retap compares with the head of this moment.
   */
  function Local(r: Reader, floor: nat, act: ReaderAct): Option<Reader> {
    match act
    case Tap(h) => if r.pc == Idle then Some(r.(pc := Tapped, seen := h)) else None
    case ClearSlot => if r.pc == Tapped then Some(r.(pc := Cleared, slot := None)) else None
    case Note(n) => if r.pc == Cleared then Some(r.(pc := Noted, retired := n)) else None
    case Post => if r.pc == Noted then Some(r.(pc := Posted, slot := Some(r.seen))) else None
    case Flag => if r.pc == Posted then Some(r.(pc := Flagged)) else None
    case Retap(h) => if r.pc == Flagged && r.seen == h then Some(r.(pc := Validated)) else None
    case RetapFails(h) => if r.pc == Flagged then Some(r.(pc := Tapped, seen := h)) else None
    case CheckFloor => if r.pc == Validated then Some(r.(pc := if r.seen < floor then Tapped else FloorOk)) else None
    case CheckSlot =>
      if r.pc == FloorOk then Some(r.(pc := if r.slot == Some(r.seen) then Active else Tapped)) else None
    case GiveUp =>
      if r.pc == Tapped || r.pc == Flagged || r.pc == Validated || r.pc == FloorOk then Some(r.(pc := Dropping))
      else None
    case End => if r.pc == Active then Some(r.(pc := Idle, slot := None)) else None
    case Nudge => Some(r)
    case Park => if r.pc == Active then Some(r.(pc := Parked, tid := ParkedMark)) else None
    case Look =>
      if r.pc == Parked then Some(r.(pc := if r.tid == OustedMark || r.slot == None then Dropping else Unparking))
      else None
    case TakeBack =>
      if r.pc == Unparking then Some(if r.tid == ParkedMark then r.(pc := Restored, tid := Owner) else r.(pc := Parked))
      else None
    case Verify =>
      if r.pc == Restored then Some(r.(pc := if r.slot == Some(r.seen) && r.tid == Owner then Active else Dropping))
      else None
    case Drop => if r.pc == Parked then Some(r.(pc := Dropping)) else None
    case DropSlot => if r.pc == Dropping then Some(r.(pc := Dropped, slot := None)) else None
    case DropTid => if r.pc == Dropped then Some(r.(pc := Idle, tid := Owner)) else None
  }

  /** A step of reader k; two of them raise the refresh flag. */
  function ReaderStep(t: Table, k: nat, act: ReaderAct): Option<Table>
    requires k < |t.readers|
  {
    var r := Local(t.readers[k], t.floor, act);
    if r.None? then None
    else Some(Put(t.(quiet := t.quiet && act != Flag && act != Nudge), k, r.value))
  }

  /** The loop body on slot i: stuck below the cached oldest, a new minimum, or neither. */
  function AfterRead(t: Table, res: nat, steady: nat, i: nat, stop: bool, kick: bool): Scan {
    if i >= |t.readers| then Check(res, steady)
    else
      match t.readers[i].slot
      case None => Read(res, steady, i + 1)
      case Some(txn) =>
        if txn < t.floor then (if kick then Kick(res, steady, i, txn) else Read(res, steady, i + 1))
        else if txn < res then (if stop && txn == t.floor then Check(txn, steady) else Read(txn, steady, i + 1))
        else Read(res, steady, i + 1)
  }

  /** A step of the writer on the table. */
  function WriterStep(t: Table, act: WriterAct): Option<Table> {
    var n := |t.readers|;
    match act
    case ScanStart(steady) =>
      if t.scan == NoScan && t.oust == NoOust then Some(t.(scan := Check(t.floor, steady))) else None
    case ScanCheck =>
      if !t.scan.Check? then None
      else if t.quiet then Some(t.(scan := Store(t.scan.res)))
      else Some(t.(scan := Clear(t.scan.steady)))
    case ScanStore =>
      if !t.scan.Store? then None else Some(t.(scan := NoScan, floor := t.scan.res))
    case ScanClear =>
      if !t.scan.Clear? then None else Some(t.(quiet := true, scan := Read(t.scan.steady, t.scan.steady, 0)))
    case ScanRead(stop, kick) =>
      if !t.scan.Read? then None
      else Some(t.(scan := AfterRead(t, t.scan.res, t.scan.steady, t.scan.i, stop, kick)))
    case ScanKick =>
      if !t.scan.Kick? || t.scan.i >= n then None
      else
        var r := t.readers[t.scan.i];
        var t1 := if r.slot == Some(t.scan.txn) then Put(t, t.scan.i, r.(slot := None)) else t;
        Some(t1.(scan := Read(t.scan.res, t.scan.steady, t.scan.i + 1)))
    case OustLook(i, steady) =>
      if t.scan == NoScan && t.oust == NoOust && i < n && t.readers[i].slot == Some(t.floor) && t.floor < steady
      then Some(t.(oust := Seen(i, t.floor))) else None
    case OustMark =>
      if t.oust.Seen? && t.oust.i < n then
        Some(t.(oust := if t.readers[t.oust.i].tid == ParkedMark then Marked(t.oust.i, t.oust.txn) else NoOust))
      else None
    case OustTake =>
      if t.oust.Marked? && t.oust.i < n then
        var r := t.readers[t.oust.i];
        if r.tid == ParkedMark then Some(Put(t, t.oust.i, r.(tid := OustedMark)).(oust := Taken(t.oust.i, t.oust.txn)))
        else Some(t.(oust := NoOust))
      else None
    case OustReset =>
      if t.oust.Taken? && t.oust.i < n then
        var r := t.readers[t.oust.i];
        Some((if r.slot == Some(t.oust.txn) then Put(t, t.oust.i, r.(slot := None)) else t).(oust := NoOust))
      else None
  }

  // ---------------------------------------------------------------- invariant

  /** The reader has seen its head unchanged after posting it. */
  predicate Confirmed(pc: Pc) {
    pc == Validated || pc == FloorOk || pc == Active || pc == Parked || pc == Unparking || pc == Restored
  }

  /** The reader keeps its snapshot: what it has posted was confirmed and not reset. */
  predicate Pinned(r: Reader) { Confirmed(r.pc) && r.slot == Some(r.seen) }

  /** The scan in progress cannot end above a transaction that slot k pins. */
  predicate ScanRespects(scan: Scan, k: nat, txn: nat) {
    match scan
    case NoScan => true
    case Check(res, _) => res <= txn
    case Store(res) => res <= txn
    case Clear(_) => true
    case Read(res, _, i) => k < i ==> res <= txn
    case Kick(res, _, i, _) => k <= i ==> res <= txn
  }

  predicate ReaderOk(r: Reader) {
    && (r.pc == Active || r.pc == Restored ==> r.slot == Some(r.seen))
    && (r.pc == Parked || r.pc == Unparking ==> r.tid != Owner)
    && (r.pc != Parked && r.pc != Unparking && r.pc != Dropping && r.pc != Dropped ==> r.tid == Owner)
    && (r.tid == ParkedMark && (r.pc == Parked || r.pc == Unparking) ==> r.slot == Some(r.seen))
    && (r.slot.Some? ==> r.slot.value == r.seen || r.pc == Tapped || r.pc == Dropping)
    && (r.pc == Idle || r.pc == Cleared || r.pc == Noted || r.pc == Dropped ==> r.slot == None)
  }

  ghost predicate ScanOk(t: Table, head: nat) {
    match t.scan
    case NoScan => true
    case Check(res, steady) => t.floor <= res <= steady <= head
    case Store(res) => t.floor <= res <= head
    case Clear(steady) => t.floor <= steady <= head
    case Read(res, steady, i) => t.floor <= res <= steady <= head && i <= |t.readers|
    case Kick(res, steady, i, txn) => t.floor <= res <= steady <= head && i < |t.readers| && txn < t.floor
  }

  ghost predicate OustOk(t: Table, head: nat) {
    match t.oust
    case NoOust => true
    case Seen(i, txn) => i < |t.readers| && txn == t.floor < head
    case Marked(i, txn) => i < |t.readers| && txn == t.floor < head
    case Taken(i, txn) =>
      && i < |t.readers| && txn == t.floor < head
      && (Confirmed(t.readers[i].pc) && t.readers[i].tid != OustedMark ==> t.readers[i].seen != txn)
  }

  /** What holds in every reachable state of the table, given the newest committed transaction. */
  ghost predicate Inv(t: Table, head: nat) {
    && t.floor <= head
    && ScanOk(t, head) && OustOk(t, head)
    && (t.scan != NoScan ==> t.oust == NoOust)
    && (forall k :: 0 <= k < |t.readers| ==> ReaderInv(t, head, k))
  }

  ghost predicate ReaderInv(t: Table, head: nat, k: nat)
    requires k < |t.readers|
  {
    var r := t.readers[k];
    && ReaderOk(r)
    && (Pinned(r) ==> t.floor <= r.seen <= head && ScanRespects(t.scan, k, r.seen))
  }

  // ---------------------------------------------------------------- preservation

  /** Which arguments an act may carry: Tap sees some committed head, Retap the present one. */
  ghost predicate ActOk(act: ReaderAct, head: nat) {
    match act
    case Tap(h) => h <= head
    case Retap(h) => h == head
    case RetapFails(h) => h <= head
    case _ => true
  }

  /** The steady point the writer scans against is between the cached oldest and the head. */
  ghost predicate WriterActOk(act: WriterAct, floor: nat, head: nat) {
    match act
    case ScanStart(steady) => floor <= steady <= head
    case OustLook(_, steady) => steady <= head
    case _ => true
  }

  lemma LocalKeepsReaderOk(r: Reader, floor: nat, act: ReaderAct)
    requires ReaderOk(r)
    ensures var s := Local(r, floor, act); s.Some? ==> ReaderOk(s.value)
  {
  }

  /** A reader that is pinned after its own step was pinned before, or has just confirmed the present head. */
  lemma LocalPins(r: Reader, floor: nat, act: ReaderAct, head: nat)
    requires ReaderOk(r) && ActOk(act, head)
    ensures var s := Local(r, floor, act);
            s.Some? && Pinned(s.value) ==> s.value.seen == head || (Pinned(r) && s.value.seen == r.seen)
    ensures var s := Local(r, floor, act);
            s.Some? && Confirmed(s.value.pc) && s.value.tid != OustedMark ==>
              s.value.seen == head || (Confirmed(r.pc) && r.tid != OustedMark && s.value.seen == r.seen)
  {
  }

  lemma ReaderStepKeepsInv(t: Table, head: nat, k: nat, act: ReaderAct)
    requires Inv(t, head) && k < |t.readers| && ActOk(act, head)
    ensures var r := ReaderStep(t, k, act); r.Some? ==> Inv(r.value, head)
  {
    hide Local;
    var s := ReaderStep(t, k, act);
    if s.Some? {
      assert ReaderInv(t, head, k);
      LocalKeepsReaderOk(t.readers[k], t.floor, act);
      LocalPins(t.readers[k], t.floor, act, head);
      forall j | 0 <= j < |t.readers| ensures ReaderInv(s.value, head, j) {
        assert ReaderInv(t, head, j);
      }
    }
  }

  /** Resetting a slot that no confirmed reader relies on. */
  lemma ResetKeepsInv(t: Table, head: nat, i: nat)
    requires Inv(t, head) && i < |t.readers|
    requires t.readers[i].pc != Active && t.readers[i].pc != Restored
    requires (t.readers[i].pc == Parked || t.readers[i].pc == Unparking) ==> t.readers[i].tid == OustedMark
    ensures Inv(Put(t, i, t.readers[i].(slot := None)), head)
  {
    var s := Put(t, i, t.readers[i].(slot := None));
    forall j | 0 <= j < |t.readers| ensures ReaderInv(s, head, j) {
      assert ReaderInv(t, head, j);
    }
  }

  lemma ScanStepKeepsInv(t: Table, head: nat, act: WriterAct)
    requires Inv(t, head) && WriterActOk(act, t.floor, head)
    requires act.ScanStart? || act.ScanCheck? || act.ScanStore? || act.ScanClear? || act.ScanRead?
    ensures var r := WriterStep(t, act); r.Some? ==> Inv(r.value, head)
  {
    var s := WriterStep(t, act);
    if s.Some? {
      forall j | 0 <= j < |t.readers| ensures ReaderInv(s.value, head, j) {
        assert ReaderInv(t, head, j);
      }
    }
  }

  lemma KickKeepsInv(t: Table, head: nat)
    requires Inv(t, head)
    ensures var r := WriterStep(t, ScanKick); r.Some? ==> Inv(r.value, head)
  {
    if t.scan.Kick? {
      var i := t.scan.i;
      assert ReaderInv(t, head, i);
      if t.readers[i].slot == Some(t.scan.txn) { ResetKeepsInv(t, head, i); }
      var t1 := if t.readers[i].slot == Some(t.scan.txn) then Put(t, i, t.readers[i].(slot := None)) else t;
      var s := t1.(scan := Read(t.scan.res, t.scan.steady, i + 1));
      forall j | 0 <= j < |t.readers| ensures ReaderInv(s, head, j) { assert ReaderInv(t1, head, j); }
    }
  }

  lemma OustStepKeepsInv(t: Table, head: nat, act: WriterAct)
    requires Inv(t, head) && WriterActOk(act, t.floor, head)
    requires act.OustLook? || act.OustMark? || act.OustTake?
    ensures var r := WriterStep(t, act); r.Some? ==> Inv(r.value, head)
  {
    var s := WriterStep(t, act);
    if s.Some? {
      forall j | 0 <= j < |t.readers| ensures ReaderInv(s.value, head, j) { assert ReaderInv(t, head, j); }
    }
  }

  lemma OustResetKeepsInv(t: Table, head: nat)
    requires Inv(t, head)
    ensures var r := WriterStep(t, OustReset); r.Some? ==> Inv(r.value, head)
  {
    if t.oust.Taken? {
      var i := t.oust.i;
      assert ReaderInv(t, head, i);
      if t.readers[i].slot == Some(t.oust.txn) { ResetKeepsInv(t, head, i); }
      var t1 := if t.readers[i].slot == Some(t.oust.txn) then Put(t, i, t.readers[i].(slot := None)) else t;
      forall j | 0 <= j < |t.readers| ensures ReaderInv(t1.(oust := NoOust), head, j) { assert ReaderInv(t1, head, j); }
    }
  }

  lemma WriterStepKeepsInv(t: Table, head: nat, act: WriterAct)
    requires Inv(t, head) && WriterActOk(act, t.floor, head)
    ensures var r := WriterStep(t, act); r.Some? ==> Inv(r.value, head)
  {
    hide WriterStep;
    match act {
      case ScanKick => KickKeepsInv(t, head);
      case OustReset => OustResetKeepsInv(t, head);
      case OustLook(_, _) => OustStepKeepsInv(t, head, act);
      case OustMark => OustStepKeepsInv(t, head, act);
      case OustTake => OustStepKeepsInv(t, head, act);
      case ScanStart(_) => ScanStepKeepsInv(t, head, act);
      case ScanCheck => ScanStepKeepsInv(t, head, act);
      case ScanStore => ScanStepKeepsInv(t, head, act);
      case ScanClear => ScanStepKeepsInv(t, head, act);
      case ScanRead(_, _) => ScanStepKeepsInv(t, head, act);
    }
  }

  /** A commit only moves the head up, which no part of the invariant minds. */
  lemma HeadMoves(t: Table, head: nat, head': nat)
    requires Inv(t, head) && head <= head'
    ensures Inv(t, head')
  {
    forall k | 0 <= k < |t.readers| ensures ReaderInv(t, head', k) { assert ReaderInv(t, head, k); }
  }

  // ---------------------------------------------------------------- what follows for readers

  /** An active reader keeps everything at or above its transaction: the cached oldest never passes it. */
  lemma ActiveAboveFloor(t: Table, head: nat, k: nat)
    requires Inv(t, head) && k < |t.readers| && t.readers[k].pc == Active
    ensures t.floor <= t.readers[k].seen <= head && t.readers[k].slot == Some(t.readers[k].seen)
  {
    assert ReaderInv(t, head, k);
  }

  /**
   * The writer marks only readers that are parked at that moment, and whatever it resets, it leaves
   * active readers, and those that have just taken their mark back, alone.
   */
  lemma OnlyParkedAreOusted(t: Table, head: nat, act: WriterAct, k: nat)
    requires Inv(t, head) && k < |t.readers| && WriterStep(t, act).Some?
    ensures var r, r' := t.readers[k], WriterStep(t, act).value.readers[k];
            && (r'.tid != r.tid ==> r.tid == ParkedMark && r'.tid == OustedMark)
            && (r.pc == Active || r.pc == Restored ==> r' == r)
            && r'.pc == r.pc && r'.seen == r.seen
  {
    assert ReaderInv(t, head, k);
  }

  /**
   * Unparking: taking the mark back by CAS settles it. From then on the slot still names the snapshot
   * the transaction was parked with, so the check behind the CAS cannot fail.
   */
  lemma TakenBackVerifies(t: Table, head: nat, k: nat)
    requires Inv(t, head) && k < |t.readers| && t.readers[k].pc == Restored
    ensures var r := Local(t.readers[k], t.floor, Verify);
            r.Some? && r.value.pc == Active && r.value.seen == t.readers[k].seen
  {
    assert ReaderInv(t, head, k);
  }

  // ---------------------------------------------------------------- undisturbed runs

  /** The least of the bound and of the transactions in the slots, those below the floor aside. */
  function Oldest(readers: seq<Reader>, floor: nat, bound: nat): (m: nat)
    ensures m <= bound
    ensures forall k :: 0 <= k < |readers| && readers[k].slot.Some? && readers[k].slot.value >= floor ==>
              m <= readers[k].slot.value
    ensures m == bound || exists k :: 0 <= k < |readers| && readers[k].slot == Some(m) && m >= floor
  {
    if readers == [] then bound
    else
      var n := |readers| - 1;
      var m := Oldest(readers[..n], floor, bound);
      match readers[n].slot
      case None => m
      case Some(txn) => if floor <= txn < m then txn else m
  }

  /** The scan from slot i on, each slot read once. */
  function ReadAll(t: Table): Option<Table>
    decreases if t.scan.Read? && t.scan.i <= |t.readers| then |t.readers| - t.scan.i + 1 else 0
  {
    if !t.scan.Read? || t.scan.i > |t.readers| then Some(t)
    else
      var n := WriterStep(t, ScanRead(false, false));
      if n.None? then None else ReadAll(n.value)
  }

  lemma OldestNext(readers: seq<Reader>, floor: nat, bound: nat, i: nat)
    requires i < |readers|
    ensures var m := Oldest(readers[..i], floor, bound);
            Oldest(readers[..i + 1], floor, bound)
              == if readers[i].slot.Some? && floor <= readers[i].slot.value < m then readers[i].slot.value else m
  {
    assert readers[..i + 1][..i] == readers[..i];
  }

  lemma {:induction false} ReadAllFinds(t: Table, steady: nat, i: nat)
    requires i <= |t.readers| && t.scan == Read(Oldest(t.readers[..i], t.floor, steady), steady, i)
    ensures ReadAll(t) == Some(t.(scan := Check(Oldest(t.readers, t.floor, steady), steady)))
    decreases |t.readers| - i
  {
    hide WriterStep, Oldest;
    OneRead(t, Oldest(t.readers[..i], t.floor, steady), steady, i);
    if i < |t.readers| {
      OldestNext(t.readers, t.floor, steady, i);
      ReadAllFinds(WriterStep(t, ScanRead(false, false)).value, steady, i + 1);
    } else {
      assert t.readers[..i] == t.readers;
    }
  }

  lemma OneRead(t: Table, res: nat, steady: nat, i: nat)
    requires i <= |t.readers| && t.scan == Read(res, steady, i)
    ensures WriterStep(t, ScanRead(false, false)) == Some(t.(scan :=
              if i == |t.readers| then Check(res, steady)
              else if t.readers[i].slot.Some? && t.floor <= t.readers[i].slot.value < res
              then Read(t.readers[i].slot.value, steady, i + 1) else Read(res, steady, i + 1)))
  {
  }

  /**
   * No reader interfering, a scan sets the cached oldest to exactly the least transaction posted, or the
   * steady one.
   */
  lemma UndisturbedScan(t: Table, steady: nat)
    requires t.scan == NoScan && t.oust == NoOust && !t.quiet
    ensures var started := WriterStep(WriterStep(t, ScanStart(steady)).value, ScanCheck);
            var cleared := WriterStep(started.value, ScanClear);
            var read := ReadAll(cleared.value);
            && started.Some? && cleared.Some? && read.Some?
            && var checked := WriterStep(read.value, ScanCheck);
               checked.Some?
               && WriterStep(checked.value, ScanStore)
                  == Some(t.(quiet := true, floor := Oldest(t.readers, t.floor, steady)))
  {
    var cleared := t.(quiet := true, scan := Read(steady, steady, 0));
    assert t.readers[..0] == [];
    ReadAllFinds(cleared, steady, 0);
  }
}
