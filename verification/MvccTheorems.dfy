/** What the step system of module Mvcc promises over whole runs. */
module MvccTheorems {

  import opened Bytes
  import opened Mvcc
  import T = Troika
  import M = Metas
  import R = ReaderTable
  import P = Pages

  /** A state reached from a new database, by any interleaving of readers, writer, flushes and crashes. */
  ghost predicate Reached(s: State, n: nat, es: seq<Event>) { Run(Created(n), es) == Some(s) }

  lemma ReachedInv(s: State, n: nat, es: seq<Event>)
    requires Reached(s, n, es)
    ensures Inv(s)
  {
    CreatedInv(n);
    RunKeepsInv(Created(n), es);
  }

  // ---------------------------------------------------------------- readers and page reuse

  /**
   * The snapshot of an active reader: nothing below the cached oldest, whole in memory with the contents
   * it was committed with, and not a target of whatever the writer may write next.
   */
  lemma ActiveSnapshotIsWhole(s: State, n: nat, es: seq<Event>, k: nat, act: P.Act)
    requires Reached(s, n, es) && k < |s.table.readers| && s.table.readers[k].pc == R.Active
    ensures var seen := s.table.readers[k].seen;
            && s.table.floor <= seen < |s.st.hist|
            && P.Intact(s.st.mem, s.st.hist[seen].tree)
            && (s.txn.Some? && P.Target(s.txn.value, act).Some? ==>
                  P.Target(s.txn.value, act).value !in s.st.hist[seen].tree)
  {
    ReachedInv(s, n, es);
    R.ActiveAboveFloor(s.table, Head(s), k);
    assert ReaderOk(s, k);
    if s.txn.Some? && P.Target(s.txn.value, act).Some? { P.TargetIsUnused(s.st, s.live, s.txn.value, act); }
  }

  /** In every snapshot each page behind the metas is in the trees or in exactly one GC record. */
  lemma PagesArePartitioned(s: State, n: nat, es: seq<Event>, txn: nat)
    requires Reached(s, n, es) && txn < |s.st.hist|
    ensures P.SnapOk(s.st.hist[txn])
  {
    ReachedInv(s, n, es);
  }

  /** The head's retired counter less the reader's is the number of pages retired since the reader's snapshot. */
  lemma LagIsPagesRetired(s: State, n: nat, es: seq<Event>, k: nat)
    requires Reached(s, n, es) && k < |s.table.readers| && s.table.readers[k].pc == R.Active
    ensures var r, h := s.table.readers[k], |s.st.hist| - 1;
            && 0 <= r.seen <= h
            && s.st.hist[h].retired - r.retired == P.RetiredBetween(s.st.hist, r.seen, h)
  {
    ReachedInv(s, n, es);
    assert ReaderOk(s, k);
    P.CounterDifference(s.st.hist, s.table.readers[k].seen, |s.st.hist| - 1);
  }

  // ---------------------------------------------------------------- parking

  /** No crash, and reader k starts no new transaction. */
  predicate Quietly(es: seq<Event>, k: nat) {
    forall i :: 0 <= i < |es| ==> !es[i].Crash? && !(es[i].Reader? && es[i].k == k && es[i].ract.Tap?)
  }

  predicate InOldTxn(pc: R.Pc) {
    || pc == R.Active || pc == R.Parked || pc == R.Unparking || pc == R.Restored
    || pc == R.Dropping || pc == R.Dropped || pc == R.Idle
  }

  lemma LocalKeepsTxn(r: R.Reader, floor: nat, act: R.ReaderAct)
    requires InOldTxn(r.pc) && !act.Tap?
    ensures var o := R.Local(r, floor, act); o.Some? ==> InOldTxn(o.value.pc) && o.value.seen == r.seen
  {
  }

  lemma StepKeepsTxn(s: State, e: Event, k: nat)
    requires Inv(s) && Next(s, e).Some? && k < |s.table.readers| && InOldTxn(s.table.readers[k].pc) && Quietly([e], k)
    ensures var s' := Next(s, e).value;
            && |s'.table.readers| == |s.table.readers|
            && InOldTxn(s'.table.readers[k].pc) && s'.table.readers[k].seen == s.table.readers[k].seen
            && s.st.hist <= s'.st.hist
  {
    hide R.Local, R.WriterStep, T.Tap, P.StoreInv, P.TxnInv, DiskOk, NextCrash, P.GiveBackOk, P.CommitSnap, P.StepTxn;
    assert [e][0] == e;
    match e {
      case Reader(j, act) => if j == k { LocalKeepsTxn(s.table.readers[k], s.table.floor, act); }
      case Table(act) => R.OnlyParkedAreOusted(s.table, Head(s), act, k); WriterKeepsSize(s.table, act);
      case _ =>
    }
  }

  lemma WriterKeepsSize(t: R.Table, act: R.WriterAct)
    ensures var r := R.WriterStep(t, act); r.Some? ==> |r.value.readers| == |t.readers|
  {
  }

  lemma {:induction false} RunKeepsTxn(s: State, es: seq<Event>, k: nat)
    requires Inv(s) && Run(s, es).Some? && k < |s.table.readers| && InOldTxn(s.table.readers[k].pc) && Quietly(es, k)
    ensures var s' := Run(s, es).value;
            && Inv(s') && |s'.table.readers| == |s.table.readers|
            && s'.table.readers[k].seen == s.table.readers[k].seen && s.st.hist <= s'.st.hist
    decreases |es|
  {
    hide Inv, Next;
    if es != [] {
      assert Quietly([es[0]], k) && Quietly(es[1..], k) by {
        assert forall i :: 0 <= i < |es[1..]| ==> es[1..][i] == es[i + 1];
      }
      NextKeepsInv(s, es[0]);
      StepKeepsTxn(s, es[0], k);
      RunKeepsTxn(Next(s, es[0]).value, es[1..], k);
    }
  }

  /**
   * However long it was parked and whatever the writer did meanwhile: a reader that is active again in
   * its old transaction finds the very snapshot it was parked with, unrecycled.
   */
  lemma UnparkFindsItsSnapshot(s: State, n: nat, es: seq<Event>, later: seq<Event>, k: nat)
    requires Reached(s, n, es) && k < |s.table.readers| && s.table.readers[k].pc == R.Parked
    requires Quietly(later, k) && Run(s, later).Some?
    requires k < |Run(s, later).value.table.readers| && Run(s, later).value.table.readers[k].pc == R.Active
    ensures var s', seen := Run(s, later).value, s.table.readers[k].seen;
            && s'.table.readers[k].seen == seen < |s.st.hist| <= |s'.st.hist|
            && s'.st.hist[seen] == s.st.hist[seen]
            && P.Intact(s'.st.mem, s.st.hist[seen].tree)
            && s'.table.floor <= seen
  {
    ReachedInv(s, n, es);
    assert ReaderOk(s, k);
    RunKeepsTxn(s, later, k);
    var s' := Run(s, later).value;
    R.ActiveAboveFloor(s'.table, Head(s'), k);
    assert ReaderOk(s', k);
  }

  /** Whatever happens next, only a parked reader becomes ousted, and never an active or restored one. */
  lemma OnlyParkedBecomeOusted(s: State, n: nat, es: seq<Event>, e: Event, k: nat)
    requires Reached(s, n, es) && Next(s, e).Some? && k < |s.table.readers| && k < |Next(s, e).value.table.readers|
    requires s.table.readers[k].tid != R.OustedMark && Next(s, e).value.table.readers[k].tid == R.OustedMark
    ensures s.table.readers[k].tid == R.ParkedMark
    ensures s.table.readers[k].pc != R.Active && s.table.readers[k].pc != R.Restored
    ensures e.Table?
  {
    ReachedInv(s, n, es);
    assert R.Inv(s.table, Head(s)) && R.ReaderInv(s.table, Head(s), k);
    hide Inv, R.Local, R.WriterStep, R.Inv, T.Tap;
    match e {
      case Reader(j, act) => if j == k { LocalOustsNobody(s.table.readers[k], s.table.floor, act); }
      case Table(act) => R.OnlyParkedAreOusted(s.table, Head(s), act, k);
      case _ =>
    }
  }

  lemma LocalOustsNobody(r: R.Reader, floor: nat, act: R.ReaderAct)
    ensures var o := R.Local(r, floor, act); o.Some? && o.value.tid == R.OustedMark ==> r.tid == R.OustedMark
  {
  }

  predicate NoNewTxn(es: seq<Event>, k: nat) {
    forall i :: 0 <= i < |es| ==> !(es[i].Reader? && es[i].k == k && es[i].ract.Tap?)
  }

  /** An ousted transaction, on its way out or gone already. */
  predicate Leaving(r: R.Reader) {
    || r.pc == R.Dropping || r.pc == R.Dropped || r.pc == R.Idle
    || ((r.pc == R.Parked || r.pc == R.Unparking) && r.tid == R.OustedMark)
  }

  lemma LocalKeepsLeaving(r: R.Reader, floor: nat, act: R.ReaderAct)
    requires Leaving(r) && !act.Tap?
    ensures var o := R.Local(r, floor, act); o.Some? ==> Leaving(o.value)
  {
  }

  lemma StepKeepsLeaving(s: State, e: Event, k: nat)
    requires Inv(s) && Next(s, e).Some? && k < |s.table.readers| && Leaving(s.table.readers[k]) && NoNewTxn([e], k)
    ensures var s' := Next(s, e).value;
            |s'.table.readers| == |s.table.readers| && Leaving(s'.table.readers[k])
  {
    hide R.Local, R.WriterStep, T.Tap, P.StoreInv, P.TxnInv, DiskOk, P.GiveBackOk, P.CommitSnap, P.StepTxn;
    hide M.Image, P.SurvivesIn, M.Opens, P.Rollback, M.Recovered;
    assert [e][0] == e;
    match e {
      case Reader(j, act) => if j == k { LocalKeepsLeaving(s.table.readers[k], s.table.floor, act); }
      case Table(act) => R.OnlyParkedAreOusted(s.table, Head(s), act, k); WriterKeepsSize(s.table, act);
      case _ =>
    }
  }

  lemma {:induction false} RunKeepsLeaving(s: State, es: seq<Event>, k: nat)
    requires Inv(s) && Run(s, es).Some? && k < |s.table.readers| && Leaving(s.table.readers[k]) && NoNewTxn(es, k)
    ensures var s' := Run(s, es).value;
            |s'.table.readers| == |s.table.readers| && Leaving(s'.table.readers[k])
    decreases |es|
  {
    hide Inv, Next, Leaving;
    if es != [] {
      assert NoNewTxn([es[0]], k) && NoNewTxn(es[1..], k) by {
        assert forall i :: 0 <= i < |es[1..]| ==> es[1..][i] == es[i + 1];
      }
      NextKeepsInv(s, es[0]);
      StepKeepsLeaving(s, es[0], k);
      RunKeepsLeaving(Next(s, es[0]).value, es[1..], k);
    }
  }

  /**
   * A transaction once ousted stays out: over any further run, its reader does not get active again, nor
   * takes its mark back, before it starts a new transaction.
   */
  lemma OustedNeverComesBack(s: State, n: nat, es: seq<Event>, later: seq<Event>, k: nat)
    requires Reached(s, n, es) && k < |s.table.readers| && s.table.readers[k].tid == R.OustedMark
    requires NoNewTxn(later, k) && Run(s, later).Some?
    ensures var s' := Run(s, later).value;
            && k < |s'.table.readers|
            && s'.table.readers[k].pc != R.Active && s'.table.readers[k].pc != R.Restored
  {
    ReachedInv(s, n, es);
    assert R.ReaderInv(s.table, Head(s), k);
    RunKeepsLeaving(s, later, k);
  }

  // ---------------------------------------------------------------- crashes

  /**
   * What a crash does to the database: it goes on at the newest steady transaction left, which is no
   * older than the last one known to be on disk, and than the last acknowledged durable commit; that
   * snapshot is whole, and the committed past up to it is what it was.
   */
  ghost predicate Survived(s: State, s': State, img: seq<T.Meta>) {
    var txn := |s'.st.hist| - 1;
    && 0 <= txn < |s.st.hist|
    && T.Three(img)
    && (exists j :: 0 <= j < 3 && img[j] == T.Meta(txn, true))
    && (forall j :: 0 <= j < 3 && img[j].steady ==> img[j].txn <= txn)
    && s.acked <= Base(s) <= txn
    && s'.st.hist == s.st.hist[..txn + 1]
    && P.Intact(s'.st.mem, s.st.hist[txn].tree)
  }

  lemma CrashFromInv(s: State, img: seq<T.Meta>, mem: map<P.Page, int>)
    requires Inv(s) && M.Image(s.disk, img) && P.SurvivesIn(s.st, mem)
    ensures NextCrash(s, img, mem).Some?
    ensures NextCrash(s, img, mem).value.st.mem == mem && Survived(s, NextCrash(s, img, mem).value, img)
  {
    CrashIsPossible(s, img, mem);
    CrashKeeps(s, img, mem);
    HeadIsWhole(NextCrash(s, img, mem).value);
    SteadyPointIsNewest(img);
    hide Inv, NextCrash, T.Tap, P.SurvivesIn;
  }

  /** A crash at any step of any run, keeping any part of what was not flushed, is survived. */
  lemma CrashIsSurvived(s: State, n: nat, es: seq<Event>, img: seq<T.Meta>, mem: map<P.Page, int>)
    requires Reached(s, n, es) && M.Image(s.disk, img) && P.SurvivesIn(s.st, mem)
    ensures Next(s, Crash(img, mem)).Some?
    ensures Next(s, Crash(img, mem)).value.st.mem == mem && Survived(s, Next(s, Crash(img, mem)).value, img)
  {
    hide Survived, M.Image, P.SurvivesIn, Inv, NextCrash;
    ReachedInv(s, n, es);
    CrashFromInv(s, img, mem);
  }

  /** The choice of the steady point, if it is one. */
  lemma SteadyPointIsNewest(img: seq<T.Meta>)
    requires T.Three(img) && img[T.Tap(img).preferSteady].steady
    ensures var m := img[T.Tap(img).preferSteady];
            && (exists j :: 0 <= j < 3 && img[j] == T.Meta(m.txn, true))
            && (forall j :: 0 <= j < 3 && img[j].steady ==> img[j].txn <= m.txn)
  {
    hide T.Tap;
    T.TapIsSound(img);
    assert img[T.Tap(img).preferSteady] == T.Meta(img[T.Tap(img).preferSteady].txn, true);
    forall j | 0 <= j < 3 && img[j].steady ensures img[j].txn <= img[T.Tap(img).preferSteady].txn {
      assert !T.Steadier(img[j], img[T.Tap(img).preferSteady]);
    }
  }

  /** The crash leaves transaction t committed. */
  ghost predicate Keeps(s: State, t: nat, img: seq<T.Meta>, mem: map<P.Page, int>) {
    NextCrash(s, img, mem).Some? && t < |NextCrash(s, img, mem).value.st.hist|
  }

  /** Exactly the transactions up to the last steady one known to be on disk survive whatever a crash leaves. */
  lemma SurvivesEveryCrashIff(s: State, n: nat, es: seq<Event>, t: nat)
    requires Reached(s, n, es) && t < |s.st.hist|
    ensures (forall img, mem :: M.Image(s.disk, img) && P.SurvivesIn(s.st, mem) ==> Keeps(s, t, img, mem))
       <==> t <= Base(s)
  {
    ReachedInv(s, n, es);
    if t <= Base(s) {
      forall img, mem | M.Image(s.disk, img) && P.SurvivesIn(s.st, mem) ensures Keeps(s, t, img, mem) {
        CrashIsPossible(s, img, mem);
      }
    } else {
      M.WorstImageIsBase(s.disk, Head(s));
      CrashIsPossible(s, M.WorstImage(s.disk), s.st.mem);
      assert P.SurvivesIn(s.st, s.st.mem) && !Keeps(s, t, M.WorstImage(s.disk), s.st.mem);
    }
    hide Inv, M.Image, NextCrash;
  }

  lemma HeadIsWhole(s: State)
    requires Inv(s)
    ensures 0 < |s.st.hist| && P.Intact(s.st.mem, s.st.hist[|s.st.hist| - 1].tree)
  {
    hide DiskOk, TableOk, P.TxnInv;
  }

  lemma CrashIsPossible(s: State, img: seq<T.Meta>, mem: map<P.Page, int>)
    requires Inv(s) && M.Image(s.disk, img) && P.SurvivesIn(s.st, mem)
    ensures NextCrash(s, img, mem).Some?
    ensures var s', m := NextCrash(s, img, mem).value, img[T.Tap(img).preferSteady];
            && m.steady && m.txn == |s'.st.hist| - 1 && s.acked <= Base(s) <= m.txn < |s.st.hist|
            && s'.st.hist == s.st.hist[..m.txn + 1] && s'.st.mem == mem && s'.acked == s.acked
  {
    hide T.Tap, P.StoreInv, P.TxnInv, TableOk, M.Opens;
    Bounds(s);
    M.CrashIsRecoverable(s.disk, Head(s), img);
  }

  /** A step other than a crash only adds to the committed past, and to what is acknowledged. */
  lemma StepKeepsPast(s: State, e: Event)
    requires Inv(s) && Next(s, e).Some? && !e.Crash?
    ensures s.st.hist <= Next(s, e).value.st.hist && s.acked <= Next(s, e).value.acked
  {
    Bounds(s);
    assert s.disk.phase.Pending? ==> s.disk.cur[s.disk.phase.slot].txn > Base(s);
    hide R.ReaderStep, R.WriterStep, Inv, P.CommitSnap, P.StepTxn, P.GiveBackOk, T.Tap;
  }

  /** What was acknowledged at a is still committed at b, and nothing up to it has changed. */
  ghost predicate AckedStays(a: State, b: State) {
    && a.acked <= b.acked && a.acked < |a.st.hist| && a.acked < |b.st.hist|
    && b.st.hist[..a.acked + 1] == a.st.hist[..a.acked + 1]
  }

  lemma AckedStaysOn(a: State, b: State, c: State)
    requires AckedStays(a, b) && AckedStays(b, c)
    ensures AckedStays(a, c)
  {
    assert b.st.hist[..a.acked + 1] == b.st.hist[..b.acked + 1][..a.acked + 1];
    assert c.st.hist[..a.acked + 1] == c.st.hist[..b.acked + 1][..a.acked + 1];
  }

  lemma CrashKeepsAcked(s: State, img: seq<T.Meta>, mem: map<P.Page, int>)
    requires Inv(s) && M.Image(s.disk, img) && P.SurvivesIn(s.st, mem)
    ensures NextCrash(s, img, mem).Some? && AckedStays(s, NextCrash(s, img, mem).value)
  {
    hide NextCrash, P.SurvivesIn, Inv, T.Tap, Base;
    CrashIsPossible(s, img, mem);
    var txn := img[T.Tap(img).preferSteady].txn;
    assert s.st.hist[..txn + 1][..s.acked + 1] == s.st.hist[..s.acked + 1];
  }

  lemma CrashWasPossible(s: State, e: Event)
    requires e.Crash? && Next(s, e).Some?
    ensures M.Image(s.disk, e.img) && P.SurvivesIn(s.st, e.mem)
  {
    hide M.Image, P.SurvivesIn, M.Opens, P.Rollback;
  }

  lemma StepKeepsAcked(s: State, e: Event)
    requires Inv(s) && Next(s, e).Some?
    ensures AckedStays(s, Next(s, e).value)
  {
    hide M.Shape, NextReader, NextTable, NextPage, NextCommit, NextUpgrade, NextSyncMeta, NextCrash, Base;
    Bounds(s);
    hide Inv;
    if e.Crash? {
      CrashWasPossible(s, e);
      CrashKeepsAcked(s, e.img, e.mem);
    } else {
      StepKeepsPast(s, e);
      hide Next;
    }
  }

  /**
   * Over any further run, crashes included: no transaction whose durable commit was acknowledged is
   * lost, and none before it is changed.
   */
  lemma {:induction false} AckedIsNeverLost(s: State, es: seq<Event>)
    requires Inv(s) && Run(s, es).Some?
    ensures AckedStays(s, Run(s, es).value)
    decreases |es|
  {
    if es == [] {
      Bounds(s);
    } else {
      hide Inv, Next, AckedStays;
      StepKeepsAcked(s, es[0]);
      NextKeepsInv(s, es[0]);
      AckedIsNeverLost(Next(s, es[0]).value, es[1..]);
      AckedStaysOn(s, Next(s, es[0]).value, Run(s, es).value);
    }
  }

  /** After the flush behind a steady commit its transaction counts as acknowledged. */
  lemma DurableCommitIsAcked(s: State, back: map<nat, set<P.Page>>)
    requires Inv(s) && NextCommit(s, back, true).Some?
    ensures var s1 := NextCommit(s, back, true).value;
            Next(s1, SyncMeta).value.acked == |s.st.hist| == |s1.st.hist| - 1
  {
    hide T.Tap, P.StoreInv, P.TxnInv, TableOk;
  }
}
