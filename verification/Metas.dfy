/**
 * The three meta pages on disk: what a crash may leave of them, how a commit or a sync changes them,
 * and how opening the database afterwards picks the snapshot to go on with.
 */
module Metas {

  import opened Bytes
  import opened Troika

  /** A torn or purged meta page: its two transaction numbers differ, or both are 0. */
  const UNUSABLE: Meta := Meta(0, false)

  /** Pending: a steady meta has been written to the slot but not yet flushed. */
  datatype Phase = Quiet | Pending(slot: nat)

  /**
   * cur is what the processes see; cand[j] holds all that a crash may leave in slot j. base is the slot
   * of the newest steady meta that is certainly on disk.
   */
  datatype Disk = Disk(cur: seq<Meta>, cand: seq<set<Meta>>, base: nat, phase: Phase)

  function HeadSlot(d: Disk): nat
    requires Three(d.cur)
  {
    Tap(d.cur).recent
  }

  function SteadySlot(d: Disk): nat
    requires Three(d.cur)
  {
    Tap(d.cur).preferSteady
  }

  // ---------------------------------------------------------------- steps

  /** Writing one slot: until a flush, a crash may leave what was there, the new meta, or a torn one. */
  function SetMeta(d: Disk, slot: nat, m: Meta): Disk
    requires slot < |d.cur| == |d.cand|
  {
    Disk(d.cur[slot := m], d.cand[slot := d.cand[slot] + {m, UNUSABLE}], d.base,
         if m.steady then Pending(slot) else Quiet)
  }

  function Flushed(cur: seq<Meta>): (c: seq<set<Meta>>)
    ensures |c| == |cur| && forall j :: 0 <= j < |cur| ==> c[j] == {cur[j]}
  {
    seq(|cur|, j requires 0 <= j < |cur| => {cur[j]})
  }

  /** dxb_sync_locked() for a new transaction: the meta goes to the tail. */
  function WriteTail(d: Disk, m: Meta): Option<Disk>
    requires Three(d.cur) && |d.cand| == 3
  {
    if d.phase == Quiet then Some(SetMeta(d, Tap(d.cur).tail, m)) else None
  }

  /** dxb_sync_locked() for the head's own transaction: a weak head becomes steady in place. */
  function Upgrade(d: Disk): Option<Disk>
    requires Three(d.cur) && |d.cand| == 3
  {
    var head := d.cur[HeadSlot(d)];
    if d.phase == Quiet && !head.steady then Some(SetMeta(d, HeadSlot(d), Meta(head.txn, true))) else None
  }

  /** Flushing the meta pages. */
  function Flush(d: Disk): Disk {
    Disk(d.cur, Flushed(d.cur), if d.phase.Pending? then d.phase.slot else d.base, Quiet)
  }

  // ---------------------------------------------------------------- invariant

  ghost predicate Shape(d: Disk) {
    Three(d.cur) && |d.cand| == 3 && d.base < 3 && forall j :: 0 <= j < 3 ==> d.cur[j] in d.cand[j]
  }

  /** The two slots cannot hold the same transaction, unless both are unusable. */
  ghost predicate Apart(a: set<Meta>, b: set<Meta>) {
    forall m, n :: m in a && n in b && m.txn == n.txn ==> m.txn == 0
  }

  ghost predicate Distinct(d: Disk)
    requires Shape(d)
  {
    Apart(d.cand[0], d.cand[1]) && Apart(d.cand[0], d.cand[2]) && Apart(d.cand[1], d.cand[2])
  }

  ghost predicate Below(c: set<Meta>, head: nat) {
    forall m :: m in c ==> m.txn <= head && (m.steady ==> m.txn > 0)
  }

  /** Nothing is newer than the head, which some slot holds. */
  ghost predicate UpTo(d: Disk, head: nat)
    requires Shape(d)
  {
    && Below(d.cand[0], head) && Below(d.cand[1], head) && Below(d.cand[2], head)
    && (d.cur[0].txn == head || d.cur[1].txn == head || d.cur[2].txn == head)
  }

  /** The base is certainly on disk, and no other steady meta is as new, except one being written. */
  ghost predicate Based(d: Disk)
    requires Shape(d)
  {
    && d.cand[d.base] == {d.cur[d.base]} && d.cur[d.base].steady
    && (forall j :: 0 <= j < 3 && j != d.base && d.phase != Pending(j) && d.cur[j].steady ==>
          d.cur[j].txn < d.cur[d.base].txn)
    && (d.phase.Pending? ==>
          && d.phase.slot < 3 && d.phase.slot != d.base && UNUSABLE in d.cand[d.phase.slot]
          && d.cur[d.phase.slot].steady && d.cur[d.phase.slot].txn > d.cur[d.base].txn)
  }

  ghost predicate DiskInv(d: Disk, head: nat) { Shape(d) && Distinct(d) && UpTo(d, head) && Based(d) }

  /** What the choice among the metas means in a reachable state. */
  lemma Choices(d: Disk, head: nat)
    requires DiskInv(d, head)
    ensures d.cur[HeadSlot(d)].txn == head
    ensures d.phase == Quiet ==> SteadySlot(d) == d.base && Tap(d.cur).tail != d.base
  {
    hide Tap, Distinct;
    TapIsSound(d.cur);
    var j :| 0 <= j < 3 && d.cur[j].txn == head;
    assert !Newer(d.cur[j], d.cur[HeadSlot(d)]);
    assert !Steadier(d.cur[d.base], d.cur[SteadySlot(d)]);
    assert d.cur[HeadSlot(d)] in d.cand[HeadSlot(d)];
  }

  /** A meta that may go to the slot: not the base, and newer than all that other slots can hold. */
  ghost predicate MayWrite(d: Disk, head: nat, slot: nat, m: Meta) {
    && DiskInv(d, head) && d.phase == Quiet && slot < 3 && slot != d.base
    && head <= m.txn && m.txn > 0
    && (forall j, n :: 0 <= j < 3 && j != slot && n in d.cand[j] ==> n.txn < m.txn)
  }

  lemma ApartGrown(a: set<Meta>, b: set<Meta>, m: Meta)
    requires (Apart(a, b) || Apart(b, a)) && forall n :: n in b ==> n.txn < m.txn
    ensures Apart(a + {m, UNUSABLE}, b) && Apart(b, a + {m, UNUSABLE})
  {
  }

  lemma SetMetaKeepsDistinct(d: Disk, head: nat, slot: nat, m: Meta)
    requires MayWrite(d, head, slot, m)
    ensures var d' := SetMeta(d, slot, m); Shape(d') && Distinct(d')
  {
    hide Apart, Below;
    var i, j := (slot + 1) % 3, (slot + 2) % 3;
    ApartGrown(d.cand[slot], d.cand[i], m);
    ApartGrown(d.cand[slot], d.cand[j], m);
  }

  lemma SetMetaKeepsUpTo(d: Disk, head: nat, slot: nat, m: Meta)
    requires MayWrite(d, head, slot, m)
    ensures var d' := SetMeta(d, slot, m); Shape(d') && UpTo(d', m.txn)
  {
  }

  lemma SetMetaKeepsInv(d: Disk, head: nat, slot: nat, m: Meta)
    requires MayWrite(d, head, slot, m)
    ensures DiskInv(SetMeta(d, slot, m), m.txn)
  {
    SetMetaKeepsDistinct(d, head, slot, m);
    SetMetaKeepsUpTo(d, head, slot, m);
    hide Distinct, UpTo;
    assert d.cur[d.base] in d.cand[d.base];
  }

  lemma WriteTailKeepsInv(d: Disk, head: nat, m: Meta)
    requires DiskInv(d, head) && m.txn == head + 1
    ensures var r := WriteTail(d, m); r.Some? ==> DiskInv(r.value, head + 1)
  {
    hide Tap, SetMeta;
    if d.phase == Quiet {
      Choices(d, head);
      SetMetaKeepsInv(d, head, Tap(d.cur).tail, m);
    }
  }

  lemma UpgradeKeepsInv(d: Disk, head: nat)
    requires DiskInv(d, head)
    ensures var r := Upgrade(d); r.Some? ==> DiskInv(r.value, head)
  {
    hide Tap, SetMeta;
    var slot := HeadSlot(d);
    if d.phase == Quiet && !d.cur[slot].steady {
      Choices(d, head);
      assert d.cur[slot] in d.cand[slot] && d.cur[d.base] in d.cand[d.base];
      assert head > 0;
      forall j, n | 0 <= j < 3 && j != slot && n in d.cand[j] ensures n.txn < head {
        NotTheHead(d, head, slot, j, n);
      }
      SetMetaKeepsInv(d, head, slot, Meta(head, true));
    }
  }

  lemma NotTheHead(d: Disk, head: nat, slot: nat, j: nat, n: Meta)
    requires DiskInv(d, head) && head > 0 && slot < 3 && d.cur[slot].txn == head && j < 3 && j != slot && n in d.cand[j]
    ensures n.txn < head
  {
    assert d.cur[slot] in d.cand[slot];
    if j < slot { assert n.txn != d.cur[slot].txn; } else { assert d.cur[slot].txn != n.txn; }
  }

  /** What three flushed metas have to be like, without any candidates. */
  ghost predicate Settled(m: seq<Meta>, base: nat, head: nat) {
    && Three(m) && base < 3 && m[base].steady
    && (m[0].txn == m[1].txn ==> m[0].txn == 0) && (m[0].txn == m[2].txn ==> m[0].txn == 0)
    && (m[1].txn == m[2].txn ==> m[1].txn == 0)
    && (forall j :: 0 <= j < 3 ==> m[j].txn <= head && (m[j].steady ==> m[j].txn > 0))
    && (forall j :: 0 <= j < 3 && j != base && m[j].steady ==> m[j].txn < m[base].txn)
    && (m[0].txn == head || m[1].txn == head || m[2].txn == head)
  }

  lemma SettledKeepsInv(m: seq<Meta>, base: nat, head: nat)
    requires Settled(m, base, head)
    ensures DiskInv(Disk(m, Flushed(m), base, Quiet), head)
  {
    var d := Disk(m, Flushed(m), base, Quiet);
    assert d.cand[0] == {m[0]} && d.cand[1] == {m[1]} && d.cand[2] == {m[2]};
  }

  lemma FlushKeepsInv(d: Disk, head: nat)
    requires DiskInv(d, head)
    ensures DiskInv(Flush(d), head)
  {
    assert d.cur[0] in d.cand[0] && d.cur[1] in d.cand[1] && d.cur[2] in d.cand[2];
    SettledKeepsInv(d.cur, Flush(d).base, head);
  }

  // ---------------------------------------------------------------- crash and recovery

  /** A crash leaves one of the possible metas in each slot. */
  ghost predicate Image(d: Disk, img: seq<Meta>) {
    |d.cand| == 3 && Three(img) && forall j :: 0 <= j < 3 ==> img[j] in d.cand[j]
  }

  /** meta_eq_mask() is not 0: two usable metas of the same transaction and kind. */
  predicate Clash(m: seq<Meta>)
    requires Three(m)
  {
    exists i, j :: 0 <= i < j < 3 && m[i] == m[j] && m[i].txn != 0
  }

  lemma EqualClash(m: seq<Meta>, i: nat, j: nat)
    requires Three(m) && i < 3 && j < 3 && i != j && m[i] == m[j] && m[i].txn != 0
    ensures Clash(m)
  {
    if i < j { assert m[i] == m[j]; } else { assert m[j] == m[i]; }
  }

  /** Every meta newer than the given transaction overwritten as unusable. */
  function Purged(m: seq<Meta>, txn: nat): (r: seq<Meta>)
    ensures |r| == |m|
    ensures forall j :: 0 <= j < |m| ==> r[j] == if m[j].txn > txn then UNUSABLE else m[j]
  {
    seq(|m|, j requires 0 <= j < |m| => if m[j].txn > txn then UNUSABLE else m[j])
  }

  datatype Outcome = Ready | Corrupted | WannaRecovery

  /**
   * What the opening process finds out about a meta besides its transaction: whether it passes
   * validation, and whether it carries the boot id of the running system, so that nothing written before
   * it has been lost.
   */
  datatype Look = Look(valid: bool, boot: bool)

  /** After a reboot, with metas that are damaged in no other way than being torn. */
  const REBOOTED: seq<Look> := [Look(true, false), Look(true, false), Look(true, false)]

  /** The meta can be gone on with as it is. */
  predicate Alive(m: seq<Meta>, looks: seq<Look>, j: nat)
    requires j < |m| == |looks|
  {
    m[j].txn > 0 && looks[j].valid && looks[j].boot
  }

  /** What dxb_setup() goes on with: a valid steady point, or a head of the running system. */
  predicate Opens(m: seq<Meta>, looks: seq<Look>)
    requires Three(m) && |looks| == 3
  {
    var c := Tap(m);
    !Clash(m) && (if m[c.preferSteady].steady then looks[c.preferSteady].valid else Alive(m, looks, c.recent))
  }

  function Booted(m: seq<Meta>, looks: seq<Look>, j: nat): nat
    requires j < |m| == |looks|
  {
    if Alive(m, looks, j) then m[j].txn else 0
  }

  /** The head is the steady point: nothing has to be repaired. */
  predicate InOrder(m: seq<Meta>)
    requires Three(m)
  {
    m[Tap(m).preferSteady].steady && Tap(m).preferSteady == Tap(m).recent
  }

  function Max(a: nat, b: nat): nat { if a > b then a else b }

  /** The transaction the database goes on with: the steady point, or a newer one of the running system. */
  function Kept(m: seq<Meta>, looks: seq<Look>): nat
    requires Three(m) && |looks| == 3
  {
    Max(m[Tap(m).preferSteady].txn, Max(Booted(m, looks, 0), Max(Booted(m, looks, 1), Booted(m, looks, 2))))
  }

  /** What purging has left so far: only metas newer than the given transaction are gone. */
  ghost predicate PartlyPurged(m0: seq<Meta>, m: seq<Meta>, kept: nat) {
    Three(m0) && Three(m) && forall j :: 0 <= j < 3 ==> m[j] == m0[j] || (m[j] == UNUSABLE && m0[j].txn > kept)
  }

  ghost predicate Tidy(m: seq<Meta>) { Three(m) && forall j :: 0 <= j < 3 && m[j].steady ==> m[j].txn > 0 }

  /** Purging does not move the steady point, if metas of different slots are of different transactions. */
  lemma SteadyStays(m0: seq<Meta>, m: seq<Meta>, kept: nat)
    requires Tidy(m0) && !Clash(m0) && m0[Tap(m0).preferSteady].steady && m0[Tap(m0).preferSteady].txn <= kept
    requires PartlyPurged(m0, m, kept)
    ensures Tap(m).preferSteady == Tap(m0).preferSteady && m[Tap(m).preferSteady] == m0[Tap(m0).preferSteady]
    ensures !Clash(m)
  {
    hide Tap;
    TapIsSound(m0);
    TapIsSound(m);
    var a, b := Tap(m0).preferSteady, Tap(m).preferSteady;
    assert !Steadier(m[a], m[b]) && !Steadier(m0[b], m0[a]);
  }

  /** A head neither steady nor of the running system is newer than all that is kept. */
  lemma HeadIsPurged(m0: seq<Meta>, m: seq<Meta>, looks: seq<Look>)
    requires Tidy(m0) && |looks| == 3 && !Clash(m0) && m0[Tap(m0).preferSteady].steady
    requires PartlyPurged(m0, m, Kept(m0, looks))
    requires Tap(m).recent != Tap(m).preferSteady && !Alive(m, looks, Tap(m).recent)
    ensures m[Tap(m).recent].txn > Kept(m0, looks)
    ensures PartlyPurged(m0, m[Tap(m).recent := UNUSABLE], Kept(m0, looks))
  {
    hide Tap, Clash;
    TapIsSound(m0);
    TapIsSound(m);
    SteadyStays(m0, m, Kept(m0, looks));
    var r, p := Tap(m).recent, Tap(m).preferSteady;
    assert !Newer(m[p], m[r]) && !Steadier(m[r], m[p]);
    if m[r].txn == m[p].txn { EqualClash(m, r, p); }
    forall j | 0 <= j < 3 && Alive(m0, looks, j) ensures m0[j].txn < m[r].txn {
      assert !Newer(m[j], m[r]) && !Steadier(m[j], m[p]);
      if m[j].txn == m[r].txn && m[j].txn > 0 { EqualClash(m, j, r); }
    }
  }

  /** Once the head is to stay, all that is newer than what is kept is gone. */
  lemma PurgeIsDone(m0: seq<Meta>, m: seq<Meta>, looks: seq<Look>)
    requires Tidy(m0) && |looks| == 3 && !Clash(m0) && PartlyPurged(m0, m, Kept(m0, looks))
    requires m0[Tap(m0).preferSteady].steady || m == m0
    requires Tap(m).recent == Tap(m).preferSteady || Alive(m, looks, Tap(m).recent)
    ensures m == Purged(m0, Kept(m0, looks))
  {
    hide Tap, Clash;
    TapIsSound(m);
    if m != m0 { SteadyStays(m0, m, Kept(m0, looks)); }
    var r := Tap(m).recent;
    assert m[r].txn <= Kept(m0, looks);
    forall j | 0 <= j < 3 ensures m[j].txn <= Kept(m0, looks) { assert !Newer(m[j], m[r]); }
  }

  /** The meta pages as the opening process changes them. */
  class MetaArea {
    var metas: seq<Meta>

    /**
     * The loop of dxb_setup() for the first process that opens the database: while the head is neither
     * the steady point nor of the running system, overwrite the head. A read-only process repairs nothing.
     */
    method Rollback(looks: seq<Look>, readOnly: bool) returns (rc: Outcome)
      requires Tidy(metas) && |looks| == 3
      modifies this
      ensures rc == Corrupted <==> !Opens(old(metas), looks)
      ensures rc == WannaRecovery <==> Opens(old(metas), looks) && readOnly && !InOrder(old(metas))
      ensures metas == if rc == Ready then Purged(old(metas), Kept(old(metas), looks)) else old(metas)
    {
      hide Tap, Clash, Kept;
      ghost var m0 := metas;
      while true
        invariant PartlyPurged(m0, metas, Kept(m0, looks)) && Three(metas)
        invariant metas != m0 ==> !Clash(m0) && !readOnly && m0[Tap(m0).preferSteady].steady
                                  && looks[Tap(m0).preferSteady].valid
        decreases metas[0].txn + metas[1].txn + metas[2].txn
      {
        if metas != m0 { KeptIsSteady(m0, looks); SteadyStays(m0, metas, Kept(m0, looks)); }
        if Clash(metas) { return Corrupted; }
        var recent, steady := Tap(metas).recent, Tap(metas).preferSteady;
        if metas[steady].steady {
          if !looks[steady].valid { return Corrupted; }
          if steady == recent {
            PurgeIsDone(m0, metas, looks);
            break;
          }
        }
        if metas[recent].txn == 0 || !looks[recent].valid {
          if !metas[steady].steady { return Corrupted; }
        } else {
          if looks[recent].boot {
            if readOnly { return WannaRecovery; }
            PurgeIsDone(m0, metas, looks);
            break;
          }
          if !metas[steady].steady { return Corrupted; }
        }
        if readOnly { return WannaRecovery; }
        HeadIsPurged(m0, metas, looks);
        metas := metas[recent := UNUSABLE];
      }
      return Ready;
    }
  }

  lemma KeptIsSteady(m: seq<Meta>, looks: seq<Look>)
    requires Three(m) && |looks| == 3
    ensures m[Tap(m).preferSteady].txn <= Kept(m, looks)
  {
  }

  // ---------------------------------------------------------------- crashes

  /** The meta pages after recovery, all of them flushed. */
  function Recovered(img: seq<Meta>): Disk
    requires Three(img)
  {
    var m := Purged(img, Kept(img, REBOOTED));
    Disk(m, Flushed(m), Tap(img).preferSteady, Quiet)
  }

  /** The worst a crash can leave: the meta being written is torn. */
  function WorstImage(d: Disk): seq<Meta> {
    if d.phase.Pending? && d.phase.slot < |d.cur| then d.cur[d.phase.slot := UNUSABLE] else d.cur
  }

  lemma WorstImageIsBase(d: Disk, head: nat)
    requires DiskInv(d, head)
    ensures Image(d, WorstImage(d)) && WorstImage(d)[Tap(WorstImage(d)).preferSteady].txn == d.cur[d.base].txn
  {
    hide Tap, Distinct, UpTo;
    var img := WorstImage(d);
    TapIsSound(img);
    assert !Steadier(img[d.base], img[Tap(img).preferSteady]);
  }

  /** Metas of different slots in an image are of different transactions. */
  lemma ImageDistinct(d: Disk, head: nat, img: seq<Meta>, i: nat, j: nat)
    requires DiskInv(d, head) && Image(d, img) && i < 3 && j < 3 && i != j && img[i].txn == img[j].txn
    ensures img[i].txn == 0
  {
    if i < j { assert img[i] in d.cand[i] && img[j] in d.cand[j]; }
    else { assert img[j] in d.cand[j] && img[i] in d.cand[i]; }
  }

  /**
   * Whatever a crash leaves, the database opens, and the transaction it goes on with is steady and no
   * older than the base.
   */
  lemma CrashIsRecoverable(d: Disk, head: nat, img: seq<Meta>)
    requires DiskInv(d, head) && Image(d, img)
    ensures var s := img[Tap(img).preferSteady];
            && Opens(img, REBOOTED) && s.steady && s in d.cand[Tap(img).preferSteady]
            && d.cur[d.base].txn <= s.txn <= head
  {
    hide Tap;
    TapIsSound(img);
    assert img[d.base] in d.cand[d.base];
    assert !Steadier(img[d.base], img[Tap(img).preferSteady]);
    assert img[Tap(img).preferSteady] in d.cand[Tap(img).preferSteady];
    if Clash(img) {
      var i, j :| 0 <= i < j < 3 && img[i] == img[j] && img[i].txn != 0;
      ImageDistinct(d, head, img, i, j);
    }
  }

  /** The recovered metas are as good as before, with the recovered transaction for the head. */
  lemma RecoveredKeepsInv(d: Disk, head: nat, img: seq<Meta>)
    requires DiskInv(d, head) && Image(d, img)
    ensures DiskInv(Recovered(img), img[Tap(img).preferSteady].txn)
  {
    hide Tap;
    CrashIsRecoverable(d, head, img);
    TapIsSound(img);
    var m, p := Recovered(img).cur, Tap(img).preferSteady;
    RecoveredDistinct(d, head, img);
    RecoveredBelow(d, head, img);
    assert m[p].txn == img[p].txn;
    hide DiskInv, Image;
    SettledKeepsInv(m, p, img[p].txn);
  }

  lemma RecoveredDistinct(d: Disk, head: nat, img: seq<Meta>)
    requires DiskInv(d, head) && Image(d, img)
    ensures var m := Recovered(img).cur;
            forall i, j :: 0 <= i < j < 3 && m[i].txn == m[j].txn ==> m[i].txn == 0
  {
    hide Tap;
    var m := Recovered(img).cur;
    forall i, j | 0 <= i < j < 3 && m[i].txn == m[j].txn ensures m[i].txn == 0 {
      if img[i].txn == img[j].txn { ImageDistinct(d, head, img, i, j); }
    }
  }

  lemma RecoveredBelow(d: Disk, head: nat, img: seq<Meta>)
    requires DiskInv(d, head) && Image(d, img)
    ensures var m, p := Recovered(img).cur, Tap(img).preferSteady;
            && (forall j :: 0 <= j < 3 ==> m[j].txn <= img[p].txn && (m[j].steady ==> m[j].txn > 0))
            && (forall j :: 0 <= j < 3 && j != p && m[j].steady ==> m[j].txn < m[p].txn)
  {
    hide Tap;
    CrashIsRecoverable(d, head, img);
    TapIsSound(img);
    var m, p := Recovered(img).cur, Tap(img).preferSteady;
    forall j | 0 <= j < 3
      ensures m[j].txn <= img[p].txn && (m[j].steady ==> m[j].txn > 0)
      ensures j != p && m[j].steady ==> m[j].txn < m[p].txn
    {
      assert img[j] in d.cand[j] && !Steadier(img[j], img[p]);
      if j != p && img[j].txn == img[p].txn { ImageDistinct(d, head, img, j, p); }
    }
  }

  /** Each attempt at recovery, but the last, is cut short by a crash after purging some of the metas. */
  ghost predicate Attempts(imgs: seq<seq<Meta>>)
    requires imgs != [] && forall i :: 0 <= i < |imgs| ==> Three(imgs[i])
  {
    forall i :: 0 < i < |imgs| ==> PartlyPurged(imgs[i - 1], imgs[i], Kept(imgs[i - 1], REBOOTED))
  }

  /** Recovery ends the same, however often and wherever it is cut short by another crash. */
  lemma {:induction false} RecoveryRestarts(d: Disk, head: nat, imgs: seq<seq<Meta>>)
    requires imgs != [] && (forall i :: 0 <= i < |imgs| ==> Three(imgs[i])) && Attempts(imgs)
    requires DiskInv(d, head) && Image(d, imgs[0])
    ensures var last := imgs[|imgs| - 1];
            && Opens(last, REBOOTED) && Recovered(last) == Recovered(imgs[0])
            && PartlyPurged(imgs[0], last, Kept(imgs[0], REBOOTED))
    decreases |imgs|
  {
    hide Tap, Image, DiskInv, Clash, Purged;
    CrashIsRecoverable(d, head, imgs[0]);
    if |imgs| > 1 {
      var front, last := imgs[..|imgs| - 1], imgs[|imgs| - 1];
      assert Attempts(front);
      RecoveryRestarts(d, head, front);
      var before := front[|front| - 1];
      assert PartlyPurged(before, last, Kept(before, REBOOTED));
      ImageTidy(d, head, imgs[0]);
      RestartsOnce(imgs[0], before);
      RestartsOnce(imgs[0], last);
    }
  }

  lemma ImageTidy(d: Disk, head: nat, img: seq<Meta>)
    requires DiskInv(d, head) && Image(d, img)
    ensures Tidy(img)
  {
    assert img[0] in d.cand[0] && img[1] in d.cand[1] && img[2] in d.cand[2];
  }

  lemma RestartsOnce(m0: seq<Meta>, m: seq<Meta>)
    requires Tidy(m0) && Opens(m0, REBOOTED) && PartlyPurged(m0, m, Kept(m0, REBOOTED))
    ensures Opens(m, REBOOTED) && Kept(m, REBOOTED) == Kept(m0, REBOOTED) && Recovered(m) == Recovered(m0)
  {
    hide Tap, Clash;
    SteadyStays(m0, m, Kept(m0, REBOOTED));
    assert Purged(m, Kept(m, REBOOTED)) == Purged(m0, Kept(m0, REBOOTED));
  }
}
