/**
 * The life of pages: copy on write, retiring, reclaiming from GC records, commit and abort, with the
 * contents each committed snapshot refers to.
 */
module Pages {

  import opened Bytes

  type Page = nat

  const NUM_METAS: nat := 3

  /**
   * A committed snapshot: its tree pages with their contents, its GC records by the transaction that
   * retired the pages, the first unallocated page, the running count of retired pages, and the pages
   * that this very transaction retired.
   */
  datatype Snap = Snap(tree: map<Page, int>, gc: map<nat, set<Page>>, first: nat, retired: nat, freed: set<Page>)

  /** The writer's working state; repnl are the reclaimed pages at hand, dirty the pages of this transaction. */
  datatype Txn = Txn(tree: map<Page, int>, gc: map<nat, set<Page>>, first: nat,
                     repnl: set<Page>, retired: set<Page>, dirty: set<Page>)

  /** Committed snapshots by transaction number, page contents, and pages written since the last data sync. */
  datatype Store = Store(hist: seq<Snap>, mem: map<Page, int>, unsynced: set<Page>)

  function Head(st: Store): nat
    requires st.hist != []
  {
    |st.hist| - 1
  }

  ghost predicate InGc(gc: map<nat, set<Page>>, p: Page) { exists id :: id in gc && p in gc[id] }

  /** Every page from the first non-meta one up to `first` is in exactly one of the given places. */
  ghost predicate Partition(tree: set<Page>, gc: map<nat, set<Page>>, extra: set<Page>, first: nat) {
    && NUM_METAS <= first
    && (forall p: Page :: NUM_METAS <= p < first <==> p in tree || p in extra || InGc(gc, p))
    && tree !! extra
    && (forall id, p :: id in gc && p in gc[id] ==> p !in tree && p !in extra)
    && (forall i, j, p :: i in gc && j in gc && i != j && p in gc[i] ==> p !in gc[j])
  }

  /** The statement next to `struct page`: each non-meta page is in the trees or in one GC record. */
  ghost predicate SnapOk(s: Snap) {
    Partition(s.tree.Keys, s.gc, {}, s.first)
  }

  /** No snapshot from `from` on uses the page. */
  ghost predicate Unused(hist: seq<Snap>, from: nat, p: Page) {
    forall t :: from <= t < |hist| ==> p !in hist[t].tree
  }

  function Max(a: nat, b: nat): nat { if a > b then a else b }

  /** A page in the GC record of transaction id is used by no snapshot from id on. */
  ghost predicate GcUnused(hist: seq<Snap>, live: nat, gc: map<nat, set<Page>>) {
    && (forall id :: id in gc ==> id < |hist|)
    && (forall id, p :: id in gc && p in gc[id] ==> Unused(hist, Max(id, live), p))
  }

  /** Memory holds the whole tree of the snapshot. */
  ghost predicate Intact(mem: map<Page, int>, tree: map<Page, int>) {
    forall p :: p in tree ==> p in mem && mem[p] == tree[p]
  }

  /** Every commit adds the number of pages it retired. */
  ghost predicate Counted(hist: seq<Snap>) {
    forall t :: 0 < t < |hist| ==> hist[t].retired == hist[t - 1].retired + |hist[t].freed|
  }

  /** What the store guarantees when `live` is the oldest snapshot still wanted. */
  ghost predicate StoreInv(st: Store, live: nat) {
    && 0 < |st.hist| && live <= Head(st)
    && (forall t :: 0 <= t < |st.hist| ==> SnapOk(st.hist[t]))
    && (forall t, id :: 0 <= t < |st.hist| && id in st.hist[t].gc ==> id <= t)
    && (forall t :: live <= t < |st.hist| ==> Intact(st.mem, st.hist[t].tree))
    && (forall p :: p >= st.hist[Head(st)].first ==> Unused(st.hist, live, p))
    && GcUnused(st.hist, live, st.hist[Head(st)].gc)
    && Counted(st.hist)
  }

  ghost predicate TxnInv(st: Store, live: nat, w: Txn) {
    && Partition(w.tree.Keys, w.gc, w.repnl + w.retired, w.first) && w.repnl !! w.retired
    && w.dirty <= w.tree.Keys
    && Intact(st.mem, w.tree)
    && (forall p :: p in w.repnl || p in w.dirty || p >= w.first ==> Unused(st.hist, live, p))
    && GcUnused(st.hist, live, w.gc)
  }

  // ---------------------------------------------------------------- steps

  datatype Act =
    | Reclaim(id: nat)               // take the pages of a GC record
    | Alloc(page: Page, v: int)      // use a reclaimed page
    | Extend(v: int)                 // use the first unallocated page
    | Rewrite(page: Page, v: int)    // change a page of this transaction
    | Retire(page: Page)             // a page falls out of the trees
    | Refund(page: Page)             // give the last page back to unallocated space

  function Begin(st: Store): Txn
    requires st.hist != []
  {
    var s := st.hist[Head(st)];
    Txn(s.tree, s.gc, s.first, {}, {}, {})
  }

  function Write(st: Store, p: Page, v: int): Store {
    st.(mem := st.mem[p := v], unsynced := st.unsynced + {p})
  }

  /** The page a step writes, if any: one just allocated or one of this transaction. */
  function Target(w: Txn, act: Act): Option<Page> {
    match act
    case Alloc(p, _) => if p in w.repnl then Some(p) else None
    case Extend(_) => Some(w.first)
    case Rewrite(p, _) => if p in w.dirty then Some(p) else None
    case _ => None
  }

  function StepStore(st: Store, w: Txn, act: Act): Store {
    if Target(w, act).Some? then Write(st, Target(w, act).value, act.v) else st
  }

  /**
   * A step of the write transaction; one that is not possible changes nothing. A GC record is reclaimed
   * only up to the cached oldest transaction. A page of this transaction that falls out of the trees is
   * at hand again; one of an earlier transaction is retired.
   */
  function StepTxn(floor: nat, w: Txn, act: Act): Txn {
    match act
    case Reclaim(id) =>
      if id in w.gc && id <= floor then w.(gc := w.gc - {id}, repnl := w.repnl + w.gc[id]) else w
    case Alloc(p, v) =>
      if p in w.repnl then w.(repnl := w.repnl - {p}, tree := w.tree[p := v], dirty := w.dirty + {p}) else w
    case Extend(v) =>
      w.(tree := w.tree[w.first := v], dirty := w.dirty + {w.first}, first := w.first + 1)
    case Rewrite(p, v) => if p in w.dirty then w.(tree := w.tree[p := v]) else w
    case Retire(p) =>
      if p !in w.tree then w
      else if p in w.dirty then w.(tree := w.tree - {p}, dirty := w.dirty - {p}, repnl := w.repnl + {p})
      else w.(tree := w.tree - {p}, retired := w.retired + {p})
    case Refund(p) => if p in w.repnl && p + 1 == w.first then w.(repnl := w.repnl - {p}, first := p) else w
  }

  /** How left-over reclaimed pages go back: as records of transactions up to the cached oldest one. */
  ghost predicate GiveBackOk(w: Txn, floor: nat, back: map<nat, set<Page>>) {
    && (forall p: Page :: InGc(back, p) <==> p in w.repnl)
    && (forall id :: id in back ==> id <= floor && id !in w.gc)
    && (forall i, j, p :: i in back && j in back && i != j && p in back[i] ==> p !in back[j])
  }

  function JoinGc(gc: map<nat, set<Page>>, back: map<nat, set<Page>>, id: nat,
                  retired: set<Page>): map<nat, set<Page>>
  {
    gc + back + map[id := retired]
  }

  /** txn_basal_commit(): the new snapshot, with this transaction's retired pages as its own GC record. */
  function CommitSnap(st: Store, w: Txn, back: map<nat, set<Page>>): Snap
    requires st.hist != []
  {
    Snap(w.tree, JoinGc(w.gc, back, |st.hist|, w.retired), w.first,
         st.hist[Head(st)].retired + |w.retired|, w.retired)
  }

  function Publish(st: Store, s: Snap): Store { st.(hist := st.hist + [s]) }

  // ---------------------------------------------------------------- preservation

  lemma BeginKeepsInv(st: Store, live: nat)
    requires StoreInv(st, live)
    ensures TxnInv(st, live, Begin(st))
  {
    var w := Begin(st);
    assert SnapOk(st.hist[Head(st)]);
    assert w.repnl + w.retired == {};
  }

  lemma UnusedFurther(hist: seq<Snap>, from: nat, from': nat, p: Page)
    requires Unused(hist, from, p) && from <= from'
    ensures Unused(hist, from', p)
  {
  }

  lemma GcLiveMoves(hist: seq<Snap>, live: nat, live': nat, gc: map<nat, set<Page>>)
    requires GcUnused(hist, live, gc) && live <= live'
    ensures GcUnused(hist, live', gc)
  {
    forall id, p | id in gc && p in gc[id] ensures Unused(hist, Max(id, live'), p) {
      UnusedFurther(hist, Max(id, live), Max(id, live'), p);
    }
  }

  /** Raising the oldest live transaction only forgets guarantees. */
  lemma LiveMoves(st: Store, live: nat, live': nat)
    requires StoreInv(st, live) && live <= live' <= Head(st)
    ensures StoreInv(st, live')
  {
    GcLiveMoves(st.hist, live, live', st.hist[Head(st)].gc);
    forall p | p >= st.hist[Head(st)].first ensures Unused(st.hist, live', p) {
      UnusedFurther(st.hist, live, live', p);
    }
  }

  lemma TxnLiveMoves(st: Store, live: nat, live': nat, w: Txn)
    requires TxnInv(st, live, w) && live <= live'
    ensures TxnInv(st, live', w)
  {
    GcLiveMoves(st.hist, live, live', w.gc);
    forall p | p in w.repnl || p in w.dirty || p >= w.first ensures Unused(st.hist, live', p) {
      UnusedFurther(st.hist, live, live', p);
    }
  }

  /** Only pages that no snapshot from the oldest live one on uses are ever written. */
  lemma TargetIsUnused(st: Store, live: nat, w: Txn, act: Act)
    requires TxnInv(st, live, w) && Target(w, act).Some?
    ensures Unused(st.hist, live, Target(w, act).value)
  {
  }

  /** Writing such a page keeps every live snapshot whole. */
  lemma StepKeepsStore(st: Store, live: nat, w: Txn, act: Act)
    requires StoreInv(st, live) && TxnInv(st, live, w)
    ensures StoreInv(StepStore(st, w, act), live)
  {
    if Target(w, act).Some? { TargetIsUnused(st, live, w, act); }
  }

  /** Reclaiming stops at the cached oldest transaction, which is never above the oldest live one. */
  lemma StepKeepsTxn(st: Store, live: nat, floor: nat, w: Txn, act: Act)
    requires TxnInv(st, live, w) && floor <= live
    ensures TxnInv(StepStore(st, w, act), live, StepTxn(floor, w, act))
  {
    match act {
      case Reclaim(id) => ReclaimKeeps(st, live, floor, w, id);
      case Alloc(_, _) => WriterPageKeeps(st, live, w, act);
      case Extend(_) => WriterPageKeeps(st, live, w, act);
      case Rewrite(_, _) => WriterPageKeeps(st, live, w, act);
      case Retire(p) => RetireKeeps(st, live, w, p);
      case Refund(p) => RefundKeeps(st, live, w, p);
    }
  }

  lemma ReclaimKeeps(st: Store, live: nat, floor: nat, w: Txn, id: nat)
    requires TxnInv(st, live, w) && floor <= live
    ensures TxnInv(st, live, StepTxn(floor, w, Reclaim(id)))
  {
    var w' := StepTxn(floor, w, Reclaim(id));
    if id in w.gc && id <= floor {
      forall p ensures InGc(w.gc, p) <==> p in w.gc[id] || InGc(w'.gc, p) {
        if InGc(w.gc, p) && p !in w.gc[id] {
          var i :| i in w.gc && p in w.gc[i];
          assert i in w'.gc;
        }
        if InGc(w'.gc, p) {
          var i :| i in w'.gc && p in w'.gc[i];
          assert i in w.gc;
        }
      }
      forall p | p in w'.repnl ensures Unused(st.hist, live, p) {
        if p in w.gc[id] { assert Unused(st.hist, Max(id, live), p); }
      }
    }
  }

  lemma WriterPageKeeps(st: Store, live: nat, w: Txn, act: Act)
    requires TxnInv(st, live, w) && (act.Alloc? || act.Extend? || act.Rewrite?)
    ensures TxnInv(StepStore(st, w, act), live, StepTxn(0, w, act))
  {
    var w' := StepTxn(0, w, act);
    if Target(w, act).Some? {
      var p := Target(w, act).value;
      assert Unused(st.hist, live, p);
      assert w'.tree.Keys == w.tree.Keys + {p};
      assert w'.repnl + w'.retired == w.repnl + w.retired - {p};
    }
  }

  lemma RetireKeeps(st: Store, live: nat, w: Txn, p: Page)
    requires TxnInv(st, live, w)
    ensures TxnInv(st, live, StepTxn(0, w, Retire(p)))
  {
    var w' := StepTxn(0, w, Retire(p));
    if p in w.tree {
      assert w'.tree.Keys == w.tree.Keys - {p};
      assert w'.repnl + w'.retired == w.repnl + w.retired + {p};
    }
  }

  lemma RefundKeeps(st: Store, live: nat, w: Txn, p: Page)
    requires TxnInv(st, live, w)
    ensures TxnInv(st, live, StepTxn(0, w, Refund(p)))
  {
    var w' := StepTxn(0, w, Refund(p));
    if p in w.repnl && p + 1 == w.first {
      assert w'.repnl + w'.retired == w.repnl + w.retired - {p};
      assert Unused(st.hist, live, p);
    }
  }

  // ---------------------------------------------------------------- commit

  lemma InGcAt(gc: map<nat, set<Page>>, id: nat, p: Page)
    requires id in gc && p in gc[id]
    ensures InGc(gc, p)
  {
  }

  lemma JoinGcAt(gc: map<nat, set<Page>>, back: map<nat, set<Page>>, n: nat, retired: set<Page>, id: nat)
    requires (forall i :: i in back ==> i < n && i !in gc) && (forall i :: i in gc ==> i < n)
    ensures var r := JoinGc(gc, back, n, retired);
            && (id in r <==> id in gc || id in back || id == n)
            && (id in gc ==> r[id] == gc[id])
            && (id in back ==> r[id] == back[id])
            && (id == n ==> r[id] == retired)
  {
  }

  /** The ids of the old records, of the left-over and of this transaction are all different. */
  lemma CommitGcAt(st: Store, live: nat, w: Txn, back: map<nat, set<Page>>, id: nat)
    requires StoreInv(st, live) && TxnInv(st, live, w) && GiveBackOk(w, live, back)
    ensures var gc := CommitSnap(st, w, back).gc;
            && (id in gc <==> id in w.gc || id in back || id == |st.hist|)
            && (id in w.gc ==> id < |st.hist| && gc[id] == w.gc[id])
            && (id in back ==> id !in w.gc && id < |st.hist| && gc[id] == back[id])
            && (id == |st.hist| ==> gc[id] == w.retired)
  {
    hide JoinGc, Partition, Intact, SnapOk, Unused, Counted;
    JoinGcAt(w.gc, back, |st.hist|, w.retired, id);
  }

  lemma CommitInGc(st: Store, live: nat, w: Txn, back: map<nat, set<Page>>, p: Page)
    requires StoreInv(st, live) && TxnInv(st, live, w) && GiveBackOk(w, live, back)
    ensures InGc(CommitSnap(st, w, back).gc, p) <==> InGc(w.gc, p) || p in w.repnl || p in w.retired
  {
    var gc := CommitSnap(st, w, back).gc;
    if InGc(gc, p) {
      var id :| id in gc && p in gc[id];
      WhereFrom(st, live, w, back, id, p);
    } else {
      CommitGcAt(st, live, w, back, |st.hist|);
      if InGc(w.gc, p) {
        var id :| id in w.gc && p in w.gc[id];
        CommitGcAt(st, live, w, back, id);
      }
      if p in w.repnl {
        assert InGc(back, p);
        var id :| id in back && p in back[id];
        CommitGcAt(st, live, w, back, id);
      }
    }
  }

  lemma CommitSnapOk(st: Store, live: nat, w: Txn, back: map<nat, set<Page>>)
    requires StoreInv(st, live) && TxnInv(st, live, w) && GiveBackOk(w, live, back)
    ensures SnapOk(CommitSnap(st, w, back))
  {
    var s := CommitSnap(st, w, back);
    forall p: Page ensures NUM_METAS <= p < s.first <==> p in s.tree.Keys || p in {} || InGc(s.gc, p) {
      CommitInGc(st, live, w, back, p);
    }
    forall id, p | id in s.gc && p in s.gc[id] ensures p !in s.tree.Keys { WhereFrom(st, live, w, back, id, p); }
    forall i, j, p | i in s.gc && j in s.gc && i != j && p in s.gc[i] ensures p !in s.gc[j] {
      WhereFrom(st, live, w, back, i, p);
      if p in s.gc[j] { WhereFrom(st, live, w, back, j, p); }
    }
  }

  /** Each page of the new GC comes from an old record, from the left-over, or from the retired pages. */
  lemma WhereFrom(st: Store, live: nat, w: Txn, back: map<nat, set<Page>>, id: nat, p: Page)
    requires StoreInv(st, live) && TxnInv(st, live, w) && GiveBackOk(w, live, back)
    requires id in CommitSnap(st, w, back).gc && p in CommitSnap(st, w, back).gc[id]
    ensures || (id in w.gc && p in w.gc[id])
            || (id in back && p in back[id] && p in w.repnl)
            || (id == |st.hist| && p in w.retired)
    ensures p !in w.tree
    ensures id in w.gc ==> p !in w.repnl && p !in w.retired
  {
    CommitGcAt(st, live, w, back, id);
    if id in back { InGcAt(back, id, p); }
    if id in w.gc { InGcAt(w.gc, id, p); }
  }

  lemma CommitGcUnused(st: Store, live: nat, w: Txn, back: map<nat, set<Page>>)
    requires StoreInv(st, live) && TxnInv(st, live, w) && GiveBackOk(w, live, back)
    ensures GcUnused(Publish(st, CommitSnap(st, w, back)).hist, live, CommitSnap(st, w, back).gc)
  {
    hide JoinGc, Partition, Intact, SnapOk, Counted;
    var s := CommitSnap(st, w, back);
    var hist := Publish(st, s).hist;
    forall id | id in s.gc ensures id < |hist| { CommitGcAt(st, live, w, back, id); }
    forall id, p | id in s.gc && p in s.gc[id] ensures Unused(hist, Max(id, live), p) {
      WhereFrom(st, live, w, back, id, p);
      if id in w.gc && p in w.gc[id] { assert Unused(st.hist, Max(id, live), p); }
    }
  }

  lemma CommitFirstUnused(st: Store, live: nat, w: Txn, back: map<nat, set<Page>>, p: Page)
    requires StoreInv(st, live) && TxnInv(st, live, w) && p >= w.first
    ensures Unused(Publish(st, CommitSnap(st, w, back)).hist, live, p)
  {
    hide JoinGc;
    assert Unused(st.hist, live, p);
  }

  lemma CommitKeepsInv(st: Store, live: nat, w: Txn, back: map<nat, set<Page>>)
    requires StoreInv(st, live) && TxnInv(st, live, w) && GiveBackOk(w, live, back)
    ensures StoreInv(Publish(st, CommitSnap(st, w, back)), live)
  {
    hide JoinGc, Partition, SnapOk, Unused, GcUnused, Intact;
    CommitSnapOk(st, live, w, back);
    CommitGcUnused(st, live, w, back);
    var s := CommitSnap(st, w, back);
    var st' := Publish(st, s);
    assert TxnInv(st, live, w) && s.tree == w.tree && s.first == w.first;
    forall id | id in s.gc ensures id <= Head(st') { CommitGcAt(st, live, w, back, id); }
    forall p: Page | p >= s.first ensures Unused(st'.hist, live, p) { CommitFirstUnused(st, live, w, back, p); }
  }

  // ---------------------------------------------------------------- counters, crash

  /** The pages retired by the transactions after a, up to and including b. */
  function RetiredBetween(hist: seq<Snap>, a: nat, b: nat): nat
    requires a <= b < |hist|
    decreases b
  {
    if a == b then 0 else RetiredBetween(hist, a, b - 1) + |hist[b].freed|
  }

  /** The difference of two retired counters is the number of pages retired in between. */
  lemma {:induction false} CounterDifference(hist: seq<Snap>, a: nat, b: nat)
    requires Counted(hist) && a <= b < |hist|
    ensures hist[b].retired - hist[a].retired == RetiredBetween(hist, a, b)
    decreases b
  {
    if a < b { CounterDifference(hist, a, b - 1); }
  }

  /** What a crash leaves: pages not yet synced hold anything, and the history ends with the recovered snapshot. */
  ghost predicate SurvivesIn(st: Store, mem: map<Page, int>) {
    forall p :: p in st.mem && p !in st.unsynced ==> p in mem && mem[p] == st.mem[p]
  }

  function Rollback(st: Store, mem: map<Page, int>, to: nat): Store
    requires to < |st.hist|
  {
    Store(st.hist[..to + 1], mem, {})
  }

  /** Rolling back to a live snapshot whose pages had all been synced gives a sound store again. */
  lemma RollbackKeepsInv(st: Store, live: nat, mem: map<Page, int>, to: nat)
    requires StoreInv(st, live) && SurvivesIn(st, mem) && live <= to < |st.hist|
    requires st.hist[to].tree.Keys !! st.unsynced
    ensures StoreInv(Rollback(st, mem, to), to)
  {
    var st' := Rollback(st, mem, to);
    var s := st.hist[to];
    assert SnapOk(s) && Intact(st.mem, s.tree);
    assert st'.hist[Head(st')] == s;
    assert forall p :: p in s.tree ==> p in s.tree.Keys && p !in st.unsynced;
    forall p | p !in s.tree ensures Unused(st'.hist, to, p) { }
  }
}
