/** Page number lists: descending arrays whose element 0 counts the pages behind it. */
module Pnl {

  import BinarySearch

  // ---------------------------------------------------------------- allocation arithmetic

  const PGNO_SIZE: nat := 4
  const MALLOC_OVERHEAD: nat := 16
  const GRANULATE: nat := 1024
  const PAGELIST_LIMIT: nat := 0x7FFF_FFFF

  /** The detent in front of a list while it is merged. */
  const P_INVALID: nat := 0xFFFF_FFFF

  function CeilPowerOf2(value: nat, granularity: nat): nat
    requires granularity > 0
  {
    (value + granularity - 1) / granularity * granularity
  }

  /** pnl_bytes2size(): the list is allocated twice as long, for the radix sort. */
  function Bytes2Size(bytes: nat): nat {
    var size := bytes / PGNO_SIZE;
    if size > 3 then (size - 3) / 2 else 0
  }

  /** The condition asserted in pnl_bytes2size(), on the size before it is halved. */
  predicate SizeAsserted(bytes: nat) { 3 < bytes / PGNO_SIZE <= PAGELIST_LIMIT + 65536 }

  function Size2Bytes(wanna: nat): nat {
    CeilPowerOf2(MALLOC_OVERHEAD + PGNO_SIZE * (wanna + wanna + 3), GRANULATE * PGNO_SIZE) - MALLOC_OVERHEAD
  }

  /** Round trip: never less than wanted, and less than half a granule more; nothing overflows. */
  lemma AllocationRoundTrip(wanna: nat)
    requires 1 <= wanna <= PAGELIST_LIMIT
    ensures wanna <= Bytes2Size(Size2Bytes(wanna)) < wanna + GRANULATE / 2
    ensures Bytes2Size(Size2Bytes(wanna)) < 0x1_0000_0000
    ensures Size2Bytes(wanna) + MALLOC_OVERHEAD < 0x1_0000_0000_0000_0000
  {
    var q := (MALLOC_OVERHEAD + PGNO_SIZE * (wanna + wanna + 3) + 4095) / 4096;
    assert Size2Bytes(wanna) == 4096 * q - 16;
    assert Size2Bytes(wanna) / 4 == 1024 * q - 4;
  }

  /** The assertion holds for exactly the lower half of the lengths that may be wanted. */
  lemma SizeAssertedIff(wanna: nat)
    requires 1 <= wanna <= PAGELIST_LIMIT
    ensures SizeAsserted(Size2Bytes(wanna)) <==> wanna <= 1_073_774_588
  {
    var q := (MALLOC_OVERHEAD + PGNO_SIZE * (wanna + wanna + 3) + 4095) / 4096;
    assert Size2Bytes(wanna) / 4 == 1024 * q - 4;
  }

  // ---------------------------------------------------------------- descending lists

  predicate Descending(s: seq<nat>) { forall i, j :: 0 <= i < j < |s| ==> s[i] > s[j] }

  /** All pages of the run p, p+1, .. are in the list. */
  predicate HasSpan(s: seq<nat>, p: nat, n: nat) { forall q :: p <= q < p + n ==> q in s }

  /**
   * In a descending list a run is there exactly when the entry n - 1 places further up is n - 1 higher:
   * there is no room for anything else in between.
   */
  lemma {:induction false} SpanAt(s: seq<nat>, i: nat, n: nat)
    requires Descending(s) && i < |s| && n >= 1
    ensures HasSpan(s, s[i], n) <==> n <= i + 1 && s[i + 1 - n] == s[i] + n - 1
    ensures n <= i + 1 ==> s[i + 1 - n] >= s[i] + n - 1
  {
    if n == 1 {
      assert s[i] in s;
    } else {
      SpanAt(s, i, n - 1);
      if n <= i + 1 { assert s[i + 1 - n] > s[i + 2 - n]; }
      if HasSpan(s, s[i], n) {
        assert s[i] + (n - 1) in s;
        var j :| 0 <= j < |s| && s[j] == s[i] + (n - 1);
        assert s[i + 2 - n] == s[i] + n - 2;
      }
    }
  }

  // ---------------------------------------------------------------- runs

  /** Length of the contiguous run at the front. */
  function RunLen(s: seq<nat>): (n: nat)
    ensures n <= |s| && (s != [] ==> n >= 1)
    ensures forall k :: 0 <= k < n ==> s[k] + k == s[0]
    ensures 0 < n < |s| ==> s[n] + n != s[0]
  {
    if |s| <= 1 then |s| else if s[1] + 1 == s[0] then 1 + RunLen(s[1..]) else 1
  }

  lemma RunLenUnique(s: seq<nat>, n: nat)
    requires 1 <= n <= |s| && (forall k :: 0 <= k < n ==> s[k] + k == s[0]) && (n < |s| ==> s[n] + n != s[0])
    ensures RunLen(s) == n
  {
  }

  /** A run: its highest page and its length. */
  datatype Span = Span(top: nat, len: nat)

  /** Stepping through the list by pnl_scan_span(). */
  function Spans(s: seq<nat>): (r: seq<Span>) {
    if s == [] then [] else [Span(s[0], RunLen(s))] + Spans(s[RunLen(s)..])
  }

  function Pages(r: Span): (p: seq<int>)
    ensures |p| == r.len && forall k :: 0 <= k < r.len ==> p[k] == r.top - k
  {
    seq(r.len, k => r.top - k)
  }

  function Unspan(r: seq<Span>): seq<int> {
    if r == [] then [] else Pages(r[0]) + Unspan(r[1..])
  }

  lemma SliceAt(s: seq<nat>, n: nat)
    requires n <= |s|
    ensures s == s[..n] + s[n..]
  {
  }

  lemma RunPages(s: seq<nat>, n: nat)
    requires 0 < n <= |s| && forall k :: 0 <= k < n ==> s[k] + k == s[0]
    ensures Pages(Span(s[0], n)) == s[..n]
  {
  }

  lemma UnspanStep(first: Span, rest: seq<Span>)
    ensures Unspan([first] + rest) == Pages(first) + Unspan(rest)
  {
    assert ([first] + rest)[1..] == rest;
  }

  /** The runs cover each entry once, in order. */
  lemma {:induction false} SpansCover(s: seq<nat>)
    ensures Unspan(Spans(s)) == s
    decreases |s|
  {
    if s != [] {
      var n := RunLen(s);
      assert Spans(s) == [Span(s[0], n)] + Spans(s[n..]);
      SpansCover(s[n..]);
      SliceAt(s, n);
      RunPages(s, n);
      hide Unspan, Spans, Pages, RunLen;
      UnspanStep(Span(s[0], n), Spans(s[n..]));
    }
  }

  /** The runs are maximal: below each there is a gap. */
  lemma {:induction false} SpansAreMaximal(s: seq<nat>, i: nat)
    requires Descending(s) && i + 1 < |Spans(s)|
    ensures Spans(s)[i].top - Spans(s)[i].len > Spans(s)[i + 1].top
    decreases |s|
  {
    var n := RunLen(s);
    assert n < |s| ==> s[n - 1] > s[n];
    if i > 0 { SpansAreMaximal(s[n..], i - 1); }
  }

  // ---------------------------------------------------------------- search

  /** Number of entries above the page. */
  function Above(s: seq<nat>, p: nat): (n: nat)
    ensures n <= |s|
    ensures forall i :: 0 <= i < n ==> s[i] > p
    ensures n < |s| ==> s[n] <= p
  {
    if s == [] || s[0] <= p then 0 else 1 + Above(s[1..], p)
  }

  lemma AboveUnique(s: seq<nat>, p: nat, n: nat)
    requires n <= |s| && (forall i :: 0 <= i < n ==> s[i] > p) && (n < |s| ==> s[n] <= p)
    ensures Above(s, p) == n
  {
  }

  lemma MemberIffAt(s: seq<nat>, p: nat)
    requires Descending(s)
    ensures p in s <==> Above(s, p) < |s| && s[Above(s, p)] == p
  {
    if p in s {
      var i :| 0 <= i < |s| && s[i] == p;
      AboveUnique(s, p, i);
    }
  }

  // ---------------------------------------------------------------- best fit

  /** Length of the contiguous run from entry i upwards. */
  function UpLen(s: seq<nat>, i: nat): (n: nat)
    requires i < |s|
    ensures 1 <= n <= i + 1
    ensures forall k :: i + 1 - n <= k <= i ==> s[k] == s[i] + (i - k)
    ensures n <= i ==> s[i - n] != s[i] + n
  {
    if i == 0 || s[i - 1] != s[i] + 1 then 1 else 1 + UpLen(s, i - 1)
  }

  lemma UpLenUnique(s: seq<nat>, i: nat, n: nat)
    requires i < |s| && 1 <= n <= i + 1
    requires (forall k :: i + 1 - n <= k <= i ==> s[k] == s[i] + (i - k)) && (n <= i ==> s[i - n] != s[i] + n)
    ensures UpLen(s, i) == n
  {
  }

  /** Entry i is the lowest page of its run. */
  predicate Bottom(s: seq<nat>, i: nat) { i < |s| && (i + 1 < |s| ==> s[i] != s[i + 1] + 1) }

  /** The unsigned difference detent - want limits the page, unless it wraps around. */
  predicate Fits(p: nat, want: nat, detent: nat) { want > detent || p + want <= detent }

  /** A run that is long enough and low enough, named by its lowest page. */
  predicate Usable(s: seq<nat>, i: nat, want: nat, detent: nat) {
    Bottom(s, i) && UpLen(s, i) >= want && Fits(s[i], want, detent)
  }

  /** There is such a run exactly when some run of pages below the detent is in the list. */
  lemma UsableIffSpan(s: seq<nat>, want: nat, detent: nat)
    requires Descending(s) && want >= 1
    ensures (exists i: nat :: Usable(s, i, want, detent))
       <==> (exists p: nat :: HasSpan(s, p, want) && Fits(p, want, detent))
  {
    if i: nat :| Usable(s, i, want, detent) {
      SpanAt(s, i, want);
      assert HasSpan(s, s[i], want);
    }
    if p: nat :| HasSpan(s, p, want) && Fits(p, want, detent) {
      assert p in s;
      var i :| 0 <= i < |s| && s[i] == p;
      SpanAt(s, i, want);
      assert UpLen(s, i) >= want by { SpanUp(s, i, want); }
      var j := GoDown(s, i);
      assert Usable(s, j, want, detent);
    }
  }

  /** Inside a run there is no bottom of another. */
  lemma InsideRun(s: seq<nat>, i: nat, k: nat)
    requires i < |s| && i + 1 - UpLen(s, i) <= k < i
    ensures !Bottom(s, k)
  {
    assert s[k] == s[i] + (i - k) && s[k + 1] == s[i] + (i - (k + 1));
  }

  /** Above the place where the search stops, runs are too high, or too few entries are left. */
  lemma HigherRunsUnfit(s: seq<nat>, i: nat, k: nat, want: nat, detent: nat)
    requires Descending(s) && k < i <= |s| && (i < want || !Fits(s[i - 1], want, detent))
    ensures !Usable(s, k, want, detent)
  {
  }

  /** The choice so far: among the runs from entry i down, the shortest that will do, the lowest first. */
  predicate Best(s: seq<nat>, i: nat, pos: nat, extra: nat, want: nat, detent: nat) {
    && (pos == 0 ==> extra == PAGELIST_LIMIT)
    && (pos != 0 ==> i < pos <= |s| && Usable(s, pos - 1, want, detent) && UpLen(s, pos - 1) == want + extra)
    && (forall k :: i <= k < |s| && Usable(s, k, want, detent) ==>
          pos != 0 && (want + extra < UpLen(s, k) || (want + extra == UpLen(s, k) && k < pos)))
  }

  /**
   * The final choice, counting from 1: the lowest page of a usable run, no usable run is shorter, and
   * none of the same length is lower; 0 if there is none.
   */
  predicate BestPos(s: seq<nat>, pos: nat, want: nat, detent: nat) {
    && (pos == 0 ==> forall k :: 0 <= k < |s| ==> !Usable(s, k, want, detent))
    && (pos != 0 ==> pos <= |s| && Usable(s, pos - 1, want, detent)
                     && forall k :: 0 <= k < |s| && Usable(s, k, want, detent) ==>
                          UpLen(s, pos - 1) < UpLen(s, k) || (UpLen(s, pos - 1) == UpLen(s, k) && k < pos))
  }

  lemma BestStart(s: seq<nat>, want: nat, detent: nat)
    ensures Best(s, |s|, 0, PAGELIST_LIMIT, want, detent) && (s != [] ==> Bottom(s, |s| - 1))
  {
  }

  /** One run considered. */
  lemma BestStep(s: seq<nat>, i: nat, pos: nat, extra: nat, want: nat, detent: nat)
    requires 0 < i <= |s| <= PAGELIST_LIMIT && want >= 1 && Bottom(s, i - 1) && Fits(s[i - 1], want, detent)
    requires Best(s, i, pos, extra, want, detent)
    ensures var span := UpLen(s, i - 1);
            && span <= i && (i - span > 0 ==> Bottom(s, i - span - 1))
            && (if span >= want && span - want < extra then Best(s, i - span, i, span - want, want, detent)
                else Best(s, i - span, pos, extra, want, detent))
  {
    hide Usable, UpLen, Bottom, Fits;
    var span := UpLen(s, i - 1);
    AtBottom(s, i, want, detent);
    forall k | i - span <= k < i - 1 ensures !Usable(s, k, want, detent) {
      InsideRun(s, i - 1, k);
      if Usable(s, k, want, detent) { UsableIsBottom(s, k, want, detent); }
    }
  }

  lemma UsableIsBottom(s: seq<nat>, k: nat, want: nat, detent: nat)
    requires Usable(s, k, want, detent)
    ensures Bottom(s, k)
  {
  }

  lemma AtBottom(s: seq<nat>, i: nat, want: nat, detent: nat)
    requires 0 < i <= |s| && Bottom(s, i - 1) && Fits(s[i - 1], want, detent)
    ensures Usable(s, i - 1, want, detent) <==> UpLen(s, i - 1) >= want
    ensures UpLen(s, i - 1) < i ==> Bottom(s, i - UpLen(s, i - 1) - 1)
  {
  }

  lemma BestEnd(s: seq<nat>, i: nat, pos: nat, extra: nat, want: nat, detent: nat)
    requires Descending(s) && i <= |s| && Best(s, i, pos, extra, want, detent)
    requires i < want || (i > 0 && !Fits(s[i - 1], want, detent)) || (extra == 0 && pos != 0)
    ensures BestPos(s, pos, want, detent)
  {
    if extra != 0 || pos == 0 {
      forall k | 0 <= k < i ensures !Usable(s, k, want, detent) { HigherRunsUnfit(s, i, k, want, detent); }
    }
  }

  lemma BestPosRoom(s: seq<nat>, pos: nat, want: nat, detent: nat)
    requires BestPos(s, pos, want, detent) && pos != 0
    ensures want <= pos <= |s|
  {
  }

  lemma SpanUp(s: seq<nat>, i: nat, n: nat)
    requires Descending(s) && i < |s| && 1 <= n <= i + 1 && s[i + 1 - n] == s[i] + n - 1
    ensures UpLen(s, i) >= n
  {
    var m := UpLen(s, i);
    if m < n {
      Spread(s, i + 1 - n, i - m);
      Spread(s, i - m, i + 1 - m);
    }
  }

  /** Entries of a descending list are at least as far apart as their places. */
  lemma {:induction false} Spread(s: seq<nat>, i: nat, j: nat)
    requires Descending(s) && i <= j < |s|
    ensures s[i] >= s[j] + (j - i)
  {
    if i < j { Spread(s, i, j - 1); }
  }

  /** The lowest page of the run through entry i. */
  lemma {:induction false} GoDown(s: seq<nat>, i: nat) returns (j: nat)
    requires Descending(s) && i < |s|
    ensures i <= j < |s| && Bottom(s, j) && s[j] <= s[i] && UpLen(s, j) >= UpLen(s, i)
    decreases |s| - i
  {
    j := i;
    if i + 1 < |s| && s[i] == s[i + 1] + 1 { j := GoDown(s, i + 1); }
  }

  function PageAt(s: seq<nat>, pos: nat): nat { if 0 < pos <= |s| then s[pos - 1] else 0 }

  /** The list without the `want` entries that end at place pos, counting from 1. */
  function Without(s: seq<nat>, pos: nat, want: nat): seq<nat> {
    if want <= pos <= |s| && pos > 0 then s[..pos - want] + s[pos..] else s
  }

  /** What cutting out such a run leaves: a descending list of all the other pages. */
  lemma CutOutRun(s: seq<nat>, pos: nat, want: nat)
    requires Descending(s) && 0 < pos <= |s| && 1 <= want <= UpLen(s, pos - 1)
    ensures var p, t := PageAt(s, pos), Without(s, pos, want);
            && Descending(t) && (forall q: nat :: q in t <==> q in s && !(p <= q < p + want))
  {
    TopOfRun(s, pos - 1, want);
    CutOut(s, pos - want, pos);
    hide UpLen;
  }

  lemma TopOfRun(s: seq<nat>, i: nat, want: nat)
    requires i < |s| && 1 <= want <= UpLen(s, i)
    ensures want <= i + 1 && s[i + 1 - want] == s[i] + want - 1
  {
  }

  lemma CutOut(s: seq<nat>, a: nat, e: nat)
    requires Descending(s) && a < e <= |s|
    ensures var t := s[..a] + s[e..];
            Descending(t) && forall q: nat :: q in t <==> q in s && (q > s[a] || q < s[e - 1])
  {
    var t := s[..a] + s[e..];
    assert forall j :: 0 <= j < |t| ==> t[j] == s[if j < a then j else j + (e - a)];
    forall q: nat | q in s && (q > s[a] || q < s[e - 1]) ensures q in t {
      var k :| 0 <= k < |s| && s[k] == q;
      assert t[if k < a then k else k - (e - a)] == q;
    }
  }

  /** pnl_get_best_sequence() finds a run exactly when the list holds one that is low enough. */
  lemma BestSequenceFoundIff(s: seq<nat>, pos: nat, want: nat, detent: nat)
    requires Descending(s) && want >= 1 && BestPos(s, pos, want, detent)
    ensures pos != 0 <==> exists p: nat :: HasSpan(s, p, want) && Fits(p, want, detent)
  {
    UsableIffSpan(s, want, detent);
    hide HasSpan, UpLen, Fits, Descending;
    assert pos != 0 <==> exists i: nat :: Usable(s, i, want, detent) by {
      if pos == 0 {
        forall i: nat ensures !Usable(s, i, want, detent) {
          if Usable(s, i, want, detent) { UsableIsBottom(s, i, want, detent); }
        }
      }
    }
  }

  /** It takes just the pages of such a run, and leaves a descending list. */
  lemma BestSequenceTaken(s: seq<nat>, pos: nat, want: nat, detent: nat)
    requires Descending(s) && want >= 1 && BestPos(s, pos, want, detent) && pos != 0
    ensures var p, t := PageAt(s, pos), Without(s, pos, want);
            && HasSpan(s, p, want) && Fits(p, want, detent) && Descending(t)
            && (forall q: nat :: q in t <==> q in s && !(p <= q < p + want))
  {
    assert Usable(s, pos - 1, want, detent) && UpLen(s, pos - 1) >= want && Fits(s[pos - 1], want, detent);
    hide BestPos, Usable, Without, HasSpan, Descending, UpLen, Fits;
    TopOfRun(s, pos - 1, want);
    SpanAt(s, pos - 1, want);
    CutOutRun(s, pos, want);
  }

  /** A page that is returned keeps its run below the limit exactly when the run is not longer than the limit. */
  lemma DetentIsKeptIff(s: seq<nat>, pos: nat, want: nat, detent: nat)
    requires Descending(s) && want >= 1 && BestPos(s, pos, want, detent) && pos != 0
    ensures PageAt(s, pos) + want <= detent <==> want <= detent
  {
    assert Usable(s, pos - 1, want, detent);
  }

  /** Two pages wanted below page 1, in the list 4, 3: page 3 is returned, since the difference 1 - 2 wraps. */
  lemma DetentIsPassed()
    ensures BestPos([4, 3], 2, 2, 1) && PageAt([4, 3], 2) == 3
  {
    var s: seq<nat> := [4, 3];
    assert UpLen(s, 1) == 1 + UpLen(s, 0);
  }

  // ---------------------------------------------------------------- insertion

  /** The run p + n - 1, .., p in descending order. */
  function Run(p: nat, n: nat): (r: seq<nat>)
    ensures |r| == n && forall k :: 0 <= k < n ==> r[k] == p + n - 1 - k
  {
    seq(n, k requires 0 <= k < n => p + n - 1 - k)
  }

  function Inserted(s: seq<nat>, p: nat, n: nat): seq<nat> {
    s[..Above(s, p)] + Run(p, n) + s[Above(s, p)..]
  }

  /** Inserting a run keeps the list descending exactly when none of its pages is there yet. */
  lemma InsertedDescendingIff(s: seq<nat>, p: nat, n: nat)
    requires Descending(s) && n >= 1
    ensures Descending(Inserted(s, p, n)) <==> forall q :: p <= q < p + n ==> q !in s
  {
    var a, r := Above(s, p), Inserted(s, p, n);
    assert r[a + n - 1] == p && r[a] == p + n - 1;
    assert forall i :: 0 <= i < a ==> r[i] == s[i];
    assert forall i :: a <= i < |s| ==> r[i + n] == s[i];
    if Descending(r) {
      forall i | 0 <= i < |s| ensures !(p <= s[i] < p + n) {
        assert if i < a then r[i] > r[a] else r[a + n - 1] > r[i + n];
      }
    } else if forall q :: p <= q < p + n ==> q !in s {
      forall i, j | 0 <= i < j < |r| ensures r[i] > r[j] {
        InsertedOrder(s, p, n, i, j);
      }
    }
  }

  /** What shifting and filling leave in the array. */
  lemma InsertedFrom(s: seq<nat>, p: nat, n: nat, r: nat, x: seq<nat>)
    requires Descending(s) && r <= |s| && |s| + n < |x| && (r > 0 ==> s[r - 1] > p)
    requires forall i :: 0 <= i < r ==> x[i + 1] == s[i]
    requires forall i :: r < i <= r + n ==> x[i] == p + (r + n - i)
    requires forall i :: r <= i < |s| ==> x[i + 1 + n] == s[i] && s[i] <= p
    ensures x[1..|s| + n + 1] == Inserted(s, p, n)
  {
    assert forall i :: 0 <= i < r ==> s[i] >= s[r - 1];
    AboveUnique(s, p, r);
    var t, y := Inserted(s, p, n), x[1..|s| + n + 1];
    forall i | 0 <= i < |t| ensures y[i] == t[i] {
      if i >= r + n { assert t[i] == s[i - n] == x[i - n + 1 + n]; }
    }
  }

  lemma InsertedOrder(s: seq<nat>, p: nat, n: nat, i: nat, j: nat)
    requires Descending(s) && n >= 1 && (forall q :: p <= q < p + n ==> q !in s) && i < j < |s| + n
    ensures Inserted(s, p, n)[i] > Inserted(s, p, n)[j]
  {
    var a, r := Above(s, p), Inserted(s, p, n);
    assert i < a ==> s[i] in s && s[i] >= p + n;
    assert j >= a + n ==> s[j - n] in s && s[j - n] < p;
    assert i < a ==> r[i] == s[i];
    assert j >= a + n ==> r[j] == s[j - n];
  }

  // ---------------------------------------------------------------- merging

  /** Two descending lists merged, the least page last. */
  function Merged(s: seq<nat>, t: seq<nat>): (r: seq<nat>)
    ensures |r| == |s| + |t|
    decreases |s| + |t|
  {
    if t == [] then s
    else if s != [] && t[|t| - 1] > s[|s| - 1] then Merged(s[..|s| - 1], t) + [s[|s| - 1]]
    else Merged(s, t[..|t| - 1]) + [t[|t| - 1]]
  }

  lemma {:induction false} MergedMembers(s: seq<nat>, t: seq<nat>, q: nat)
    ensures q in Merged(s, t) <==> q in s || q in t
    decreases |s| + |t|
  {
    if t != [] {
      if s != [] && t[|t| - 1] > s[|s| - 1] {
        MergedMembers(s[..|s| - 1], t, q);
        assert s == s[..|s| - 1] + [s[|s| - 1]];
      } else {
        MergedMembers(s, t[..|t| - 1], q);
        assert t == t[..|t| - 1] + [t[|t| - 1]];
      }
    }
  }

  /** The merged list is descending exactly when no page is in both. */
  lemma {:induction false} MergedDescendingIff(s: seq<nat>, t: seq<nat>)
    requires Descending(s) && Descending(t)
    ensures Descending(Merged(s, t)) <==> forall q :: q in s ==> q !in t
    decreases |s| + |t|
  {
    if t != [] {
      if s != [] && t[|t| - 1] > s[|s| - 1] { MergedStep(s, t); } else { MergedStepBack(s, t); }
    }
  }

  lemma {:induction false} MergedStep(s: seq<nat>, t: seq<nat>)
    requires Descending(s) && Descending(t) && s != [] && t != [] && t[|t| - 1] > s[|s| - 1]
    ensures Descending(Merged(s, t)) <==> forall q :: q in s ==> q !in t
    decreases |s| + |t|, 0
  {
    var u, x := s[..|s| - 1], s[|s| - 1];
    assert s == u + [x];
    MergedDescendingIff(u, t);
    forall q: nat | q in Merged(u, t) ensures q > x { MergedMembers(u, t, q); }
    EndsAt(Merged(u, t), x);
    assert x !in t;
    hide Merged, Descending;
    assert forall q :: q in s <==> q in u || q == x;
  }

  lemma {:induction false} MergedStepBack(s: seq<nat>, t: seq<nat>)
    requires Descending(s) && Descending(t) && t != [] && (s == [] || t[|t| - 1] <= s[|s| - 1])
    ensures Descending(Merged(s, t)) <==> forall q :: q in s ==> q !in t
    decreases |s| + |t|, 0
  {
    var u, x := t[..|t| - 1], t[|t| - 1];
    assert t == u + [x];
    MergedDescendingIff(s, u);
    forall q: nat | q in Merged(s, u) ensures q >= x { MergedMembers(s, u, q); }
    if x in s {
      MergedMembers(s, u, x);
      TwiceIsNotDescending(Merged(s, u), x);
    } else {
      forall q: nat | q in Merged(s, u) ensures q > x { MergedMembers(s, u, q); }
      EndsAt(Merged(s, u), x);
    }
    hide Merged, Descending;
    assert forall q :: q in t <==> q in u || q == x;
  }

  lemma EndsAt(m: seq<nat>, x: nat)
    requires forall q: nat :: q in m ==> q > x
    ensures Descending(m + [x]) <==> Descending(m)
  {
    var r := m + [x];
    if Descending(r) {
      forall i, j | 0 <= i < j < |m| ensures m[i] > m[j] { assert r[i] > r[j]; }
    }
    forall i | 0 <= i < |m| ensures r[i] > r[|m|] { assert m[i] in m; }
  }

  lemma TwiceIsNotDescending(m: seq<nat>, x: nat)
    requires x in m
    ensures !Descending(m + [x])
  {
    var i :| 0 <= i < |m| && m[i] == x;
    assert (m + [x])[i] == (m + [x])[|m|];
  }

  /** The short cuts: one list wholly above the other. */
  lemma {:induction false} MergedAppends(s: seq<nat>, t: seq<nat>)
    requires Descending(t) && (s == [] || t == [] || s[|s| - 1] > t[0])
    ensures Merged(s, t) == s + t
    decreases |t|
  {
    if t != [] {
      MergedAppends(s, t[..|t| - 1]);
      assert t == t[..|t| - 1] + [t[|t| - 1]];
    }
  }

  lemma {:induction false} MergedPrepends(s: seq<nat>, t: seq<nat>)
    requires Descending(s) && Descending(t) && t != [] && (s == [] || t[|t| - 1] > s[0])
    ensures Merged(s, t) == t + s
    decreases |s|
  {
    if s == [] {
      MergedAppends([], t);
    } else {
      MergedPrepends(s[..|s| - 1], t);
      assert s == s[..|s| - 1] + [s[|s| - 1]];
    }
  }

  // ---------------------------------------------------------------- the list

  /** What the allocator answers: nothing, or at least as many bytes as asked for. */
  datatype Malloc = NoMemory | Block(extra: nat)

  datatype Rc = Success | TxnFull | NoMem

  /**
   * A pnl_t variable. pl[0] is the counter; behind the capacity there is one element more that is
   * allocated but never holds a page.
   */
  class List {
    var pl: array?<nat>

    ghost predicate Valid()
      reads this, pl
    {
      pl != null ==> pl.Length >= 2 && pl[0] + 2 <= pl.Length
    }

    /** pnl_alloclen() */
    function Capacity(): nat
      reads this
    {
      if pl != null && pl.Length >= 2 then pl.Length - 2 else 0
    }

    ghost function Pages(): seq<nat>
      requires Valid()
      reads this, pl
    {
      if pl == null then [] else pl[1..pl[0] + 1]
    }

    /** pnl_search_nochk(): the place of the first entry that is not above the page. */
    method Search(pgno: nat) returns (n: nat)
      requires Valid() && pl != null && Descending(Pages())
      ensures n == Above(Pages(), pgno) + 1
    {
      ghost var s, goal := Pages(), Above(Pages(), pgno) + 1;
      assert forall i :: 1 <= i <= pl[0] ==> pl[i] == s[i - 1];
      assert forall i :: goal - 1 <= i < |s| ==> s[i] <= s[goal - 1];
      n := BinarySearch.Bsearch(pl, 1, pl[0], BinarySearch.Descending, pgno, goal);
    }

    /** pnl_contains() */
    method Contains(pgno: nat) returns (r: bool)
      requires Valid() && pl != null && Descending(Pages())
      ensures r <==> pgno in Pages()
    {
      ghost var s := Pages();
      MemberIffAt(s, pgno);
      var n := Search(pgno);
      assert n <= pl[0] ==> pl[n] == s[n - 1];
      r := n <= pl[0] && pl[n] == pgno;
    }

    /**
     * pnl_contains_span(): no test that the search stayed inside the list, so below all entries the
     * element behind them decides.
     */
    method ContainsSpan(pgno: nat, span: nat) returns (r: bool)
      requires Valid() && pl != null && Descending(Pages()) && span >= 1
      ensures r <==> HasSpan(Pages(), pgno, span) || StaleHit(Pages(), pl[pl[0] + 1], pgno, span)
    {
      hide HasSpan, StaleHit, Above, Descending;
      SpanQuery(Pages(), pl[pl[0] + 1], pgno, span);
      ghost var x := Pages() + [pl[pl[0] + 1]];
      assert forall i :: 1 <= i <= pl[0] + 1 ==> pl[i] == x[i - 1];
      var n := Search(pgno);
      r := n >= span && pl[n] == pgno && pl[n - span + 1] == pl[n] + span - 1;
    }

    /** pnl_scan_span() */
    method ScanSpan(from: nat) returns (span: nat)
      requires Valid() && pl != null && 0 < from <= pl[0]
      ensures span == RunLen(Pages()[from - 1..])
    {
      ghost var t := Pages()[from - 1..];
      assert forall k :: 0 <= k < |t| ==> t[k] == pl[from + k];
      span := 1;
      while from + span <= pl[0] && pl[from] == pl[from + span] + span
        invariant 1 <= span <= |t| && forall k :: 0 <= k < span ==> t[k] + k == t[0]
      {
        span := span + 1;
      }
      RunLenUnique(t, span);
    }

    /** pnl_reserve(): wanna is the length asked for; memory the answer of malloc() or realloc(). */
    method Reserve(wanna: nat, memory: Malloc) returns (rc: Rc)
      requires Valid() && (pl == null ==> wanna > 0)
      modifies this
      ensures Valid() && Pages() == old(Pages())
      ensures rc == Success ==> pl != null && Capacity() >= wanna && (pl == old(pl) || fresh(pl))
      ensures rc != Success ==> pl == old(pl)
      ensures rc == TxnFull <==> old(pl) != null && wanna > Capacity() && wanna > PAGELIST_LIMIT
      ensures rc == NoMem ==> memory == NoMemory
      ensures old(pl) != null && old(Capacity()) >= wanna ==> rc == Success && pl == old(pl)
    {
      hide Bytes2Size, Size2Bytes;
      if pl == null {
        if memory == NoMemory { return NoMem; }
        RoomFor(wanna, memory.extra);
        pl := new nat[Bytes2Size(Size2Bytes(wanna) + memory.extra) + 2];
        pl[0] := 0;
        return Success;
      }
      var room := Capacity();
      if room >= wanna { return Success; }
      if wanna > PAGELIST_LIMIT { return TxnFull; }
      var size := if wanna + wanna - room < PAGELIST_LIMIT then wanna + wanna - room else PAGELIST_LIMIT;
      if memory == NoMemory { return NoMem; }
      RoomFor(size, memory.extra);
      Realloc(Bytes2Size(Size2Bytes(size) + memory.extra));
      return Success;
    }

    /** realloc(): a larger block with the same contents. */
    method Realloc(capacity: nat)
      requires Valid() && pl != null && capacity >= Capacity()
      modifies this
      ensures Valid() && pl != null && fresh(pl) && Capacity() == capacity && Pages() == old(Pages())
    {
      hide Bytes2Size, Size2Bytes;
      var bigger := new nat[capacity + 2];
      forall i | 0 <= i <= pl[0] { bigger[i] := pl[i]; }
      assert bigger[1..bigger[0] + 1] == pl[1..pl[0] + 1];
      pl := bigger;
    }

    /** pnl_append(): pnl_need() for one page more, then the page behind the last. */
    method Append(pgno: nat, memory: Malloc) returns (rc: Rc)
      requires Valid()
      modifies this, pl
      ensures Valid()
      ensures rc == Success ==> pl != null && Pages() == old(Pages()) + [pgno] && (pl == old(pl) || fresh(pl))
      ensures rc != Success ==> pl == old(pl) && Pages() == old(Pages())
      ensures rc == TxnFull ==> old(|Pages()|) == old(Capacity()) >= PAGELIST_LIMIT
      ensures rc == NoMem ==> memory == NoMemory && (old(pl) == null || old(|Pages()|) == old(Capacity()))
    {
      rc := Reserve(if pl == null then 1 else pl[0] + 1, memory);
      if rc == Success {
        label reserved:
        pl[0] := pl[0] + 1;
        pl[pl[0]] := pgno;
        assert pl[1..pl[0]] == old@reserved(Pages());
      }
    }

    /** pnl_insert_span(): shift the entries up to the run's first page, then fill the gap. */
    method InsertSpan(pgno: nat, n: nat, memory: Malloc) returns (rc: Rc)
      requires Valid() && n > 0
      modifies this, pl
      ensures Valid()
      ensures rc == Success ==> pl != null && (old(Descending(Pages())) ==> Pages() == Inserted(old(Pages()), pgno, n))
      ensures rc != Success ==> pl == old(pl) && Pages() == old(Pages())
    {
      rc := Reserve((if pl == null then 0 else pl[0]) + n, memory);
      if rc == Success { ShiftIn(pgno, n); }
    }

    method ShiftIn(pgno: nat, n: nat)
      requires Valid() && n > 0 && pl != null && pl[0] + n <= Capacity()
      modifies pl
      ensures Valid() && |Pages()| == old(|Pages()|) + n
      ensures old(Descending(Pages())) ==> Pages() == Inserted(old(Pages()), pgno, n)
    {
      ghost var s := Pages();
      var r := MakeRoom(pgno, n);
      Fill(pgno, n, r);
      if Descending(s) { InsertedFrom(s, pgno, n, r, pl[..]); }
    }

    /** Shift the entries that are not above the page by n; r is what stays in front. */
    method MakeRoom(pgno: nat, n: nat) returns (r: nat)
      requires Valid() && n > 0 && pl != null && pl[0] + n <= Capacity()
      modifies pl
      ensures var s := old(Pages());
              && r <= |s| && pl[0] == |s| + n && (r > 0 ==> s[r - 1] > pgno)
              && (forall i :: 0 <= i < r ==> pl[i + 1] == s[i])
              && (forall i :: r <= i < |s| ==> pl[i + 1 + n] == s[i] && s[i] <= pgno)
    {
      ghost var s := Pages();
      assert forall i :: 0 <= i < |s| ==> pl[i + 1] == s[i];
      r := pl[0];
      var w := r + n;
      pl[0] := w;
      while r > 0 && pl[r] <= pgno
        invariant w == r + n && 0 <= r <= |s| && pl[0] == |s| + n
        invariant forall i :: 0 <= i < r ==> pl[i + 1] == s[i]
        invariant forall i :: r <= i < |s| ==> pl[i + 1 + n] == s[i] && s[i] <= pgno
      {
        assert pl[r] == s[r - 1];
        pl[w] := pl[r];
        w, r := w - 1, r - 1;
      }
      assert r > 0 ==> pl[r] == s[r - 1];
    }

    /** Fill the gap behind entry r with the run, from its lowest page up. */
    method Fill(pgno: nat, n: nat, r: nat)
      requires pl != null && r + n < pl.Length
      modifies pl
      ensures forall i :: r < i <= r + n ==> pl[i] == pgno + (r + n - i)
      ensures forall i :: 0 <= i <= r || r + n < i < pl.Length ==> pl[i] == old(pl[i])
    {
      var fill, w := pgno, r + n;
      while w > r
        invariant r <= w <= r + n && fill == pgno + (r + n - w)
        invariant forall i :: w < i <= r + n ==> pl[i] == pgno + (r + n - i)
        invariant forall i :: 0 <= i <= r || r + n < i < pl.Length ==> pl[i] == old(pl[i])
      {
        pl[w] := fill;
        fill, w := fill + 1, w - 1;
      }
    }

    /** pnl_cut() */
    method Cut(pos: nat, span: nat)
      requires Valid() && pl != null && 0 < pos <= pl[0] && pos + span <= pl[0] + 1
      modifies pl
      ensures Valid() && Pages() == old(Pages()[..pos - 1] + Pages()[pos - 1 + span..])
    {
      ghost var s := Pages();
      assert forall i :: 1 <= i <= |s| ==> pl[i] == s[i - 1];
      if span > 0 {
        var len := pl[0] - span;
        pl[0] := len;
        for i := pos to len + 1
          invariant pl[0] == len
          invariant forall k :: 1 <= k < pos ==> pl[k] == s[k - 1]
          invariant forall k :: pos <= k < i ==> pl[k] == s[k + span - 1]
          invariant forall k :: i + span <= k <= |s| ==> pl[k] == s[k - 1]
        {
          pl[i] := pl[i + span];
        }
      }
      assert forall i :: 0 <= i < pl[0] ==> Pages()[i] == (s[..pos - 1] + s[pos - 1 + span..])[i];
    }

    /**
     * pnl_get_best_sequence(): from the lowest page up, the shortest run that is long enough; its lower
     * part is cut out. 0 says that there is none.
     */
    method GetBestSequence(want: nat, detent: nat) returns (pgno: nat)
      requires Valid() && pl != null && Descending(Pages()) && want >= 1
      requires |Pages()| <= PAGELIST_LIMIT && 0 !in Pages()
      modifies pl
      ensures Valid()
      ensures exists pos :: BestPos(old(Pages()), pos, want, detent)
                            && pgno == PageAt(old(Pages()), pos) && Pages() == Without(old(Pages()), pos, want)
      ensures pgno != 0 ==> (pgno + want <= detent <==> want <= detent)
    {
      hide BestPos, Descending;
      ghost var s := Pages();
      var bestPos := FindBest(want, detent);
      if bestPos != 0 {
        BestPosRoom(s, bestPos, want, detent);
        DetentIsKeptIff(s, bestPos, want, detent);
        pgno := pl[bestPos];
        assert pgno == PageAt(s, bestPos);
        Cut(bestPos - want + 1, want);
      } else {
        pgno := 0;
      }
      assert Pages() == Without(s, bestPos, want);
    }

    method FindBest(want: nat, detent: nat) returns (bestPos: nat)
      requires Valid() && pl != null && Descending(Pages()) && want >= 1 && |Pages()| <= PAGELIST_LIMIT
      ensures BestPos(Pages(), bestPos, want, detent)
    {
      hide Usable, UpLen, Bottom, Descending, Best, BestPos;
      ghost var s := Pages();
      bestPos := 0;
      var bestExtra: nat := PAGELIST_LIMIT;
      var i := pl[0];
      BestStart(s, want, detent);
      while i >= want && Fits(pl[i], want, detent)
        invariant 0 <= i <= pl[0] && (0 < i ==> Bottom(s, i - 1))
        invariant Best(s, i, bestPos, bestExtra, want, detent)
        decreases i
      {
        var span := RunUp(i);
        assert pl[i] == s[i - 1];
        BestStep(s, i, bestPos, bestExtra, want, detent);
        if span >= want {
          var extra := span - want;
          if extra < bestExtra {
            bestPos, bestExtra := i, extra;
            if bestExtra == 0 {
              BestEnd(s, i - span, bestPos, 0, want, detent);
              return;
            }
          }
        }
        i := i - span;
      }
      assert i > 0 ==> pl[i] == s[i - 1];
      BestEnd(s, i, bestPos, bestExtra, want, detent);
    }

    /** The inner loop: entry 0, the counter, is compared too before the place is tested. */
    method RunUp(i: nat) returns (span: nat)
      requires Valid() && pl != null && 0 < i <= pl[0]
      ensures span == UpLen(Pages(), i - 1)
    {
      ghost var s := Pages();
      assert forall k :: 0 <= k < |s| ==> pl[k + 1] == s[k];
      span := 1;
      while pl[i - span] == pl[i] + span && i - span > 0
        invariant 1 <= span <= i
        invariant forall k :: i - span <= k <= i - 1 ==> s[k] == s[i - 1] + (i - 1 - k)
      {
        span := span + 1;
      }
      UpLenUnique(s, i - 1, span);
    }

    /**
     * pnl_merge(): the source goes into this list, which has room for it. A source wholly above or below is
     * copied; otherwise the lists are merged from their ends, with a detent in front of this one.
     */
    method Merge(src: seq<nat>)
      requires Valid() && pl != null && Descending(Pages()) && Descending(src)
      requires |Pages()| + |src| <= Capacity()
      requires (forall q :: q in src ==> q < P_INVALID)
      modifies pl
      ensures Valid() && Pages() == Merged(old(Pages()), src)
    {
      hide Merged, Descending;
      var len, total := pl[0], pl[0] + |src|;
      if |src| == 0 {
        MergedNothing(Pages());
        return;
      }
      assert len > 0 ==> pl[1] == Pages()[0] && pl[len] == Pages()[len - 1];
      if total >= 21 && (len == 0 || pl[len] > src[0]) {
        MergedAppends(Pages(), src);
        CopyBehind(src);
        return;
      }
      if total >= 21 && src[|src| - 1] > pl[1] {
        MergedPrepends(Pages(), src);
        CopyInFront(src);
        return;
      }
      MergeFromEnds(src);
    }

    method CopyBehind(src: seq<nat>)
      requires Valid() && pl != null && |Pages()| + |src| <= Capacity()
      modifies pl
      ensures Valid() && Pages() == old(Pages()) + src
    {
      ghost var s := Pages();
      assert forall k :: 0 <= k < |s| ==> pl[k + 1] == s[k];
      CopyIn(pl[0] + 1, src);
      pl[0] := pl[0] + |src|;
      assert Pages() == s + src;
    }

    method CopyInFront(src: seq<nat>)
      requires Valid() && pl != null && |Pages()| + |src| <= Capacity()
      modifies pl
      ensures Valid() && Pages() == src + old(Pages())
    {
      ghost var s := Pages();
      assert forall k :: 0 <= k < |s| ==> pl[k + 1] == s[k];
      MoveUp(pl[0], |src|);
      CopyIn(1, src);
      pl[0] := pl[0] + |src|;
      ghost var r := src + s;
      assert forall k :: 0 <= k < |r| ==> pl[k + 1] == r[k];
      assert Pages() == r;
    }

    method MergeFromEnds(src: seq<nat>)
      requires Valid() && pl != null && src != [] && |Pages()| + |src| <= Capacity()
      requires (forall q :: q in src ==> q < P_INVALID)
      modifies pl
      ensures Valid() && Pages() == Merged(old(Pages()), src)
    {
      hide Merged;
      ghost var s := Pages();
      assert forall k :: 0 <= k < |s| ==> pl[k + 1] == s[k];
      var len := pl[0];
      pl[0] := P_INVALID;
      MergeInner(src, len, s);
      pl[0] := len + |src|;
      assert Pages() == Merged(s, src);
    }

    method CopyIn(at: nat, src: seq<nat>)
      requires pl != null && at + |src| <= pl.Length
      modifies pl
      ensures forall k :: at <= k < at + |src| ==> pl[k] == src[k - at]
      ensures forall k :: 0 <= k < at || at + |src| <= k < pl.Length ==> pl[k] == old(pl[k])
    {
      for i := 0 to |src|
        invariant forall k :: at <= k < at + i ==> pl[k] == src[k - at]
        invariant forall k :: 0 <= k < at || at + i <= k < pl.Length ==> pl[k] == old(pl[k])
      {
        pl[at + i] := src[i];
      }
    }

    /** memmove() of the entries by n places towards the end. */
    method MoveUp(len: nat, n: nat)
      requires pl != null && len + n < pl.Length
      modifies pl
      ensures forall k :: n < k <= len + n ==> pl[k] == old(pl[k - n])
      ensures pl[0] == old(pl[0])
    {
      var i := len;
      while i > 0
        invariant 0 <= i <= len
        invariant forall k :: i + n < k <= len + n ==> pl[k] == old(pl[k - n])
        invariant forall k :: 0 <= k <= i || len + n < k < pl.Length ==> pl[k] == old(pl[k])
      {
        pl[i + n] := pl[i];
        i := i - 1;
      }
    }

    /** pnl_merge_inner(): the lesser of the two last entries goes to the end, until the source is used up. */
    method MergeInner(src: seq<nat>, len: nat, ghost s: seq<nat>)
      requires pl != null && src != [] && len == |s| && |s| + |src| < pl.Length && pl[0] == P_INVALID
      requires (forall q :: q in src ==> q < P_INVALID) && forall k :: 0 <= k < |s| ==> pl[k + 1] == s[k]
      modifies pl
      ensures forall k :: 0 <= k < |s| + |src| ==> pl[k + 1] == Merged(s, src)[k]
    {
      var a, b := len, |src|;
      var dst := a + b;
      ghost var done: seq<nat> := [];
      hide Merged;
      assert s[..a] == s && src[..b] == src && Merged(s, src) + [] == Merged(s, src);
      while b > 0
        invariant 0 <= a <= |s| && 0 <= b <= |src| && dst == a + b && |done| == |s| + |src| - dst
        invariant Merged(s[..a], src[..b]) + done == Merged(s, src)
        invariant pl[0] == P_INVALID && forall k :: 0 <= k < a ==> pl[k + 1] == s[k]
        invariant forall k :: 0 <= k < |done| ==> pl[dst + 1 + k] == done[k]
        decreases dst
      {
        assert src[b - 1] in src;
        MergedUnfold(s, src, a, b, done);
        if src[b - 1] > pl[a] {
          done := [s[a - 1]] + done;
          pl[dst] := pl[a];
          a := a - 1;
        } else {
          done := [src[b - 1]] + done;
          pl[dst] := src[b - 1];
          b := b - 1;
        }
        dst := dst - 1;
      }
      assert src[..0] == [];
      MergedNothing(s[..a]);
    }
  }

  lemma MergedNothing(s: seq<nat>)
    ensures Merged(s, []) == s
  {
  }

  lemma MergedUnfold(s: seq<nat>, t: seq<nat>, a: nat, b: nat, done: seq<nat>)
    requires a <= |s| && 0 < b <= |t|
    ensures Merged(s[..a], t[..b]) + done ==
            if a > 0 && t[b - 1] > s[a - 1] then Merged(s[..a - 1], t[..b]) + ([s[a - 1]] + done)
            else Merged(s[..a], t[..b - 1]) + ([t[b - 1]] + done)
  {
    assert a > 0 ==> s[..a][..a - 1] == s[..a - 1];
    assert t[..b][..b - 1] == t[..b - 1];
  }

  lemma RoomFor(wanna: nat, extra: nat)
    ensures Bytes2Size(Size2Bytes(wanna) + extra) >= wanna
  {
    var q := (MALLOC_OVERHEAD + PGNO_SIZE * (wanna + wanna + 3) + 4095) / 4096;
    assert Size2Bytes(wanna) == 4096 * q - 16;
    assert Size2Bytes(wanna) / 4 == 1024 * q - 4;
    assert (Size2Bytes(wanna) + extra) / 4 >= Size2Bytes(wanna) / 4;
  }

  /** The page is below all entries, yet the element behind them happens to complete a run. */
  predicate StaleHit(s: seq<nat>, spare: nat, p: nat, span: nat)
    requires span >= 1
  {
    && spare == p && span <= |s| + 1 && Above(s, p) == |s|
    && (span > 1 ==> s[|s| + 1 - span] == p + span - 1)
  }

  lemma SpanQuery(s: seq<nat>, spare: nat, p: nat, span: nat)
    requires Descending(s) && span >= 1
    ensures var x, n := s + [spare], Above(s, p) + 1;
            (n >= span && x[n - 1] == p && x[n - span] == x[n - 1] + span - 1)
            <==> HasSpan(s, p, span) || StaleHit(s, spare, p, span)
  {
    var n := Above(s, p) + 1;
    assert HasSpan(s, p, span) ==> p in s;
    MemberIffAt(s, p);
    if n <= |s| && s[n - 1] == p { SpanAt(s, n - 1, span); }
    if n > |s| && span > 1 && span <= n { assert (s + [spare])[n - span] == s[n - span]; }
  }

  /** Such a hit is always wrong, and a page that is not below the least entry never makes one. */
  lemma StaleHitIsWrong(s: seq<nat>, spare: nat, p: nat, span: nat)
    requires Descending(s) && span >= 1
    ensures StaleHit(s, spare, p, span) ==> !HasSpan(s, p, span)
    ensures s != [] && p >= s[|s| - 1] ==> !StaleHit(s, spare, p, span)
  {
    if HasSpan(s, p, span) { assert p in s; MemberIffAt(s, p); }
  }

  /** After the least page 3 has been cut off the list 5, 4, 3, it is still reported. */
  lemma CutPageIsStillReported()
    ensures StaleHit([5, 4], 3, 3, 1) && !HasSpan([5, 4], 3, 1)
  {
    assert Above([5, 4], 3) == 1 + Above([4], 3);
    StaleHitIsWrong([5, 4], 3, 3, 1);
  }
}
