/** Lists of reclaimed transaction numbers: one solid interval and a sorted list of single numbers. */
module Rkl {

  import BinarySearch

  const INVALID_TXNID: nat := 0xFFFF_FFFF_FFFF_FFFF
  const TXL_MAX: nat := 0x400_0000 - 2 - 2

  predicate Ascending(s: seq<nat>) { forall i, j :: 0 <= i < j < |s| ==> s[i] < s[j] }

  predicate Positive(s: seq<nat>) { forall i :: 0 <= i < |s| ==> s[i] > 0 }

  /** No entry is inside the interval or touches it. */
  predicate Clear(s: seq<nat>, b: nat, e: nat) { forall i :: 0 <= i < |s| ==> s[i] + 1 < b || s[i] > e }

  /** Number of entries in front that are below the number. */
  function Below(s: seq<nat>, x: nat): (n: nat)
    ensures n <= |s|
    ensures forall i :: 0 <= i < n ==> s[i] < x
    ensures n < |s| ==> s[n] >= x
  {
    if s == [] || s[0] >= x then 0 else 1 + Below(s[1..], x)
  }

  lemma BelowUnique(s: seq<nat>, x: nat, n: nat)
    requires n <= |s| && (forall i :: 0 <= i < n ==> s[i] < x) && (n < |s| ==> s[n] >= x)
    ensures Below(s, x) == n
  {
  }

  lemma MemberIffAt(s: seq<nat>, x: nat)
    requires Ascending(s)
    ensures x in s <==> Below(s, x) < |s| && s[Below(s, x)] == x
  {
    if x in s {
      var i :| 0 <= i < |s| && s[i] == x;
      BelowUnique(s, x, i);
    }
  }

  lemma PlaceOf(s: seq<nat>, x: nat, n: nat)
    requires Ascending(s) && n <= |s| && (n > 0 ==> s[n - 1] < x) && (n < |s| ==> s[n] >= x)
    ensures Below(s, x) == n
  {
    assert forall i :: 0 <= i < n ==> s[i] <= s[n - 1];
    BelowUnique(s, x, n);
  }

  // ---------------------------------------------------------------- lists as sets

  /** The number is in the list or in the interval. */
  predicate In(s: seq<nat>, b: nat, e: nat, x: nat) { x in s || b <= x < e }

  lemma CutMember(s: seq<nat>, f: nat, t: nat, b: nat, x: nat)
    requires f <= t <= |s| && forall k :: f <= k < t ==> s[k] == b + (k - f)
    ensures x in s <==> x in s[..f] + s[t..] || b <= x < b + (t - f)
  {
    var u := s[..f] + s[t..];
    if b <= x < b + (t - f) { assert s[f + (x - b)] == x; }
    if x in s {
      var i :| 0 <= i < |s| && s[i] == x;
      if i < f { assert u[i] == x; } else if i >= t { assert u[i - (t - f)] == x; }
    }
  }

  /** A part of an ascending list that is contiguous, cut out. */
  lemma CutRun(s: seq<nat>, f: nat, t: nat, b: nat)
    requires Ascending(s) && f <= t <= |s| && forall k :: f <= k < t ==> s[k] == b + (k - f)
    ensures var u := s[..f] + s[t..];
            Ascending(u) && forall x: nat :: x in s <==> x in u || b <= x < b + (t - f)
  {
    forall x: nat ensures x in s <==> x in s[..f] + s[t..] || b <= x < b + (t - f) { CutMember(s, f, t, b, x); }
  }

  function Solid(b: nat, e: nat): (r: seq<nat>)
    requires b <= e
    ensures |r| == e - b && forall k :: 0 <= k < e - b ==> r[k] == b + k
  {
    seq(e - b, k requires 0 <= k < e - b => b + k)
  }

  /** An interval put into a list at its place. */
  function Put(u: seq<nat>, b: nat, e: nat): (v: seq<nat>)
    requires b <= e
    ensures |v| == |u| + (e - b)
    ensures forall k :: 0 <= k < |v| ==>
              v[k] == if k < Below(u, b) then u[k]
                      else if k < Below(u, b) + (e - b) then b + (k - Below(u, b)) else u[k - (e - b)]
  {
    u[..Below(u, b)] + Solid(b, e) + u[Below(u, b)..]
  }

  lemma PutIs(u: seq<nat>, b: nat, e: nat, v: seq<nat>)
    requires b <= e && |v| == |u| + (e - b)
    requires forall k :: 0 <= k < Below(u, b) ==> v[k] == u[k]
    requires forall k :: Below(u, b) <= k < Below(u, b) + (e - b) ==> v[k] == b + (k - Below(u, b))
    requires forall k :: Below(u, b) + (e - b) <= k < |v| ==> v[k] == u[k - (e - b)]
    ensures v == Put(u, b, e)
  {
  }

  lemma PutAscending(u: seq<nat>, b: nat, e: nat)
    requires Ascending(u) && Clear(u, b, e) && b < e
    ensures Ascending(Put(u, b, e))
  {
    var p, v := Below(u, b), Put(u, b, e);
    forall i | p <= i < |u| ensures u[i] > e { assert u[i] >= u[p]; }
    hide Put, Below;
    forall i, j | 0 <= i < j < |v| ensures v[i] < v[j] {
      if j < p || i >= p + (e - b) { }
    }
  }

  lemma PutHas(u: seq<nat>, b: nat, e: nat, x: nat)
    requires b <= e && (x in u || b <= x < e)
    ensures x in Put(u, b, e)
  {
    var p, v := Below(u, b), Put(u, b, e);
    hide Put, Below;
    if b <= x < e {
      assert v[p + (x - b)] == x;
    } else {
      var i :| 0 <= i < |u| && u[i] == x;
      var k := if i < p then i else i + (e - b);
      assert v[k] == x;
    }
  }

  lemma PutHasOnly(u: seq<nat>, b: nat, e: nat, x: nat)
    requires b <= e && x in Put(u, b, e)
    ensures x in u || b <= x < e
  {
    var p, v := Below(u, b), Put(u, b, e);
    hide Put, Below;
    var k :| 0 <= k < |v| && v[k] == x;
    if k < p { assert u[k] == x; } else if k >= p + (e - b) { assert u[k - (e - b)] == x; }
  }

  lemma PutMembers(u: seq<nat>, b: nat, e: nat, x: nat)
    requires b <= e
    ensures x in Put(u, b, e) <==> x in u || b <= x < e
  {
    hide Put;
    if x in u || b <= x < e { PutHas(u, b, e, x); }
    if x in Put(u, b, e) { PutHasOnly(u, b, e, x); }
  }

  // ---------------------------------------------------------------- extremes

  lemma LastIsHighest(s: seq<nat>, b: nat, e: nat)
    requires Ascending(s) && s != [] && (b >= e || (Clear(s, b, e) && e < s[|s| - 1]))
    ensures var r, t := s[|s| - 1], s[..|s| - 1];
            && In(s, b, e, r)
            && forall x: nat :: (In(s, b, e, x) ==> x <= r) && (In(t, b, e, x) <==> In(s, b, e, x) && x != r)
  {
    var r, t := s[|s| - 1], s[..|s| - 1];
    assert s == t + [r];
    assert forall i :: 0 <= i < |t| ==> t[i] < r;
  }

  lemma FirstIsLowest(s: seq<nat>, b: nat, e: nat)
    requires Ascending(s) && s != [] && (b >= e || (Clear(s, b, e) && b > s[0]))
    ensures var r, t := s[0], s[1..];
            && In(s, b, e, r)
            && forall x: nat :: (In(s, b, e, x) ==> r <= x) && (In(t, b, e, x) <==> In(s, b, e, x) && x != r)
  {
    var r, t := s[0], s[1..];
    assert s == [r] + t;
    assert forall i :: 0 <= i < |t| ==> r < t[i];
  }

  lemma SolidIsHighest(s: seq<nat>, b: nat, e: nat, r: nat)
    requires Ascending(s) && b < e && Clear(s, b, e) && (s != [] ==> e >= s[|s| - 1]) && r + 1 == e
    ensures In(s, b, e, r) && Clear(s, b, r)
    ensures forall x: nat :: (In(s, b, e, x) ==> x <= r) && (In(s, b, r, x) <==> In(s, b, e, x) && x != r)
  {
    forall i | 0 <= i < |s| ensures s[i] < r { assert s[i] <= s[|s| - 1]; }
  }

  lemma SolidIsLowest(s: seq<nat>, b: nat, e: nat, b1: nat)
    requires Ascending(s) && b < e && Clear(s, b, e) && (s != [] ==> b <= s[0]) && b1 == b + 1
    ensures In(s, b, e, b) && Clear(s, b1, e)
    ensures forall x: nat :: (In(s, b, e, x) ==> b <= x) && (In(s, b1, e, x) <==> In(s, b, e, x) && x != b)
  {
    forall i | 0 <= i < |s| ensures s[i] > b { assert s[0] <= s[i]; }
  }

  // ---------------------------------------------------------------- exchange of runs

  /** A run of the list is worth exchanging for the interval; here, that it is one and nothing touches it. */
  predicate IsRun(s: seq<nat>, from: nat, to: nat, nb: nat, ne: nat) {
    && from < to <= |s| && ne == nb + (to - from)
    && (forall k :: from <= k < to ==> s[k] == nb + (k - from))
    && (from > 0 ==> s[from - 1] + 1 < nb) && (to < |s| ==> s[to] > ne)
  }

  lemma RunInside(s: seq<nat>, from: nat, to: nat, nb: nat, ne: nat)
    requires IsRun(s, from, to, nb, ne)
    ensures from < to <= |s|
  {
  }

  /** The list without the entries from place `from` up to place `to`. */
  function Rest(s: seq<nat>, from: nat, to: nat): (u: seq<nat>)
    requires from <= to <= |s|
    ensures |u| == |s| - (to - from)
    ensures forall k :: 0 <= k < |u| ==> u[k] == if k < from then s[k] else s[k + (to - from)]
  {
    s[..from] + s[to..]
  }

  /** The entries between the place of the interval and the run, moved up by n, close the run's gap from below. */
  lemma GapMovedUp(s: seq<nat>, v: seq<nat>, at: nat, from: nat, to: nat, n: nat)
    requires at < from < to <= |s| <= |v| && n < to - from
    requires forall k :: at + n <= k < from + n ==> v[k] == s[k - n]
    requires forall k :: 0 <= k < at || from + n <= k < |s| ==> v[k] == s[k]
    ensures var u := Rest(s, from, to);
            && (forall k :: 0 <= k < at ==> v[k] == u[k])
            && (forall k :: at + n <= k < from + n ==> v[k] == u[k - n])
            && (forall k :: to <= k < |s| ==> v[k] == u[k - to + from])
  {
  }

  /** The entries between the run and the place of the interval, moved down over the run. */
  lemma GapMovedDown(s: seq<nat>, v: seq<nat>, at: nat, from: nat, to: nat)
    requires from < to < at <= |s| <= |v|
    requires forall k :: from <= k < at - (to - from) ==> v[k] == s[k - from + to]
    requires forall k :: 0 <= k < from || at - (to - from) <= k < |s| ==> v[k] == s[k]
    ensures var u := Rest(s, from, to);
            && (forall k :: 0 <= k < at - (to - from) ==> v[k] == u[k])
            && (forall k :: at <= k < |s| ==> v[k] == u[k - (to - from)])
  {
  }

  lemma GapInPlace(s: seq<nat>, v: seq<nat>, from: nat, to: nat)
    requires from < to <= |s| <= |v| && forall k :: 0 <= k < |s| ==> v[k] == s[k]
    ensures var u := Rest(s, from, to);
            && (forall k :: 0 <= k < from ==> v[k] == u[k])
            && (forall k :: to <= k < |s| ==> v[k] == u[k - to + from])
  {
  }

  /** The list with the interval in it and the run out of it. */
  function Exchanged(s: seq<nat>, from: nat, to: nat, b: nat, e: nat): seq<nat>
    requires from <= to <= |s| && b <= e
  {
    Put(Rest(s, from, to), b, e)
  }

  lemma RestClear(s: seq<nat>, from: nat, to: nat, b: nat, e: nat)
    requires Ascending(s) && Clear(s, b, e) && from <= to <= |s|
    ensures Ascending(Rest(s, from, to)) && Clear(Rest(s, from, to), b, e)
    ensures (Positive(s) ==> Positive(Rest(s, from, to)))
  {
  }

  lemma RestClearOfRun(s: seq<nat>, from: nat, to: nat, nb: nat, ne: nat)
    requires Ascending(s) && IsRun(s, from, to, nb, ne)
    ensures Clear(Rest(s, from, to), nb, ne)
  {
    assert forall k :: 0 <= k < from ==> s[k] <= s[from - 1];
    assert forall k :: to <= k < |s| ==> s[k] >= s[to];
  }

  lemma ExchangeKeeps(s: seq<nat>, from: nat, to: nat, b: nat, e: nat, nb: nat, ne: nat)
    requires Ascending(s) && Clear(s, b, e) && b < e && IsRun(s, from, to, nb, ne)
    ensures var v := Exchanged(s, from, to, b, e);
            Ascending(v) && forall x: nat :: In(v, nb, ne, x) <==> In(s, b, e, x)
  {
    var u := Rest(s, from, to);
    CutRun(s, from, to, nb);
    RestClear(s, from, to, b, e);
    hide Ascending, Clear, Below, Put, IsRun;
    PutAscending(u, b, e);
    forall x: nat ensures In(Put(u, b, e), nb, ne, x) <==> In(s, b, e, x) { PutMembers(u, b, e, x); }
  }

  /** The exchanged run is clear of the new list, and the list has no zero. */
  lemma ExchangeClear(s: seq<nat>, from: nat, to: nat, b: nat, e: nat, nb: nat, ne: nat)
    requires Ascending(s) && Clear(s, b, e) && 0 < b < e && IsRun(s, from, to, nb, ne) && Positive(s)
    ensures Clear(Exchanged(s, from, to, b, e), nb, ne) && Positive(Exchanged(s, from, to, b, e)) && nb > 0
  {
    RestClear(s, from, to, b, e);
    RestClearOfRun(s, from, to, nb, ne);
    SolidClearOfRun(s, from, to, b, e, nb, ne);
    assert nb > 0;
    hide Ascending, Below, IsRun, Rest, Put, Clear, Positive;
    PutClear(Rest(s, from, to), b, e, nb, ne);
  }

  lemma PutClear(u: seq<nat>, b: nat, e: nat, nb: nat, ne: nat)
    requires Clear(u, nb, ne) && Positive(u) && 0 < b <= e && (ne < b || nb > e)
    ensures Clear(Put(u, b, e), nb, ne) && Positive(Put(u, b, e))
  {
  }

  /** The interval and a run that is clear of it do not touch. */
  lemma SolidClearOfRun(s: seq<nat>, from: nat, to: nat, b: nat, e: nat, nb: nat, ne: nat)
    requires Clear(s, b, e) && b < e && IsRun(s, from, to, nb, ne)
    ensures ne < b || nb > e
    ensures nb == s[from]
  {
    assert s[to - 1] == ne - 1;
    var k := if nb < b <= ne then from + (b - 1 - nb) else from;
    assert s[k] == nb + (k - from);
  }

  /** Where the interval goes in the list without the run. */
  lemma PlaceInRest(s: seq<nat>, from: nat, to: nat, b: nat, e: nat, nb: nat, ne: nat)
    requires Ascending(s) && Clear(s, b, e) && b < e && IsRun(s, from, to, nb, ne)
    ensures Below(s, b) <= from || Below(s, b) >= to
    ensures Below(Rest(s, from, to), b) == if Below(s, b) <= from then Below(s, b) else Below(s, b) - (to - from)
  {
    SolidClearOfRun(s, from, to, b, e, nb, ne);
    NotInside(s, from, to, b, e, nb, ne);
    RunInside(s, from, to, nb, ne);
    hide Clear, IsRun;
    BelowRest(s, from, to, b);
  }

  lemma BelowRest(s: seq<nat>, from: nat, to: nat, b: nat)
    requires Ascending(s) && from <= to <= |s| && (Below(s, b) <= from || Below(s, b) >= to)
    ensures Below(Rest(s, from, to), b) == if Below(s, b) <= from then Below(s, b) else Below(s, b) - (to - from)
  {
    var p := Below(s, b);
    forall k | p <= k < |s| ensures s[k] >= b { assert s[k] >= s[p]; }
    hide Ascending, Below;
    BelowUnique(Rest(s, from, to), b, if p <= from then p else p - (to - from));
  }

  lemma NotInside(s: seq<nat>, from: nat, to: nat, b: nat, e: nat, nb: nat, ne: nat)
    requires Clear(s, b, e) && b < e && IsRun(s, from, to, nb, ne) && (ne < b || nb > e)
    ensures Below(s, b) <= from || Below(s, b) >= to
  {
    assert s[from] == nb;
  }

  lemma NotIn(s: seq<nat>, b: nat, e: nat, id: nat)
    requires id !in s && (id + 1 < b || id > e)
    ensures !In(s, b, e, id)
  {
  }

  function Insert(s: seq<nat>, p: nat, id: nat): (u: seq<nat>)
    requires p <= |s|
    ensures |u| == |s| + 1 && u[p] == id
    ensures forall k :: 0 <= k < p ==> u[k] == s[k]
    ensures forall k :: p < k < |u| ==> u[k] == s[k - 1]
  {
    s[..p] + [id] + s[p..]
  }

  lemma InsertMembers(s: seq<nat>, p: nat, id: nat, x: nat)
    requires p <= |s|
    ensures x in Insert(s, p, id) <==> x in s || x == id
  {
    var u := Insert(s, p, id);
    if x in s {
      var k :| 0 <= k < |s| && s[k] == x;
      assert u[if k < p then k else k + 1] == x;
    }
  }

  lemma InsertOrder(s: seq<nat>, p: nat, b: nat, e: nat, id: nat)
    requires Ascending(s) && Positive(s) && Clear(s, b, e) && id > 0 && (id + 1 < b || id > e)
    requires p <= |s| && (p > 0 ==> s[p - 1] < id) && (p < |s| ==> s[p] > id)
    ensures var u := Insert(s, p, id); Ascending(u) && Positive(u) && Clear(u, b, e)
  {
    assert forall k :: 0 <= k < p ==> s[k] <= s[p - 1];
    assert forall k :: p <= k < |s| ==> s[k] >= s[p];
  }

  /** A number that does not touch the interval, put into the list at its place. */
  lemma InsertKeeps(s: seq<nat>, b: nat, e: nat, id: nat)
    requires Ascending(s) && Positive(s) && Clear(s, b, e) && id !in s && id > 0 && (id + 1 < b || id > e)
    ensures var u := Insert(s, Below(s, id), id);
            && Ascending(u) && Positive(u) && Clear(u, b, e)
            && forall x: nat :: In(u, b, e, x) <==> In(s, b, e, x) || x == id
  {
    var p := Below(s, id);
    assert p < |s| ==> s[p] in s;
    InsertOrder(s, p, b, e, id);
    hide Below, Ascending, Positive, Clear, Insert;
    forall x: nat ensures In(Insert(s, p, id), b, e, x) <==> In(s, b, e, x) || x == id { InsertMembers(s, p, id, x); }
  }

  // ---------------------------------------------------------------- duplicates

  /**
   * What rkl_push() leaves of the list when the number is in it already: the entries above it are moved
   * up and back, but the last one does not come back if there are two or more.
   */
  function Spoilt(s: seq<nat>, x: nat): seq<nat> {
    if Below(s, x) + 2 < |s| then s[..|s| - 1] + [s[|s| - 2]] else s
  }

  lemma LastIsLost(s: seq<nat>, x: nat)
    requires Ascending(s) && Below(s, x) + 2 < |s|
    ensures s[|s| - 1] !in Spoilt(s, x) && !Ascending(Spoilt(s, x))
  {
    hide Below;
    var t, n := Spoilt(s, x), |s|;
    assert t[n - 2] == s[n - 2] == t[n - 1];
    forall i | 0 <= i < n ensures t[i] < s[n - 1] { assert t[i] == s[if i == n - 1 then n - 2 else i]; }
  }

  /** So such a push keeps the set, and the list in order, exactly when at most one entry is above. */
  lemma DuplicateIsHarmlessIff(s: seq<nat>, x: nat)
    requires Ascending(s) && x in s
    ensures (forall y: nat :: y in Spoilt(s, x) <==> y in s) <==> Below(s, x) + 2 >= |s|
    ensures Ascending(Spoilt(s, x)) <==> Below(s, x) + 2 >= |s|
  {
    if Below(s, x) + 2 < |s| {
      LastIsLost(s, x);
      assert s[|s| - 1] in s;
      hide Spoilt, Below, Ascending;
    }
  }

  /** With 10, 20 and 30 in the list, adding 10 again loses 30. */
  lemma DuplicateLosesTheLast()
    ensures Spoilt([10, 20, 30], 10) == [10, 20, 20]
  {
  }

  // ---------------------------------------------------------------- the list

  datatype Malloc = NoMemory | Block(extra: nat)

  datatype Rc = Success | Duplicate | TxnFull | NoMem

  /** How rkl_push() calls extend_solid(): a first number, one below the interval, or one behind it. */
  predicate Touches(b: nat, e: nat, b0: nat, e0: nat, id: nat) {
    || (b >= e && b0 == id && e0 == id + 1)
    || (b < e && b0 == id && id + 1 == b && e0 == e)
    || (b < e && b0 == b && id == e && e0 == id + 1)
  }

  lemma AroundId(s: seq<nat>, b: nat, e: nat, b0: nat, e0: nat, id: nat)
    requires Ascending(s) && Touches(b, e, b0, e0, id) && (b < e ==> Clear(s, b, e))
    ensures In(s, b, e, id) <==> b >= e && id in s
  {
  }

  /** Entries f to t - 1 join the interval [b0, e0): those in front of i below it, the others above. */
  predicate Joining(s: seq<nat>, f: nat, i: nat, t: nat, b1: nat, b0: nat, e0: nat, e1: nat) {
    && f <= i <= t <= |s| && b1 + (i - f) == b0 && e1 == e0 + (t - i)
    && (forall k :: f <= k < i ==> s[k] == b1 + (k - f))
    && (forall k :: i <= k < t ==> s[k] == e0 + (k - i))
  }

  lemma JoinedAt(s: seq<nat>, f: nat, i: nat, t: nat, b1: nat, b0: nat, e0: nat, e1: nat, x: nat)
    requires Joining(s, f, i, t, b1, b0, e0, e1) && b0 <= e0
    ensures x in s || b0 <= x < e0 <==> x in s[..f] + s[t..] || b1 <= x < e1
  {
    var u := s[..f] + s[t..];
    if b1 <= x < b0 { assert s[f + (x - b1)] == x; }
    if e0 <= x < e1 { assert s[i + (x - e0)] == x; }
    if x in s {
      var k :| 0 <= k < |s| && s[k] == x;
      if k < f { assert u[k] == x; } else if k >= t { assert u[k - t + f] == x; }
    }
  }

  /** The list without the entries that joined is as it should be for the interval with them. */
  lemma ExtendedClear(s: seq<nat>, f: nat, t: nat, b1: nat, e1: nat)
    requires Ascending(s) && f <= t <= |s|
    requires (f > 0 ==> s[f - 1] + 1 < b1) && (t < |s| ==> s[t] > e1)
    ensures var u := s[..f] + s[t..];
            Ascending(u) && (Positive(s) ==> Positive(u)) && Clear(u, b1, e1)
  {
    var u := s[..f] + s[t..];
    assert forall k :: 0 <= k < f ==> s[k] <= s[f - 1];
    assert forall k :: t <= k < |s| ==> s[k] >= s[t];
    assert forall k :: 0 <= k < |u| ==> u[k] == s[if k < f then k else k - f + t];
  }

  /** The list without the entries that joined, and the interval with them. */
  lemma Extended(s: seq<nat>, f: nat, i: nat, t: nat, b1: nat, b0: nat, e0: nat, e1: nat)
    requires Ascending(s) && Joining(s, f, i, t, b1, b0, e0, e1) && b0 < e0
    requires (f > 0 ==> s[f - 1] + 1 < b1) && (t < |s| ==> s[t] > e1)
    ensures var u := s[..f] + s[t..];
            && Ascending(u) && (Positive(s) ==> Positive(u)) && Clear(u, b1, e1)
            && forall x: nat :: In(u, b1, e1, x) <==> In(s, b0, e0, x)
  {
    ExtendedClear(s, f, t, b1, e1);
    hide Ascending, Positive, Clear, Joining;
    forall x: nat ensures In(s[..f] + s[t..], b1, e1, x) <==> In(s, b0, e0, x) {
      JoinedAt(s, f, i, t, b1, b0, e0, e1, x);
    }
  }

  lemma TouchesAdds(s: seq<nat>, b: nat, e: nat, b0: nat, e0: nat, id: nat)
    requires Touches(b, e, b0, e0, id)
    ensures b0 < e0 && forall x: nat :: In(s, b0, e0, x) <==> In(s, b, e, x) || x == id
  {
  }

  class RklList {
    var list: array<nat>
    var len: nat
    var begin: nat
    var end: nat

    /** rkl_check(), and that nothing in the list touches the interval. */
    ghost predicate Valid()
      reads this, list
    {
      && len <= list.Length && list.Length > 0
      && Ascending(Elems()) && Positive(Elems())
      && (begin < end ==> begin > 0 && Clear(Elems(), begin, end))
    }

    ghost function Elems(): seq<nat>
      reads this, list
    {
      if len <= list.Length then list[..len] else []
    }

    ghost predicate Has(x: nat)
      reads this, list
    {
      In(Elems(), begin, end, x)
    }

    method Search(id: nat) returns (n: nat)
      requires Valid()
      ensures n == Below(Elems(), id)
    {
      ghost var s := Elems();
      assert forall i :: 0 <= i < |s| ==> list[i] == s[i];
      assert forall i :: Below(s, id) <= i < |s| ==> s[i] >= s[Below(s, id)];
      n := BinarySearch.Bsearch(list, 0, len, BinarySearch.Ascending, id, Below(s, id));
    }

    /** rkl_contain() */
    method Contain(id: nat) returns (r: bool)
      requires Valid()
      ensures r <==> Has(id)
    {
      if begin <= id < end { return true; }
      ghost var s := Elems();
      MemberIffAt(s, id);
      var n := Search(id);
      return n < len && list[n] == id;
    }

    /** rkl_pop() */
    method Pop(highest: bool) returns (r: nat)
      requires Valid()
      modifies this, list
      ensures Valid()
      ensures r == 0 ==> forall x: nat :: !old(Has(x)) && !Has(x)
      ensures r != 0 ==> old(Has(r)) && forall x: nat :: old(Has(x)) ==> if highest then x <= r else r <= x
      ensures r != 0 ==> forall x: nat :: Has(x) <==> old(Has(x)) && x != r
    {
      if len > 0 {
        if highest && (begin >= end || end < list[len - 1]) {
          r := PopLast();
          return;
        }
        if !highest && (begin >= end || begin > list[0]) {
          r := PopFirst();
          return;
        }
      }
      if begin < end {
        if highest { r := PopEnd(); } else { r := PopBegin(); }
        return;
      }
      return 0;
    }

    method PopLast() returns (r: nat)
      requires Valid() && len > 0 && (begin >= end || end < list[len - 1])
      modifies this
      ensures Valid() && list == old(list) && r > 0 && old(Has(r))
      ensures forall x: nat :: (old(Has(x)) ==> x <= r) && (Has(x) <==> old(Has(x)) && x != r)
    {
      hide Ascending, Clear, Positive;
      assert Elems()[|Elems()| - 1] == list[len - 1];
      LastIsHighest(Elems(), begin, end);
      r := RemoveLast();
    }

    method PopFirst() returns (r: nat)
      requires Valid() && len > 0 && (begin >= end || begin > list[0])
      modifies this, list
      ensures Valid() && list == old(list) && r > 0 && old(Has(r))
      ensures forall x: nat :: (old(Has(x)) ==> r <= x) && (Has(x) <==> old(Has(x)) && x != r)
    {
      hide Ascending, Clear, Positive;
      assert Elems()[0] == list[0];
      FirstIsLowest(Elems(), begin, end);
      r := RemoveFirst();
    }

    method PopEnd() returns (r: nat)
      requires Valid() && begin < end && (len > 0 ==> end >= list[len - 1])
      modifies this`begin, this`end
      ensures Valid() && r > 0 && old(Has(r))
      ensures forall x: nat :: (old(Has(x)) ==> x <= r) && (Has(x) <==> old(Has(x)) && x != r)
    {
      hide Ascending, Clear, Positive;
      ghost var s := Elems();
      assert s != [] ==> s[|s| - 1] == list[len - 1];
      SolidIsHighest(s, begin, end, end - 1);
      end := end - 1;
      r := end;
      AfterCut();
    }

    method PopBegin() returns (r: nat)
      requires Valid() && begin < end && (len > 0 ==> begin <= list[0])
      modifies this`begin, this`end
      ensures Valid() && r > 0 && old(Has(r))
      ensures forall x: nat :: (old(Has(x)) ==> r <= x) && (Has(x) <==> old(Has(x)) && x != r)
    {
      hide Ascending, Clear, Positive;
      ghost var s := Elems();
      assert s != [] ==> s[0] == list[0];
      SolidIsLowest(s, begin, end, begin + 1);
      r := begin;
      begin := begin + 1;
      AfterCut();
    }

    method RemoveLast() returns (r: nat)
      requires Valid() && len > 0
      modifies this
      ensures Valid() && r == old(list[len - 1]) > 0 && list == old(list)
      ensures Elems() == old(Elems()[..len - 1])
      ensures (begin == old(begin) && end == old(end)) || (begin >= end && old(begin) >= old(end))
    {
      r := list[len - 1];
      len := len - 1;
      assert Elems() == old(Elems()[..len - 1]);
      AfterCut();
    }

    /** list_remove_first() */
    method RemoveFirst() returns (r: nat)
      requires Valid() && len > 0
      modifies this, list
      ensures Valid() && r == old(list[0]) > 0 && list == old(list)
      ensures Elems() == old(Elems()[1..])
      ensures (begin == old(begin) && end == old(end)) || (begin >= end && old(begin) >= old(end))
    {
      ghost var s := Elems();
      assert forall i :: 0 <= i < |s| ==> list[i] == s[i];
      r := list[0];
      CopyDown(0, 1, len - 1);
      len := len - 1;
      assert Elems() == s[1..];
      AfterCut();
    }

    method AfterCut()
      modifies this`begin, this`end
      ensures if len == 0 && old(begin) == old(end) then begin == INVALID_TXNID && end == 0
              else begin == old(begin) && end == old(end)
    {
      if len == 0 && begin == end { end := 0; begin := INVALID_TXNID; }
    }

    /** Move n elements towards the front. */
    method CopyDown(dst: nat, src: nat, n: nat)
      requires dst <= src && src + n <= list.Length
      modifies list
      ensures forall k :: dst <= k < dst + n ==> list[k] == old(list[k - dst + src])
      ensures forall k :: 0 <= k < dst || dst + n <= k < list.Length ==> list[k] == old(list[k])
    {
      for i := 0 to n
        invariant forall k :: dst <= k < dst + i ==> list[k] == old(list[k - dst + src])
        invariant forall k :: 0 <= k < dst || dst + i <= k < list.Length ==> list[k] == old(list[k])
      {
        list[dst + i] := list[src + i];
      }
    }

    /** Move the elements of [from, to) by n towards the end. */
    method CopyUp(from: nat, to: nat, n: nat)
      requires from <= to && to + n <= list.Length
      modifies list
      ensures forall k :: from + n <= k < to + n ==> list[k] == old(list[k - n])
      ensures forall k :: 0 <= k < from || to + n <= k < list.Length ==> list[k] == old(list[k])
    {
      var i := to;
      while i > from
        invariant from <= i <= to
        invariant forall k :: i + n <= k < to + n ==> list[k] == old(list[k - n])
        invariant forall k :: 0 <= k < i || to + n <= k < list.Length ==> list[k] == old(list[k])
      {
        i := i - 1;
        list[i + n] := list[i];
      }
    }

    // -------------------------------------------------------------- adding

    /** extend_solid(): the interval takes up the list's entries that touch it now. */
    method ExtendSolid(b0: nat, e0: nat, id: nat) returns (rc: Rc)
      requires Valid() && Touches(begin, end, b0, e0, id) && id > 0
      modifies this, list
      ensures Valid() && list == old(list)
      ensures rc == Duplicate || rc == Success
      ensures rc == Duplicate <==> old(Has(id))
      ensures rc == Duplicate ==> Elems() == old(Elems()) && begin == old(begin) && end == old(end)
      ensures rc == Success ==> forall x: nat :: Has(x) <==> old(Has(x)) || x == id
    {
      hide Ascending, Positive, Clear, In, Below;
      ghost var s := Elems();
      AroundId(s, begin, end, b0, e0, id);
      var i := Search(id);
      var dup, f, b := GrowDown(i, b0, e0, id);
      if dup { return Duplicate; }
      var t, e;
      dup, t, e := GrowUp(i, b0, e0, id);
      if dup { return Duplicate; }
      TouchesAdds(s, begin, end, b0, e0, id);
      assert Joining(s, f, i, t, b, b0, e0, e);
      hide Joining, Touches;
      Extended(s, f, i, t, b, b0, e0, e);
      Join(f, t, b, e);
      return Success;
    }

    /** The entries from place f to t are dropped, and the interval is set. */
    method Join(f: nat, t: nat, b: nat, e: nat)
      requires Valid() && f <= t <= len && 0 < b < e
      requires var u := Elems()[..f] + Elems()[t..]; Ascending(u) && Positive(u) && Clear(u, b, e)
      modifies this, list
      ensures Valid() && list == old(list) && begin == b && end == e
      ensures Elems() == old(Elems()[..f] + Elems()[t..])
    {
      hide Ascending, Positive, Clear;
      Take(f, t);
      begin, end := b, e;
    }

    /** The entries in front of place i that join the interval. */
    method GrowDown(i: nat, b0: nat, e0: nat, id: nat) returns (dup: bool, f: nat, b: nat)
      requires Valid() && Touches(begin, end, b0, e0, id) && id > 0 && i == Below(Elems(), id)
      ensures !dup && f <= i && b + (i - f) == b0 && b > 0
      ensures i <= |Elems()| && forall k :: f <= k < i ==> Elems()[k] == b + (k - f)
      ensures f > 0 ==> Elems()[f - 1] + 1 < b
    {
      ghost var s := Elems();
      assert forall i :: 0 <= i < |s| ==> list[i] == s[i];
      dup, f, b := false, i, b0;
      while f > 0 && list[f - 1] + 1 >= b
        invariant 0 <= f <= i && b + (i - f) == b0 && b > 0
        invariant forall k :: f <= k < i ==> s[k] == b + (k - f)
      {
        assert f < i ==> s[f - 1] < s[f];
        f, b := f - 1, b - 1;
        if list[f] != b { return true, f, b; }
      }
    }

    /** The entries from place i on that join the interval. */
    method GrowUp(i: nat, b0: nat, e0: nat, id: nat) returns (dup: bool, t: nat, e: nat)
      requires Valid() && Touches(begin, end, b0, e0, id) && i == Below(Elems(), id)
      ensures dup <==> begin >= end && id in Elems()
      ensures !dup ==> i <= t <= len && e == e0 + (t - i) && (t < len ==> Elems()[t] > e)
      ensures !dup ==> forall k :: i <= k < t ==> Elems()[k] == e0 + (k - i)
    {
      ghost var s := Elems();
      assert forall i :: 0 <= i < |s| ==> list[i] == s[i];
      MemberIffAt(s, id);
      dup, t, e := false, i, e0;
      while t < len && list[t] <= e
        invariant i <= t <= len && e == e0 + (t - i)
        invariant t > i ==> !(begin >= end && id in s)
        invariant forall k :: i <= k < t ==> s[k] == e0 + (k - i)
      {
        assert t > i ==> s[t - 1] < s[t];
        if list[t] != e { return true, t, e; }
        e, t := e + 1, t + 1;
      }
    }

    /** Cut the entries [f, t) out of the list. */
    method Take(f: nat, t: nat)
      requires f <= t <= len <= list.Length
      modifies this`len, list
      ensures len <= list.Length && Elems() == old(Elems()[..f] + Elems()[t..])
    {
      ghost var s := Elems();
      assert forall i :: 0 <= i < |s| ==> list[i] == s[i];
      if f < t {
        CopyDown(f, t, len - t);
        len := len - (t - f);
      }
      ghost var u := s[..f] + s[t..];
      assert forall i :: 0 <= i < |u| ==> list[i] == u[i];
    }

    /**
     * The insertion in rkl_push(), from the end to the front, moving entries on the way. Where the number
     * turns up, the entries above it are to be moved back, but the loop stops one short.
     */
    method InsertSorted(id: nat) returns (i: nat, dup: bool)
      requires Valid() && len < list.Length
      modifies this`len, list
      ensures len <= list.Length && (dup <==> id in old(Elems())) && len == old(len) + if dup then 0 else 1
      ensures dup ==> Elems() == Spoilt(old(Elems()), id)
      ensures !dup ==> i == Below(old(Elems()), id) && Elems() == Insert(old(Elems()), i, id)
    {
      ghost var s := Elems();
      MemberIffAt(s, id);
      i := MakeRoom(id);
      if i > 0 && id == list[i - 1] {
        PlaceOf(s, id, i - 1);
        hide Below, Ascending;
        Unshift(i, id, s);
        return i, true;
      }
      PlaceOf(s, id, i);
      hide Below, Ascending;
      PutAt(i, id, s);
      dup := false;
    }

    method PutAt(i: nat, id: nat, ghost s: seq<nat>)
      requires i <= len == |s| < list.Length
      requires forall k :: 0 <= k < i ==> list[k] == s[k]
      requires forall k :: i < k <= |s| ==> list[k] == s[k - 1]
      modifies this`len, list
      ensures len == |s| + 1 && Elems() == Insert(s, i, id)
    {
      list[i] := id;
      len := len + 1;
      assert list[..len] == Insert(s, i, id);
    }

    /** Move the entries above the number by one; the gap is at i, and what was there is still there. */
    method MakeRoom(id: nat) returns (i: nat)
      requires Valid() && len < list.Length
      modifies list
      ensures var s := old(Elems());
              && i <= |s| && (i > 0 ==> s[i - 1] <= id && list[i - 1] == s[i - 1])
              && (forall k :: i <= k < |s| ==> s[k] > id)
              && (forall k :: 0 <= k < |s| && k <= i ==> list[k] == s[k])
              && (forall k :: i < k <= |s| ==> list[k] == s[k - 1])
    {
      ghost var s := Elems();
      assert forall k :: 0 <= k < |s| ==> list[k] == s[k];
      hide Ascending, Clear, Positive;
      i := len;
      while i > 0 && id < list[i - 1]
        invariant 0 <= i <= len == |s|
        invariant forall k :: 0 <= k < |s| && k <= i ==> list[k] == s[k]
        invariant forall k :: i < k <= |s| ==> list[k] == s[k - 1]
        invariant forall k :: i <= k < |s| ==> s[k] > id
      {
        list[i] := list[i - 1];
        i := i - 1;
      }
    }

    method Unshift(i: nat, id: nat, ghost s: seq<nat>)
      requires 0 < i <= len == |s| < list.Length && Below(s, id) == i - 1
      requires forall k :: 0 <= k < |s| && k <= i ==> list[k] == s[k]
      requires forall k :: i < k <= |s| ==> list[k] == s[k - 1]
      modifies list
      ensures Elems() == Spoilt(s, id)
    {
      hide Below;
      MoveBack(i, s);
      assert list[..len] == Spoilt(s, id);
    }

    method MoveBack(i0: nat, ghost s: seq<nat>)
      requires 0 < i0 <= len == |s| < list.Length
      requires forall k :: 0 <= k < |s| && k <= i0 ==> list[k] == s[k]
      requires forall k :: i0 < k <= |s| ==> list[k] == s[k - 1]
      modifies list
      ensures forall k :: 0 <= k < |s| ==> list[k] == s[if k == |s| - 1 && i0 + 2 <= |s| then k - 1 else k]
    {
      var i := i0 + 1;
      while i < len
        invariant i0 + 1 <= i && (i <= len || i == i0 + 1)
        invariant forall k :: 0 <= k < |s| && (k < i - 1 || k == i0) ==> list[k] == s[k]
        invariant forall k :: i - 1 < k < |s| && k > i0 ==> list[k] == s[k - 1]
        invariant i > i0 + 1 && i - 1 < |s| ==> list[i - 1] == s[i - 2]
      {
        list[i - 1] := list[i];
        i := i + 1;
      }
    }

    /**
     * The exchange in rkl_push(): a run of the list becomes the interval and the interval goes into the
     * list. The run is longer, so what has to move towards the end finds room in its place.
     */
    method Exchange(from0: nat, to0: nat, nb: nat, ne: nat)
      requires Valid() && begin < end && IsRun(Elems(), from0, to0, nb, ne) && end - begin < to0 - from0
      modifies this, list
      ensures Valid() && list == old(list)
      ensures forall x: nat :: Has(x) <==> old(Has(x))
    {
      hide Ascending, Clear, Positive, In, Below, IsRun, Exchanged, Rest;
      ghost var s, b, e := Elems(), begin, end;
      assert from0 < to0 <= |s| by { RunInside(s, from0, to0, nb, ne); }
      PlaceInRest(s, from0, to0, b, e, nb, ne);
      ExchangeKeeps(s, from0, to0, b, e, nb, ne);
      ExchangeClear(s, from0, to0, b, e, nb, ne);
      var oldPos := Search(begin);
      MoveAll(from0, to0, oldPos);
      begin, end := nb, ne;
    }

    method MoveAll(from0: nat, to0: nat, oldPos: nat)
      requires Valid() && begin < end && from0 < to0 <= len && end - begin < to0 - from0
      requires oldPos <= from0 || to0 <= oldPos <= len
      requires Below(Rest(Elems(), from0, to0), begin) == if oldPos <= from0 then oldPos else oldPos - (to0 - from0)
      modifies this`len, list
      ensures len <= list.Length && Elems() == Exchanged(old(Elems()), from0, to0, begin, end)
    {
      ghost var u := Rest(Elems(), from0, to0);
      hide Ascending, Clear, Positive, Rest, Below, Put;
      Move(from0, to0, oldPos);
      PutIs(u, begin, end, list[..len]);
    }

    method Move(from0: nat, to0: nat, oldPos: nat)
      requires Valid() && begin < end && from0 < to0 <= len && end - begin < to0 - from0
      requires oldPos <= from0 || to0 <= oldPos <= len
      modifies this`len, list
      ensures var u, n := Rest(old(Elems()), from0, to0), end - begin;
              var p := if oldPos <= from0 then oldPos else oldPos - (to0 - from0);
              && len == |u| + n <= list.Length
              && (forall k :: 0 <= k < p ==> list[k] == u[k])
              && (forall k :: p <= k < p + n ==> list[k] == begin + (k - p))
              && (forall k :: p + n <= k < len ==> list[k] == u[k - n])
    {
      hide Ascending, Clear, Positive, Rest;
      ghost var u := Rest(Elems(), from0, to0);
      var from, to, moved := MakeGap(oldPos, from0, to0);
      FillGap(from, to, moved, u);
      len := len - (to0 - from0) + (end - begin);
    }

    lemma ElemsAre()
      requires Valid()
      ensures len <= list.Length && Elems() == list[..len]
    {
    }

    /** The entries between the place of the interval and the run move up. */
    method GapUp(at: nat, from: nat, to: nat)
      requires Valid() && begin < end && at < from < to <= len && end - begin < to - from
      modifies list
      ensures var s, n := old(Elems()), end - begin;
              var u := Rest(s, from, to);
              && (forall k :: 0 <= k < at ==> list[k] == u[k])
              && (forall k :: at + n <= k < from + n ==> list[k] == u[k - n])
              && (forall k :: to <= k < len ==> list[k] == u[k - to + from])
    {
      ghost var s := list[..len];
      hide Rest, Ascending, Positive, Clear;
      assert forall k :: 0 <= k < len ==> list[k] == s[k];
      CopyUp(at, from, end - begin);
      ghost var v := list[..];
      assert forall k :: 0 <= k < len ==> list[k] == v[k];
      GapMovedUp(s, v, at, from, to, end - begin);
    }

    /** The entries between the run and the place of the interval move down. */
    method GapDown(at: nat, from: nat, to: nat)
      requires Valid() && from < to < at <= len
      modifies list
      ensures var s := old(Elems());
              var u := Rest(s, from, to);
              && (forall k :: 0 <= k < at - (to - from) ==> list[k] == u[k])
              && (forall k :: at <= k < len ==> list[k] == u[k - (to - from)])
    {
      ghost var s := list[..len];
      hide Rest, Ascending, Positive, Clear;
      assert forall k :: 0 <= k < len ==> list[k] == s[k];
      CopyDown(from, to, at - (to - from) - from);
      ghost var v := list[..];
      assert forall k :: 0 <= k < len ==> list[k] == v[k];
      GapMovedDown(s, v, at, from, to);
    }

    /**
     * Make the gap for the interval, at `from`: either entries in front of the run move up by the interval's
     * length, `moved` of them, or entries behind the run move into its place. The rest begins at `to`.
     */
    method MakeGap(oldPos: nat, from0: nat, to0: nat) returns (from: nat, to: nat, moved: nat)
      requires Valid() && begin < end && from0 < to0 <= len && end - begin < to0 - from0
      requires oldPos <= from0 || to0 <= oldPos <= len
      modifies list
      ensures var s := old(Elems());
              var u, n := Rest(s, from0, to0), end - begin;
              && from == (if oldPos <= from0 then oldPos else oldPos - (to0 - from0))
              && to <= len && moved + from == to - (to0 - from0)
              && (forall k :: 0 <= k < from ==> list[k] == u[k])
              && (forall k :: from + n <= k < moved + from + n ==> list[k] == u[k - n])
              && (forall k :: to <= k < len ==> list[k] == u[k - to + (moved + from)])
    {
      hide Valid, Elems, Rest;
      var gone := to0 - from0;
      if from0 > oldPos {
        GapUp(oldPos, from0, to0);
        return oldPos, to0, from0 - oldPos;
      }
      if from0 + gone < oldPos {
        GapDown(oldPos, from0, to0);
        return oldPos - gone, oldPos, 0;
      }
      ElemsAre();
      GapInPlace(Elems(), list[..len], from0, to0);
      return from0, to0, 0;
    }

    /** Put the interval into the gap and close up behind it. */
    method FillGap(from: nat, to: nat, moved: nat, ghost u: seq<nat>)
      requires begin < end && to <= len <= list.Length
      requires moved + from + (end - begin) <= to && |u| == moved + from + (len - to)
      requires forall k :: 0 <= k < from ==> list[k] == u[k]
      requires forall k :: from + (end - begin) <= k < moved + from + (end - begin) ==> list[k] == u[k - (end - begin)]
      requires forall k :: to <= k < len ==> list[k] == u[k - to + (moved + from)]
      modifies list
      ensures forall k :: 0 <= k < from ==> list[k] == u[k]
      ensures forall k :: from <= k < from + (end - begin) ==> list[k] == begin + (k - from)
      ensures forall k :: from + (end - begin) <= k < |u| + (end - begin) ==> list[k] == u[k - (end - begin)]
    {
      FillSolid(from);
      CopyDown(moved + from + (end - begin), to, len - to);
    }

    method FillSolid(from: nat)
      requires begin < end && from + (end - begin) <= list.Length
      modifies list
      ensures forall k :: from <= k < from + (end - begin) ==> list[k] == begin + (k - from)
      ensures forall k :: 0 <= k < from || from + (end - begin) <= k < list.Length ==> list[k] == old(list[k])
    {
      for i := 0 to end - begin
        invariant forall k :: from <= k < from + i ==> list[k] == begin + (k - from)
        invariant forall k :: 0 <= k < from || from + i <= k < list.Length ==> list[k] == old(list[k])
      {
        list[from + i] := begin + i;
      }
    }

    /** The run through the entry just added, and whether exchanging it pays off. */
    method Rebalance(id: nat, i: nat)
      requires Valid() && begin < end && i < len && list[i] == id
      modifies this, list
      ensures Valid() && list == old(list)
      ensures forall x: nat :: Has(x) <==> old(Has(x))
    {
      var from, to, nb, ne := FindRun(id, i);
      var newLen := to - from;
      if newLen > 3 {
        var oldLen := end - begin;
        if newLen > oldLen {
          var oldPos := Search(begin);
          var swapCost := len - to + (if from > oldPos then from - oldPos else 0) + oldLen;
          if swapCost < len - i { Exchange(from, to, nb, ne); }
        }
      }
    }

    method FindRun(id: nat, i: nat) returns (from: nat, to: nat, nb: nat, ne: nat)
      requires Valid() && i < len && list[i] == id
      ensures IsRun(Elems(), from, to, nb, ne) && from <= i < to
    {
      ghost var s := Elems();
      assert forall k :: 0 <= k < |s| ==> list[k] == s[k];
      hide Clear;
      from, nb := i, id;
      while from > 0 && list[from - 1] + 1 == nb
        invariant 0 <= from <= i && nb + (i - from) == id
        invariant forall k :: from <= k <= i ==> s[k] == nb + (k - from)
      {
        from, nb := from - 1, nb - 1;
      }
      assert from > 0 ==> s[from - 1] < s[from];
      to, ne := i + 1, id + 1;
      while to < len && list[to] == ne
        invariant i < to <= len && ne == nb + (to - from)
        invariant forall k :: from <= k < to ==> s[k] == nb + (k - from)
      {
        to, ne := to + 1, ne + 1;
      }
      assert to < |s| ==> s[to - 1] < s[to];
    }

    /** rkl_resize() for a longer list. */
    method Resize(wanna: nat, memory: Malloc) returns (rc: Rc)
      requires Valid() && wanna > list.Length
      modifies this`list
      ensures Valid() && Elems() == old(Elems())
      ensures rc == Success ==> list.Length >= wanna && fresh(list)
      ensures rc != Success ==> list == old(list)
      ensures rc == TxnFull <==> wanna > TXL_MAX
      ensures rc == NoMem ==> memory == NoMemory
      ensures rc != Duplicate
    {
      if wanna > TXL_MAX { return TxnFull; }
      if memory == NoMemory { return NoMem; }
      var bigger := new nat[wanna + memory.extra];
      forall k | 0 <= k < len { bigger[k] := list[k]; }
      assert bigger[..len] == list[..len];
      list := bigger;
      return Success;
    }

    /** One number in the list, one in the interval, and the new one next to the former: they change places. */
    method SwapSingle(id: nat)
      requires Valid() && len == 1 && end == begin + 1 && id > 0 && (list[0] == id + 1 || list[0] + 1 == id)
      requires id + 1 < begin || id > end
      modifies this, list
      ensures Valid() && list == old(list) && !old(Has(id))
      ensures forall x: nat :: Has(x) <==> old(Has(x)) || x == id
    {
      assert Elems() == [list[0]];
      var couple := if list[0] + 1 == id then id - 1 else id;
      list[0] := begin;
      begin := couple;
      end := couple + 2;
      assert Elems() == [list[0]];
    }

    method NeedRoom(memory: Malloc) returns (rc: Rc)
      requires Valid()
      modifies this`list
      ensures Valid() && Elems() == old(Elems())
      ensures rc == Success ==> len < list.Length && (list == old(list) || fresh(list))
      ensures rc != Success ==> list == old(list)
      ensures rc == TxnFull ==> len >= TXL_MAX
      ensures rc == NoMem ==> memory == NoMemory
      ensures rc != Duplicate
    {
      rc := Success;
      if len == list.Length {
        var x2 := (list.Length + 1) * 2;
        x2 := if x2 > 62 then x2 else 62;
        x2 := if x2 < TXL_MAX then x2 else TXL_MAX;
        x2 := if x2 > len then x2 else len + 42;
        rc := Resize(x2, memory);
      }
    }

    /** The number goes into the list; a full buffer is doubled first. */
    method PushToList(id: nat, memory: Malloc) returns (rc: Rc)
      requires Valid() && begin < end && id > 0 && (id + 1 < begin || id > end)
      modifies this, list
      ensures rc == Success ==> Valid() && !old(Has(id)) && forall x: nat :: Has(x) <==> old(Has(x)) || x == id
      ensures rc == Duplicate ==>
                && old(id in Elems()) && begin == old(begin) && end == old(end) && len == old(len)
                && Elems() == Spoilt(old(Elems()), id)
      ensures rc == TxnFull || rc == NoMem ==>
                list == old(list) && Elems() == old(Elems()) && begin == old(begin) && end == old(end)
      ensures rc == TxnFull ==> old(len) >= TXL_MAX
      ensures rc == NoMem ==> memory == NoMemory
    {
      hide Ascending, Positive, Clear, In, Below, Spoilt;
      rc := NeedRoom(memory);
      if rc != Success { return; }
      ghost var s := Elems();
      var i, dup := InsertSorted(id);
      if dup { return Duplicate; }
      InsertKeeps(s, begin, end, id);
      NotIn(s, begin, end, id);
      assert list[i] == Insert(s, i, id)[i];
      if len > 16 && ((i > 0 && list[i - 1] + 1 == id) || (i + 1 < len && list[i + 1] == id + 1)) { Rebalance(id, i); }
      return Success;
    }

    /** rkl_push() */
    method Push(id: nat, memory: Malloc) returns (rc: Rc)
      requires Valid() && 0 < id < INVALID_TXNID
      modifies this, list
      ensures rc == Success ==> Valid() && !old(Has(id)) && forall x: nat :: Has(x) <==> old(Has(x)) || x == id
      ensures rc == Duplicate ==>
                && old(Has(id)) && begin == old(begin) && end == old(end) && len == old(len)
                && Elems() == if old(begin < end && id in Elems()) then Spoilt(old(Elems()), id) else old(Elems())
      ensures rc == TxnFull || rc == NoMem ==>
                list == old(list) && Elems() == old(Elems()) && begin == old(begin) && end == old(end)
      ensures rc == TxnFull ==> old(len) >= TXL_MAX
      ensures rc == NoMem ==> memory == NoMemory
    {
      if begin >= end {
        rc := ExtendSolid(id, id + 1, id);
        return;
      } else if id < begin {
        if id + 1 == begin {
          rc := ExtendSolid(id, end, id);
          return;
        }
      } else if id >= end {
        if id == end {
          rc := ExtendSolid(begin, id + 1, id);
          return;
        }
      } else {
        return Duplicate;
      }
      if len == 1 && end == begin + 1 && (list[0] == id + 1 || list[0] + 1 == id) {
        SwapSingle(id);
        return Success;
      }
      rc := PushToList(id, memory);
    }
  }
}
