/** The three meta pages: which is the head, which the last steady point, which may be overwritten. */
module Troika {

  /** What counts about a meta page; a torn or purged one has transaction 0 and is not steady. */
  datatype Meta = Meta(txn: nat, steady: bool)

  const NUM_METAS: nat := 3

  /** meta_cmp2int() with scale 1 */
  function Cmp(a: nat, b: nat): (c: nat)
    ensures c < 3
  {
    if a == b then 1 else if a > b then 2 else 0
  }

  /** meta_cmp2recent() */
  predicate CmpRecent(c: nat, a: bool, b: bool) { c > 1 || (c == 1 && a && !b) }

  /** meta_cmp2steady() */
  predicate CmpSteady(c: nat, a: bool, b: bool) { (a && !b) || (a == b && c > 1) }

  /** meta_cmp2pack(): the choice by comparison. */
  function Recent(c01: nat, c02: nat, c12: nat, s0: bool, s1: bool, s2: bool): (r: nat)
    ensures r < 3
  {
    if CmpRecent(c01, s0, s1) then (if CmpRecent(c02, s0, s2) then 0 else 2)
    else if CmpRecent(c12, s1, s2) then 1 else 2
  }

  function PreferSteady(c01: nat, c02: nat, c12: nat, s0: bool, s1: bool, s2: bool): (r: nat)
    ensures r < 3
  {
    if CmpSteady(c01, s0, s1) then (if CmpSteady(c02, s0, s2) then 0 else 2)
    else if CmpSteady(c12, s1, s2) then 1 else 2
  }

  function Tail(c01: nat, c02: nat, c12: nat, s0: bool, s1: bool, s2: bool): (r: nat)
    ensures r < 3
  {
    var recent := Recent(c01, c02, c12, s0, s1, s2);
    if recent == 0 then (if CmpSteady(c12, s1, s2) then 2 else 1)
    else if recent == 1 then (if CmpSteady(c02, s0, s2) then 2 else 0)
    else if CmpSteady(c01, s0, s1) then 1 else 0
  }

  predicate Valid(c01: nat, c02: nat, c12: nat, s0: bool, s1: bool, s2: bool) {
    c01 != 1 || s0 != s1 || c02 != 1 || s0 != s2 || c12 != 1 || s1 != s2
  }

  predicate Strict(c01: nat, c02: nat, c12: nat, s0: bool, s1: bool, s2: bool) {
    (c01 != 1 || s0 != s1) && (c02 != 1 || s0 != s2) && (c12 != 1 || s1 != s2)
  }

  function Bit(b: bool): nat { if b then 1 else 0 }

  /** The packed byte: tail, head, steady point and two flags. */
  function Pack(c01: nat, c02: nat, c12: nat, s0: bool, s1: bool, s2: bool): nat {
    Tail(c01, c02, c12, s0, s1, s2) + 4 * Recent(c01, c02, c12, s0, s1, s2)
    + 16 * PreferSteady(c01, c02, c12, s0, s1, s2)
    + 64 * Bit(Strict(c01, c02, c12, s0, s1, s2)) + 128 * Bit(Valid(c01, c02, c12, s0, s1, s2))
  }

  /** troika_fsm_map[], one row for each outcome of comparing metas 0 and 2 (fastest) and metas 1 and 2. */
  const ROW0: seq<nat> := [
    232, 201, 216, 216, 232, 233, 232, 232, 168, 201, 216, 152,
    168, 233, 232, 168, 233, 201, 216, 201, 233, 233, 232, 233]
  const ROW1: seq<nat> := [
    168, 201, 152, 216, 232, 169, 232, 168, 168, 193, 152, 152,
    168, 169, 232, 168, 169, 193, 152, 194, 233, 169, 232, 169]
  const ROW2: seq<nat> := [
    232, 201, 216, 216, 232, 201, 232, 232, 168, 193, 216, 152,
    168, 193, 232, 168, 193, 193, 210, 194, 225, 193, 225, 193]
  const ROW3: seq<nat> := [
    168, 137, 212, 214, 232, 233, 168, 168, 168, 137, 212, 150,
    168, 233, 168, 168, 169, 137, 216, 201, 233, 233, 168, 169]
  const ROW4: seq<nat> := [
    168, 137, 148, 214, 232, 169, 168, 168, 40, 129, 148, 150,
    168, 169, 168, 40, 169, 129, 152, 194, 233, 169, 168, 169]
  const ROW5: seq<nat> := [
    168, 137, 214, 214, 232, 201, 168, 168, 168, 129, 214, 150,
    168, 193, 168, 168, 129, 129, 210, 194, 225, 193, 161, 129]
  const ROW6: seq<nat> := [
    212, 198, 212, 214, 228, 228, 212, 212, 148, 201, 212, 150,
    164, 233, 212, 148, 233, 201, 216, 201, 233, 233, 216, 233]
  const ROW7: seq<nat> := [
    148, 198, 148, 214, 228, 164, 212, 148, 148, 194, 148, 150,
    164, 169, 212, 148, 169, 194, 152, 194, 233, 169, 216, 169]
  const ROW8: seq<nat> := [
    214, 198, 214, 214, 228, 198, 212, 214, 150, 194, 214, 150,
    164, 193, 212, 150, 194, 194, 210, 194, 225, 193, 210, 194]

  const ROWS: seq<seq<nat>> := [ROW0, ROW1, ROW2, ROW3, ROW4, ROW5, ROW6, ROW7, ROW8]

  function Flat(rows: seq<seq<nat>>): seq<nat> {
    if rows == [] then [] else rows[0] + Flat(rows[1..])
  }

  const FSM: seq<nat> := Flat(ROWS)

  lemma {:induction false} FlatAt(rows: seq<seq<nat>>, g: nat, k: nat)
    requires g < |rows| && k < 24 && forall i :: 0 <= i < |rows| ==> |rows[i]| == 24
    ensures 24 * g + k < |Flat(rows)| && Flat(rows)[24 * g + k] == rows[g][k]
    decreases |rows|
  {
    if g > 0 {
      FlatAt(rows[1..], g - 1, k);
      assert Flat(rows)[24 * g + k] == Flat(rows[1..])[24 * (g - 1) + k];
    }
  }

  /** The index meta_tap_shadow() builds from the comparisons. */
  function Index(c01: nat, c02: nat, c12: nat, s0: bool, s1: bool, s2: bool): (i: nat)
    requires c01 < 3 && c02 < 3 && c12 < 3
    ensures i < 216
  {
    Bit(s0) + 2 * Bit(s1) + 4 * Bit(s2) + 8 * c01 + 24 * c02 + 72 * c12
  }

  lemma Row0(c01: nat, s0: bool, s1: bool, s2: bool)
    requires c01 < 3
    ensures ROW0[Index(c01, 0, 0, s0, s1, s2)] == Pack(c01, 0, 0, s0, s1, s2)
  {
  }

  lemma Row1(c01: nat, s0: bool, s1: bool, s2: bool)
    requires c01 < 3
    ensures ROW1[Index(c01, 0, 0, s0, s1, s2)] == Pack(c01, 1, 0, s0, s1, s2)
  {
  }

  lemma Row2(c01: nat, s0: bool, s1: bool, s2: bool)
    requires c01 < 3
    ensures ROW2[Index(c01, 0, 0, s0, s1, s2)] == Pack(c01, 2, 0, s0, s1, s2)
  {
  }

  lemma Row3(c01: nat, s0: bool, s1: bool, s2: bool)
    requires c01 < 3
    ensures ROW3[Index(c01, 0, 0, s0, s1, s2)] == Pack(c01, 0, 1, s0, s1, s2)
  {
  }

  lemma Row4(c01: nat, s0: bool, s1: bool, s2: bool)
    requires c01 < 3
    ensures ROW4[Index(c01, 0, 0, s0, s1, s2)] == Pack(c01, 1, 1, s0, s1, s2)
  {
  }

  lemma Row5(c01: nat, s0: bool, s1: bool, s2: bool)
    requires c01 < 3
    ensures ROW5[Index(c01, 0, 0, s0, s1, s2)] == Pack(c01, 2, 1, s0, s1, s2)
  {
  }

  lemma Row6(c01: nat, s0: bool, s1: bool, s2: bool)
    requires c01 < 3
    ensures ROW6[Index(c01, 0, 0, s0, s1, s2)] == Pack(c01, 0, 2, s0, s1, s2)
  {
  }

  lemma Row7(c01: nat, s0: bool, s1: bool, s2: bool)
    requires c01 < 3
    ensures ROW7[Index(c01, 0, 0, s0, s1, s2)] == Pack(c01, 1, 2, s0, s1, s2)
  {
  }

  lemma Row8(c01: nat, s0: bool, s1: bool, s2: bool)
    requires c01 < 3
    ensures ROW8[Index(c01, 0, 0, s0, s1, s2)] == Pack(c01, 2, 2, s0, s1, s2)
  {
  }

  /** The row for an outcome holds the choices for that outcome. */
  lemma RowIsPack(c01: nat, c02: nat, c12: nat, s0: bool, s1: bool, s2: bool)
    requires c01 < 3 && c02 < 3 && c12 < 3
    ensures ROWS[c02 + 3 * c12][Index(c01, 0, 0, s0, s1, s2)] == Pack(c01, c02, c12, s0, s1, s2)
  {
    if c12 == 0 {
      if c02 == 0 { Row0(c01, s0, s1, s2); } else if c02 == 1 { Row1(c01, s0, s1, s2); } else { Row2(c01, s0, s1, s2); }
    } else if c12 == 1 {
      if c02 == 0 { Row3(c01, s0, s1, s2); } else if c02 == 1 { Row4(c01, s0, s1, s2); } else { Row5(c01, s0, s1, s2); }
    } else {
      if c02 == 0 { Row6(c01, s0, s1, s2); } else if c02 == 1 { Row7(c01, s0, s1, s2); } else { Row8(c01, s0, s1, s2); }
    }
  }

  /** The table holds the choice by comparison, for every outcome of the comparisons. */
  lemma TableIsPack(c01: nat, c02: nat, c12: nat, s0: bool, s1: bool, s2: bool)
    requires c01 < 3 && c02 < 3 && c12 < 3
    ensures Index(c01, c02, c12, s0, s1, s2) < |FSM|
    ensures FSM[Index(c01, c02, c12, s0, s1, s2)] == Pack(c01, c02, c12, s0, s1, s2)
  {
    hide Pack, Flat;
    RowIsPack(c01, c02, c12, s0, s1, s2);
    FlatAt(ROWS, c02 + 3 * c12, Index(c01, 0, 0, s0, s1, s2));
  }

  lemma Unpack(tail: nat, recent: nat, prefer: nat, strict: nat, valid: nat)
    requires tail < 3 && recent < 3 && prefer < 3 && strict < 2 && valid < 2
    ensures var p := tail + 4 * recent + 16 * prefer + 64 * strict + 128 * valid;
            p % 4 == tail && (p / 4) % 4 == recent && (p / 16) % 4 == prefer
  {
  }

  lemma PackUnpacks(c01: nat, c02: nat, c12: nat, s0: bool, s1: bool, s2: bool)
    ensures var p := Pack(c01, c02, c12, s0, s1, s2);
            && p % 4 == Tail(c01, c02, c12, s0, s1, s2)
            && (p / 4) % 4 == Recent(c01, c02, c12, s0, s1, s2)
            && (p / 16) % 4 == PreferSteady(c01, c02, c12, s0, s1, s2)
  {
    hide Tail, Recent, PreferSteady;
    Unpack(Tail(c01, c02, c12, s0, s1, s2), Recent(c01, c02, c12, s0, s1, s2), PreferSteady(c01, c02, c12, s0, s1, s2),
           Bit(Strict(c01, c02, c12, s0, s1, s2)), Bit(Valid(c01, c02, c12, s0, s1, s2)));
  }

  // ---------------------------------------------------------------- three metas

  /** What meta_tap_shadow() unpacks from the table. */
  datatype Choice = Choice(recent: nat, preferSteady: nat, tail: nat)

  predicate Three(m: seq<Meta>) { |m| == 3 }

  /** The choice among three metas, by comparison. */
  function Tap(m: seq<Meta>): (c: Choice)
    requires Three(m)
    ensures c.recent < 3 && c.preferSteady < 3 && c.tail < 3
  {
    var c01, c02, c12 := Cmp(m[0].txn, m[1].txn), Cmp(m[0].txn, m[2].txn), Cmp(m[1].txn, m[2].txn);
    var s0, s1, s2 := m[0].steady, m[1].steady, m[2].steady;
    Choice(Recent(c01, c02, c12, s0, s1, s2), PreferSteady(c01, c02, c12, s0, s1, s2), Tail(c01, c02, c12, s0, s1, s2))
  }

  /** meta_tap_shadow(): the same choice, looked up in the table. */
  method TapShadow(m: seq<Meta>) returns (c: Choice)
    requires Three(m)
    ensures c == Tap(m)
  {
    hide FSM, Pack, Recent, PreferSteady, Tail;
    var fsm := Bit(m[0].steady);
    fsm := fsm + 2 * Bit(m[1].steady);
    fsm := fsm + 8 * Cmp(m[0].txn, m[1].txn);
    fsm := fsm + 4 * Bit(m[2].steady);
    fsm := fsm + 24 * Cmp(m[0].txn, m[2].txn);
    fsm := fsm + 72 * Cmp(m[1].txn, m[2].txn);
    ghost var c01, c02, c12 := Cmp(m[0].txn, m[1].txn), Cmp(m[0].txn, m[2].txn), Cmp(m[1].txn, m[2].txn);
    assert fsm == Index(c01, c02, c12, m[0].steady, m[1].steady, m[2].steady);
    TableIsPack(c01, c02, c12, m[0].steady, m[1].steady, m[2].steady);
    PackUnpacks(c01, c02, c12, m[0].steady, m[1].steady, m[2].steady);
    var packed := FSM[fsm];
    c := Choice((packed / 4) % 4, (packed / 16) % 4, packed % 4);
  }

  /** a is newer than b, or equally new and steadier. */
  predicate Newer(a: Meta, b: Meta) { a.txn > b.txn || (a.txn == b.txn && a.steady && !b.steady) }

  /** a is steadier than b, or equally steady and newer. */
  predicate Steadier(a: Meta, b: Meta) { (a.steady && !b.steady) || (a.steady == b.steady && a.txn > b.txn) }

  /**
   * The choice means what its users need, whatever the three metas hold: no meta is newer than
   * the head, none is steadier than the steady point, and the tail is neither of the two.
   */
  lemma TapIsSound(m: seq<Meta>)
    requires Three(m)
    ensures var c := Tap(m);
            && (forall j :: 0 <= j < 3 ==> !Newer(m[j], m[c.recent]))
            && (forall j :: 0 <= j < 3 ==> !Steadier(m[j], m[c.preferSteady]))
            && c.tail != c.recent && c.tail != c.preferSteady
  {
  }
}
