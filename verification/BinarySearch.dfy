/** SEARCH_IMPL: the binary search shared by the page and transaction lists, in its form without branches. */
module BinarySearch {

  /** The order of a list: page lists descend, transaction lists ascend. */
  datatype Order = Ascending | Descending

  predicate Before(order: Order, x: nat, item: nat) { if order.Ascending? then x < item else x > item }

  /** The length elements from `from` on are split at goal: all before the item, then none. */
  ghost predicate SplitAt(a: array<nat>, from: nat, length: nat, order: Order, item: nat, goal: nat)
    reads a
  {
    && from <= goal <= from + length <= a.Length
    && (forall i :: from <= i < goal ==> Before(order, a[i], item))
    && (forall i :: goal <= i < from + length ==> !Before(order, a[i], item))
  }

  /**
   * The place of the first element that is not before the item. The element behind the list may be read,
   * but what it holds does not matter.
   */
  method Bsearch(a: array<nat>, from: nat, length: nat, order: Order, item: nat, ghost goal: nat)
    returns (it: nat)
    requires SplitAt(a, from, length, order, item, goal) && from < a.Length
    ensures it == goal
  {
    it := from;
    var left := length;
    var first := true;
    while first || left > 2
      invariant from <= it <= goal <= it + left <= from + length
      invariant !first || (it == from && left == length)
      decreases first, left
    {
      first := false;
      var middle := it + left / 2;
      left := (left + 1) / 2;
      if Before(order, a[middle], item) { it := middle; }
    }
    if left > 1 && Before(order, a[it], item) { it := it + 1; }
    if left > 0 && Before(order, a[it], item) { it := it + 1; }
  }

  /** The other form, with branches, for processors without conditional moves. */
  method BsearchBranching(a: array<nat>, from: nat, length: nat, order: Order, item: nat, ghost goal: nat)
    returns (it: nat)
    requires SplitAt(a, from, length, order, item, goal)
    ensures it == goal
  {
    it := from;
    var left := length;
    while left > 2
      invariant from <= it <= goal <= it + left <= from + length
    {
      var middle := it + left / 2;
      left := (left + 1) / 2;
      if Before(order, a[middle], item) { it, left := middle + 1, left - 1; }
    }
    if left > 1 && Before(order, a[it], item) { it := it + 1; }
    if left > 0 && Before(order, a[it], item) { it := it + 1; }
  }
}
