/**
  FAQ accordion.

  Every `.faq-item` on the page carries an `active` presentation flag. A click
  on the question of item `i` reads that item's flag, removes the flag from
  every other item, and then toggles item `i` according to the flag it read.
  Items are identified by their position in document order.
 */
module Faq {

  /** The number of items whose `active` flag is set. */
  function OpenCount(flags: seq<bool>): nat {
    if flags == [] then 0 else (if flags[0] then 1 else 0) + OpenCount(flags[1..])
  }

  /** Any two open items are the same item. */
  ghost predicate AtMostOneOpen(flags: seq<bool>) {
    forall j, k :: 0 <= j < |flags| && 0 <= k < |flags| && flags[j] && flags[k] ==> j == k
  }

  /** The flags after a click on item `i`: every other item is closed and item
      `i` holds the negation of the flag it had before the click. */
  function AfterClick(flags: seq<bool>, i: nat): (r: seq<bool>)
    requires i < |flags|
  {
    seq(|flags|, j requires 0 <= j < |flags| => if j == i then !flags[i] else false)
  }

  /** No item is open exactly when the count of open items is zero. */
  lemma {:induction false} OpenCountZero(flags: seq<bool>)
    ensures OpenCount(flags) == 0 <==> forall j :: 0 <= j < |flags| ==> !flags[j]
  {
    if flags != [] {
      var tail := flags[1..];
      OpenCountZero(tail);
      assert forall j :: 1 <= j < |flags| ==> flags[j] == tail[j - 1];
    }
  }

  /** The count of open items and the pairwise statement "at most one item is
      open" agree, in both directions. */
  lemma {:induction false} AtMostOneOpenIff(flags: seq<bool>)
    ensures OpenCount(flags) <= 1 <==> AtMostOneOpen(flags)
  {
    if flags != [] {
      var tail := flags[1..];
      AtMostOneOpenIff(tail);
      OpenCountZero(tail);
      assert forall j :: 1 <= j < |flags| ==> flags[j] == tail[j - 1];
      if flags[0] {
        if OpenCount(flags) <= 1 {
          assert forall j :: 1 <= j < |flags| ==> !flags[j];
        } else {
          var k :| 0 <= k < |tail| && tail[k];
          assert flags[0] && flags[k + 1];
        }
      } else {
        if AtMostOneOpen(tail) {
          forall j, k | 0 <= j < |flags| && 0 <= k < |flags| && flags[j] && flags[k]
            ensures j == k
          {
            assert tail[j - 1] && tail[k - 1];
          }
        } else {
          var j, k :| 0 <= j < |tail| && 0 <= k < |tail| && tail[j] && tail[k] && j != k;
          assert flags[j + 1] && flags[k + 1];
        }
      }
    }
  }

  /** When every item other than `i` is closed, the count of open items is the
      flag of item `i`. */
  lemma {:induction false} OpenCountOnlyAt(flags: seq<bool>, i: nat)
    requires i < |flags|
    requires forall j :: 0 <= j < |flags| && j != i ==> !flags[j]
    ensures OpenCount(flags) == if flags[i] then 1 else 0
  {
    var tail := flags[1..];
    assert forall j :: 1 <= j < |flags| ==> flags[j] == tail[j - 1];
    if i == 0 {
      OpenCountZero(tail);
    } else {
      OpenCountOnlyAt(tail, i - 1);
    }
  }

  /** After any click, whatever the prior state: clicking a closed item leaves
      exactly one item open, and clicking the open item leaves none open. */
  lemma ClickLeavesAtMostOneOpen(flags: seq<bool>, i: nat)
    requires i < |flags|
    ensures OpenCount(AfterClick(flags, i)) == if flags[i] then 0 else 1
    ensures AtMostOneOpen(AfterClick(flags, i))
  {
    OpenCountOnlyAt(AfterClick(flags, i), i);
    AtMostOneOpenIff(AfterClick(flags, i));
  }

  /** The accordion: one `active` flag per FAQ item, in document order. */
  class Accordion {
    const items: array<bool>

    constructor (initial: seq<bool>)
      ensures fresh(items) && items[..] == initial
    {
      items := new bool[|initial|](j requires 0 <= j < |initial| => initial[j]);
    }

    /** The click handler of item `i`'s question. */
    method Click(i: nat)
      requires i < items.Length
      modifies items
      ensures items[..] == AfterClick(old(items[..]), i)
      ensures items[i] == !old(items[i])
      ensures forall j :: 0 <= j < items.Length && j != i ==> !items[j]
      ensures OpenCount(items[..]) == if old(items[i]) then 0 else 1
      ensures AtMostOneOpen(items[..])
    {
      var isActive := items[i];
      var k := 0;
      while k < items.Length
        invariant 0 <= k <= items.Length
        invariant forall j :: 0 <= j < k && j != i ==> !items[j]
        invariant forall j :: k <= j < items.Length ==> items[j] == old(items[j])
        invariant items[i] == old(items[i])
      {
        if k != i {
          items[k] := false;
        }
        k := k + 1;
      }
      if isActive {
        items[i] := false;
      } else {
        items[i] := true;
      }
      assert items[..] == AfterClick(old(items[..]), i);
      ClickLeavesAtMostOneOpen(old(items[..]), i);
    }
  }
}
