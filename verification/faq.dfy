/** The FAQ accordion of `initFAQ`: the page state is the set of items whose
    answer is open, and a click on an item's question is a transition. */
module Faq {

  /** An FAQ item, identified by its position on the page. */
  type Item = nat

  /** A click on the question of `clicked`: every item is closed, then the
      clicked item is opened if it was closed before the click. */
  function Click(open: set<Item>, clicked: Item): (r: set<Item>)
    ensures |r| <= 1
    ensures forall i | i in r :: i == clicked
    ensures clicked in r <==> clicked !in open
  {
    if clicked in open then {} else {clicked}
  }

  /** The state after a sequence of clicks, first click first. */
  function Run(open: set<Item>, clicks: seq<Item>): set<Item>
    decreases |clicks|
  {
    if clicks == [] then open else Run(Click(open, clicks[0]), clicks[1..])
  }

  /** Clicking an open item closes every item. */
  lemma ClickOpenClosesAll(open: set<Item>, clicked: Item)
    requires clicked in open
    ensures Click(open, clicked) == {}
  {
  }

  /** Clicking a closed item leaves it as the only open item. */
  lemma ClickClosedOpensOnlyIt(open: set<Item>, clicked: Item)
    requires clicked !in open
    ensures Click(open, clicked) == {clicked}
  {
  }

  /** After at least one click, at most one item is open, and the open item,
      if any, is the one clicked last. */
  lemma {:induction false} RunOpensOnlyLastClicked(open: set<Item>, clicks: seq<Item>)
    requires clicks != []
    ensures |Run(open, clicks)| <= 1
    ensures forall i | i in Run(open, clicks) :: i == clicks[|clicks| - 1]
    decreases |clicks|
  {
    if |clicks| > 1 {
      RunOpensOnlyLastClicked(Click(open, clicks[0]), clicks[1..]);
    }
  }

  /** Clicks stay within the page's items: starting from open items of the
      page and clicking only the page's items never opens anything else. */
  lemma {:induction false} RunStaysWithin(items: set<Item>, open: set<Item>, clicks: seq<Item>)
    requires open <= items
    requires forall k | 0 <= k < |clicks| :: clicks[k] in items
    ensures Run(open, clicks) <= items
    decreases |clicks|
  {
    if clicks != [] {
      RunStaysWithin(items, Click(open, clicks[0]), clicks[1..]);
    }
  }

  /** Clicking the same question `n` times from an all-closed accordion
      leaves its item open exactly when `n` is odd. */
  lemma {:induction false} RepeatedClicks(item: Item, n: nat)
    ensures Run({}, seq(n, _ => item)) == if n % 2 == 1 then {item} else {}
  {
    if n >= 2 {
      var clicks := seq(n, _ => item);
      assert clicks[0] == item && clicks[1..][0] == item;
      assert clicks[1..][1..] == seq(n - 2, _ => item);
      RepeatedClicks(item, n - 2);
    } else if n == 1 {
      assert seq(1, _ => item)[1..] == [];
    }
  }
}
