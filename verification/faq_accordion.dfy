/** The FAQ accordion: one `active` flag per FAQ item; a click on an item's
    question closes every item and then reopens the clicked one if it had
    been closed. */
module FaqAccordion {

  import opened Wrappers
  import opened Flags

  /** A click on the question of item `i`. */
  function Click(open: seq<bool>, i: nat): (r: seq<bool>)
    requires i < |open|
    ensures |r| == |open|
    ensures forall j :: 0 <= j < |r| && j != i ==> !r[j]
    ensures r[i] == !open[i]
  {
    var wasOpen := open[i];
    var closed := seq(|open|, _ => false);
    if !wasOpen then closed[i := true] else closed
  }

  /** Whatever the state before, at most one item is open after a click. */
  lemma ClickKeepsAtMostOneOpen(open: seq<bool>, i: nat)
    requires i < |open|
    ensures CountTrue(Click(open, i)) <= 1
  {
    AtMostOneIffCount(Click(open, i));
  }

  /** From a state in which no item other than `i` is open, a second click on
      `i` undoes the first; in particular from the all-closed state two clicks
      leave every item closed. */
  lemma ClickTwiceRestores(open: seq<bool>, i: nat)
    requires i < |open|
    requires forall j :: 0 <= j < |open| && j != i ==> !open[j]
    ensures Click(Click(open, i), i) == open
  {
    var r := Click(Click(open, i), i);
    assert forall j :: 0 <= j < |open| ==> r[j] == open[j];
  }

  /** The first open item, if any. */
  function FirstOpen(open: seq<bool>): (r: Option<nat>)
    ensures r.None? <==> NoneTrue(open)
    ensures r.Some? ==> r.value < |open| && open[r.value] && forall j :: 0 <= j < r.value ==> !open[j]
  {
    if open == [] then None
    else if open[0] then Some(0)
    else
      match FirstOpen(open[1..])
      case None => None
      case Some(k) =>
        assert open[k + 1] == open[1..][k];
        Some(k + 1)
  }

  /** Seen as "which item is open", a click on `i` closes `i` when it was the
      open one and otherwise makes `i` the open one. */
  lemma ClickAsOpenIndex(open: seq<bool>, i: nat)
    requires i < |open| && AtMostOne(open)
    ensures FirstOpen(Click(open, i)) == if FirstOpen(open) == Some(i) then None else Some(i)
  {
    var r := Click(open, i);
    if FirstOpen(open) == Some(i) {
      assert NoneTrue(r);
    } else {
      assert !open[i];
      assert r[i];
    }
  }
}
