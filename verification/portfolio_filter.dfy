/** The portfolio filter: a row of filter buttons, each naming a category
    (or "all"), over a list of items, each tagged with a category. */
module PortfolioFilter {

  import opened Wrappers
  import opened Flags

  /** A filter button: its `data-filter` attribute (absent reads as null)
      and whether it carries the `active` class. */
  datatype FilterButton = FilterButton(filter: Option<string>, active: bool)

  /** A portfolio item: its `data-category` attribute and whether it is
      displayed. */
  datatype Item = Item(category: Option<string>, shown: bool)

  datatype Portfolio = Portfolio(buttons: seq<FilterButton>, items: seq<Item>)

  /** `filter === 'all' || category === filter`, with a missing attribute
      read as null, so null equals null. */
  predicate Selects(filter: Option<string>, category: Option<string>) {
    filter == Some("all") || category == filter
  }

  function ActiveFlags(buttons: seq<FilterButton>): (flags: seq<bool>)
    ensures |flags| == |buttons|
    ensures forall j :: 0 <= j < |buttons| ==> flags[j] == buttons[j].active
  {
    seq(|buttons|, j requires 0 <= j < |buttons| => buttons[j].active)
  }

  /** Every button loses its `active` marker; its filter is kept. */
  function ClearActive(buttons: seq<FilterButton>): (r: seq<FilterButton>)
    ensures |r| == |buttons|
    ensures forall j :: 0 <= j < |r| ==> r[j] == buttons[j].(active := false)
  {
    if buttons == [] then []
    else [buttons[0].(active := false)] + ClearActive(buttons[1..])
  }

  /** The `portfolioItems.forEach` pass: every item is displayed or hidden
      according to whether the filter selects its category. */
  function ApplyFilter(items: seq<Item>, filter: Option<string>): (r: seq<Item>)
    ensures |r| == |items|
    ensures forall j :: 0 <= j < |r| ==>
              && r[j].category == items[j].category
              && (r[j].shown <==> Selects(filter, items[j].category))
  {
    if items == [] then []
    else [items[0].(shown := Selects(filter, items[0].category))] + ApplyFilter(items[1..], filter)
  }

  /** A click on button `k`. */
  function Click(p: Portfolio, k: nat): (r: Portfolio)
    requires k < |p.buttons|
    ensures |r.buttons| == |p.buttons| && |r.items| == |p.items|
    ensures forall j :: 0 <= j < |r.buttons| ==>
              && r.buttons[j].filter == p.buttons[j].filter
              && (r.buttons[j].active <==> j == k)
    ensures forall j :: 0 <= j < |r.items| ==>
              && r.items[j].category == p.items[j].category
              && (r.items[j].shown <==> Selects(p.buttons[k].filter, p.items[j].category))
  {
    var filter := p.buttons[k].filter;
    var cleared := ClearActive(p.buttons);
    Portfolio(cleared[k := cleared[k].(active := true)], ApplyFilter(p.items, filter))
  }

  /** After any click exactly one filter button is active, whatever the
      buttons looked like before. */
  lemma ClickLeavesOneActive(p: Portfolio, k: nat)
    requires k < |p.buttons|
    ensures OnlyAt(ActiveFlags(Click(p, k).buttons), k)
    ensures CountTrue(ActiveFlags(Click(p, k).buttons)) == 1
  {
    OnlyAtCountsOne(ActiveFlags(Click(p, k).buttons), k);
  }

  /** The "all" button displays every item. */
  lemma AllShowsEverything(p: Portfolio, k: nat)
    requires k < |p.buttons| && p.buttons[k].filter == Some("all")
    ensures forall j :: 0 <= j < |p.items| ==> Click(p, k).items[j].shown
  {
  }

  /** The state after a click depends only on the button clicked: an earlier
      click leaves no trace, so repeating a click changes nothing. */
  lemma LastClickWins(p: Portfolio, i: nat, k: nat)
    requires i < |p.buttons| && k < |p.buttons|
    ensures Click(Click(p, i), k) == Click(p, k)
  {
    var a := Click(Click(p, i), k);
    var b := Click(p, k);
    assert a.buttons == b.buttons;
    assert a.items == b.items;
  }
}
