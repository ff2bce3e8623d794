/** The pricing logic of the first trading script: reading back our own sell
    orders, collecting the five lowest competing prices for an item, and
    undercutting the lowest of them by one platinum unless that would go
    below the minimum price. */
module MainScript {
  import opened Wrappers
  import MarketOrders

  /** Nothing is listed or sold below this many platinum. */
  const MinPrice: int := 10

  /** How many of the lowest prices are kept. */
  const Kept: nat := 5

  // ---------------------------------------------------------------------
  // get_listed_orders

  datatype ItemRef = ItemRef(id: string, urlName: string)

  /** One entry of `payload.sell_orders` of a profile. */
  datatype SellOrderLine = SellOrderLine(id: string, quantity: int, platinum: int, item: ItemRef)

  datatype ExistingOrder = ExistingOrder(orderId: string, quantity: int, platinum: int, itemId: string, itemUrl: string)

  function ToExisting(line: SellOrderLine): ExistingOrder {
    ExistingOrder(line.id, line.quantity, line.platinum, line.item.id, line.item.urlName)
  }

  /** The line an existing order was read from. */
  function ToLine(e: ExistingOrder): SellOrderLine {
    SellOrderLine(e.orderId, e.quantity, e.platinum, ItemRef(e.itemId, e.itemUrl))
  }

  /** One `ExistingOrder` per sell order, in payload order. */
  function ListedOrders(lines: seq<SellOrderLine>): (r: seq<ExistingOrder>)
    ensures |r| == |lines|
    ensures forall i :: 0 <= i < |lines| ==> r[i] == ToExisting(lines[i])
  {
    seq(|lines|, i requires 0 <= i < |lines| => ToExisting(lines[i]))
  }

  /** Nothing is lost: the payload can be rebuilt from the orders. */
  lemma ListedOrdersLossless(lines: seq<SellOrderLine>)
    ensures seq(|lines|, i requires 0 <= i < |lines| => ToLine(ListedOrders(lines)[i])) == lines
  {
  }

  // ---------------------------------------------------------------------
  // find_lowest_price_for_item

  /** `sorted(price_list)[:5]` over the in-game sell orders; our own
      listings are not left out. */
  function LowestPrices(orders: seq<MarketOrders.Order>): seq<int> {
    MarketOrders.Take(MarketOrders.Sort(MarketOrders.Prices(orders, None)), Kept)
  }

  /** The result is ascending, holds min(5, n) of the n qualifying prices
      (with no price more often than it is asked), each asked by some
      qualifying order, and none of the prices left out
      is smaller than any kept. */
  lemma LowestPricesSpec(orders: seq<MarketOrders.Order>)
    ensures var ps := MarketOrders.Prices(orders, None);
            |LowestPrices(orders)| == if |ps| < Kept then |ps| else Kept
    ensures MarketOrders.Ascending(LowestPrices(orders))
    ensures multiset(LowestPrices(orders)) <= multiset(MarketOrders.Prices(orders, None))
    ensures forall i :: 0 <= i < |LowestPrices(orders)| ==>
              exists j :: 0 <= j < |orders| && MarketOrders.Qualifies(orders[j], None) && orders[j].platinum == LowestPrices(orders)[i]
    ensures var ps := MarketOrders.Prices(orders, None);
            forall x, i :: x in multiset(ps) - multiset(LowestPrices(orders)) && 0 <= i < |LowestPrices(orders)| ==>
              LowestPrices(orders)[i] <= x
  {
    var ps := MarketOrders.Prices(orders, None);
    var r := LowestPrices(orders);
    assert r == MarketOrders.Take(MarketOrders.Sort(ps), Kept);
    MarketOrders.SortLength(ps);
    MarketOrders.SmallestOfSorted(ps, Kept);
    forall i | 0 <= i < |r|
      ensures exists j :: 0 <= j < |orders| && MarketOrders.Qualifies(orders[j], None) && orders[j].platinum == r[i]
    {
      assert r[i] in multiset(r);
      assert r[i] in ps;
      MarketOrders.PricesMembers(orders, None, r[i]);
    }
  }

  // ---------------------------------------------------------------------
  // calculate_new_sell_price

  /** Python's `min` of a non-empty list. */
  function MinOf(ps: seq<int>): (m: int)
    requires |ps| > 0
    ensures m in ps
    ensures forall i :: 0 <= i < |ps| ==> m <= ps[i]
    decreases |ps|
  {
    if |ps| == 1 then ps[0]
    else
      var front := ps[..|ps| - 1];
      var m := MinOf(front);
      assert forall i :: 0 <= i < |front| ==> front[i] == ps[i];
      if ps[|ps| - 1] < m then ps[|ps| - 1] else m
  }

  /** Undercut the lowest price by one, unless that drops below `minPrice`,
      in which case match it; the result may itself be below `minPrice`. */
  function NewSellPrice(prices: seq<int>, minPrice: int): (r: int)
    requires |prices| > 0
    ensures r == MinOf(prices) || r == MinOf(prices) - 1
    ensures r == MinOf(prices) - 1 <==> MinOf(prices) - 1 >= minPrice
    ensures forall i :: 0 <= i < |prices| ==> r <= prices[i]
    ensures r >= minPrice <==> MinOf(prices) >= minPrice
  {
    if MinOf(prices) - 1 < minPrice then MinOf(prices) else MinOf(prices) - 1
  }

  /** Keeping only the five lowest prices does not change the lowest one. */
  lemma MinOfLowestPrices(orders: seq<MarketOrders.Order>)
    requires |MarketOrders.Prices(orders, None)| > 0
    ensures |LowestPrices(orders)| > 0
    ensures MinOf(LowestPrices(orders)) == MinOf(MarketOrders.Prices(orders, None))
  {
    var ps := MarketOrders.Prices(orders, None);
    var t := LowestPrices(orders);
    LowestPricesSpec(orders);
    MarketOrders.SmallestOfSorted(ps, Kept);
    var m := MinOf(ps);
    var mt := MinOf(t);
    assert mt in multiset(t);
    assert mt in ps;
    assert m <= mt;
    if m in multiset(ps) - multiset(t) {
      assert t[0] <= m;
    } else {
      assert m in multiset(t);
      assert m in t;
    }
  }

  /** The price the script would set for an item: never above any in-game
      competitor, one below the lowest of them when that stays at or above
      the minimum, and the lowest itself otherwise. */
  lemma UndercutLowestCompetitor(orders: seq<MarketOrders.Order>, minPrice: int)
    requires |MarketOrders.Prices(orders, None)| > 0
    ensures |LowestPrices(orders)| > 0
    ensures var m := MinOf(MarketOrders.Prices(orders, None));
            NewSellPrice(LowestPrices(orders), minPrice) == if m - 1 < minPrice then m else m - 1
    ensures forall j :: 0 <= j < |orders| && MarketOrders.Qualifies(orders[j], None) ==>
              NewSellPrice(LowestPrices(orders), minPrice) <= orders[j].platinum
  {
    var ps := MarketOrders.Prices(orders, None);
    MinOfLowestPrices(orders);
    forall j | 0 <= j < |orders| && MarketOrders.Qualifies(orders[j], None)
      ensures NewSellPrice(LowestPrices(orders), minPrice) <= orders[j].platinum
    {
      MarketOrders.PricesMembers(orders, None, orders[j].platinum);
    }
  }
}
