/** The older single-file market client: one lookup that answers either the
    id of the first order in an item's order book or the lowest in-game sell
    price (our own listings included), and the body and headers of a new
    sell order. */
module LegacyMarket {
  import opened Wrappers
  import OrderedMap
  import MarketOrders
  import Market

  /** The price reported when nobody sells the item in game. */
  const NoOffer: int := 10000

  /** What a lookup answers: an id, a price, or nothing for any other request. */
  datatype Info = OrderId(id: string) | LowestPrice(price: int) | Nothing

  /** `orders[0]` on an empty order book raises `IndexError`. */
  datatype LookupError = NoOrders

  /** The running minimum from `NoOffer` over every in-game sell order. */
  function LegacyLowest(orders: seq<MarketOrders.Order>): int {
    MarketOrders.Lowest(NoOffer, MarketOrders.Prices(orders, None))
  }

  /** `get_info_from_market(item, info)` on the item's decoded order book. */
  function InfoFromMarket(orders: seq<MarketOrders.Order>, info: string): (r: Result<Info, LookupError>)
    ensures info == "id" ==> (r.Failure? <==> |orders| == 0)
    ensures info == "id" && |orders| > 0 ==> r == Success(OrderId(orders[0].id))
    ensures info == "price" ==> r.Success? && r.value.LowestPrice?
    ensures info != "id" && info != "price" ==> r == Success(Nothing)
  {
    if info == "id" then
      if |orders| == 0 then Failure(NoOrders) else Success(OrderId(orders[0].id))
    else if info == "price" then Success(LowestPrice(LegacyLowest(orders)))
    else Success(Nothing)
  }

  /** The price answer is the lowest in-game sell price, counting our own
      listings, or `NoOffer` when there is none below it. */
  lemma PriceAnswerSpec(orders: seq<MarketOrders.Order>)
    ensures InfoFromMarket(orders, "price").value.price <= NoOffer
    ensures forall i :: 0 <= i < |orders| && MarketOrders.Qualifies(orders[i], None) ==>
              InfoFromMarket(orders, "price").value.price <= orders[i].platinum
    ensures InfoFromMarket(orders, "price").value.price == NoOffer ||
            exists i :: 0 <= i < |orders| && MarketOrders.Qualifies(orders[i], None) &&
                        orders[i].platinum == InfoFromMarket(orders, "price").value.price
  {
    var ps := MarketOrders.Prices(orders, None);
    var r := LegacyLowest(orders);
    MarketOrders.LowestSpec(NoOffer, ps);
    MarketOrders.PricesMembers(orders, None, r);
    forall i | 0 <= i < |orders| && MarketOrders.Qualifies(orders[i], None)
      ensures r <= orders[i].platinum
    {
      MarketOrders.PricesMembers(orders, None, orders[i].platinum);
    }
  }

  /** The id answer is the first order's own id, whatever its type: the
      orders after it play no part. */
  lemma IdAnswerFirstOrder(o: MarketOrders.Order, rest: seq<MarketOrders.Order>)
    ensures InfoFromMarket([o] + rest, "id") == Success(OrderId(o.id))
  {
  }

  /** Counting our own listings and the lower sentinel can only lower the
      answer compared with the market package's lookup. */
  lemma LegacyNotAbovePackage(orders: seq<MarketOrders.Order>, profile: string)
    ensures LegacyLowest(orders) <= Market.FindLowestPrice(orders, profile)
  {
    var r := Market.FindLowestPrice(orders, profile);
    Market.FindLowestPriceSpec(orders, profile);
    PriceAnswerSpec(orders);
    if r != Market.NoOffer {
      var i :| 0 <= i < |orders| && MarketOrders.Qualifies(orders[i], Some(profile)) && orders[i].platinum == r;
      assert MarketOrders.Qualifies(orders[i], None);
    }
  }

  /** A listing of our own at the lowest price is what the lookup reports. */
  lemma OwnListingCounts(a: seq<MarketOrders.Order>, o: MarketOrders.Order)
    requires MarketOrders.Qualifies(o, None) && o.platinum < LegacyLowest(a)
    ensures LegacyLowest(a + [o]) == o.platinum
  {
    MarketOrders.PricesConcat(a, [o], None);
    MarketOrders.LowestConcat(NoOffer, MarketOrders.Prices(a, None), [o.platinum]);
    assert MarketOrders.Prices([o], None) == [o.platinum] by {
      assert [o][..0] == [];
      assert MarketOrders.Prices([], None) == [];
    }
    assert [o.platinum][..0] == [];
  }

  // ---------------------------------------------------------------------
  // sell_to_market

  /** The JSON body of a new sell order. */
  function SellBody(id: string, price: int, quantity: int): (b: Market.OrderBody)
    ensures b.orderType == "sell"
    ensures b.itemId == id && b.platinum == price && b.quantity == quantity
  {
    Market.OrderBody(id, "sell", price, quantity)
  }

  /** The headers of an authenticated sell call, written out. */
  function SellHeaders(token: string): OrderedMap.Dict<string> {
    [ ("Content-Type", "application/json"),
      ("Authorization", token),
      ("Accept", "application/json"),
      ("auth_type", "header"),
      ("language", "en"),
      ("platform", "pc") ]
  }

  /** Both clients send the same sell request: the same body for the same
      order and the same headers for the same token. */
  lemma SellRequestAsPackage(id: string, price: int, quantity: int, token: string)
    ensures SellBody(id, price, quantity) == Market.NewOrderBody(Market.NewPrimeOrder(id, price, quantity))
    ensures SellHeaders(token) == Market.AuthHeaders(token)
  {
    Market.AuthHeadersPut(token);
    var d := Market.StandardHeaders;
    assert d[0].0 != "Authorization";
    assert OrderedMap.Put(d, "Authorization", token) == [d[0]] + OrderedMap.Put(d[1..], "Authorization", token);
    assert d[1..][0].0 == "Authorization";
  }
}
