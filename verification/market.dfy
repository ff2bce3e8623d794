/** The market client package: reading back a profile's sell orders, the
    lowest competing price for an item (leaving out our own listings), the
    authenticated header set and the body of a new sell order. */
module Market {
  import opened Wrappers
  import OrderedMap
  import MarketOrders

  /** The price reported when nobody else sells the item in game. */
  const NoOffer: int := 100000

  // ---------------------------------------------------------------------
  // get_existing_orders

  /** The `item` object of a sell order; `ducats` is absent for items that
      are not prime parts. */
  datatype ItemRecord = ItemRecord(id: string, urlName: string, ducats: Option<int>)

  /** One entry of `payload.sell_orders`. */
  datatype SellOrderLine = SellOrderLine(id: string, quantity: int, platinum: int, item: ItemRecord)

  datatype ExistingPrimeOrder = ExistingPrimeOrder(
    orderId: string, quantity: int, platinum: int, itemId: string, itemUrl: string, ducats: Option<int>)

  function ToExisting(line: SellOrderLine): ExistingPrimeOrder {
    ExistingPrimeOrder(line.id, line.quantity, line.platinum, line.item.id, line.item.urlName, line.item.ducats)
  }

  /** The line an existing order was read from. */
  function ToLine(e: ExistingPrimeOrder): SellOrderLine {
    SellOrderLine(e.orderId, e.quantity, e.platinum, ItemRecord(e.itemId, e.itemUrl, e.ducats))
  }

  /** One `ExistingPrimeOrder` per sell order, in payload order; `ducats`
      is `None` exactly when the item record has none. */
  function ExistingOrders(lines: seq<SellOrderLine>): (r: seq<ExistingPrimeOrder>)
    ensures |r| == |lines|
    ensures forall i :: 0 <= i < |lines| ==> (r[i].ducats.None? <==> lines[i].item.ducats.None?)
    ensures forall i :: 0 <= i < |lines| ==> r[i] == ToExisting(lines[i])
  {
    seq(|lines|, i requires 0 <= i < |lines| => ToExisting(lines[i]))
  }

  /** Nothing is lost: the payload can be rebuilt from the orders. */
  lemma ExistingOrdersLossless(lines: seq<SellOrderLine>)
    ensures seq(|lines|, i requires 0 <= i < |lines| => ToLine(ExistingOrders(lines)[i])) == lines
  {
  }

  // ---------------------------------------------------------------------
  // find_lowest_price_for_item

  /** The running minimum from `NoOffer` over the in-game sell orders of
      everyone but `profile`. */
  function FindLowestPrice(orders: seq<MarketOrders.Order>, profile: string): int {
    MarketOrders.Lowest(NoOffer, MarketOrders.Prices(orders, Some(profile)))
  }

  /** The result is the lowest price among the qualifying orders, or
      `NoOffer` when there are none or all ask more. */
  lemma FindLowestPriceSpec(orders: seq<MarketOrders.Order>, profile: string)
    ensures FindLowestPrice(orders, profile) <= NoOffer
    ensures forall i :: 0 <= i < |orders| && MarketOrders.Qualifies(orders[i], Some(profile)) ==>
              FindLowestPrice(orders, profile) <= orders[i].platinum
    ensures FindLowestPrice(orders, profile) == NoOffer ||
            exists i :: 0 <= i < |orders| && MarketOrders.Qualifies(orders[i], Some(profile)) &&
                        orders[i].platinum == FindLowestPrice(orders, profile)
    ensures (forall i :: 0 <= i < |orders| ==> !MarketOrders.Qualifies(orders[i], Some(profile))) ==>
              FindLowestPrice(orders, profile) == NoOffer
  {
    var ps := MarketOrders.Prices(orders, Some(profile));
    var r := FindLowestPrice(orders, profile);
    MarketOrders.LowestSpec(NoOffer, ps);
    MarketOrders.PricesMembers(orders, Some(profile), r);
    forall i | 0 <= i < |orders| && MarketOrders.Qualifies(orders[i], Some(profile))
      ensures r <= orders[i].platinum
    {
      MarketOrders.PricesMembers(orders, Some(profile), orders[i].platinum);
    }
  }

  /** Our own listings never change the result, wherever they appear. */
  lemma OwnListingsIgnored(a: seq<MarketOrders.Order>, o: MarketOrders.Order, b: seq<MarketOrders.Order>, profile: string)
    requires o.user.ingameName == profile
    ensures FindLowestPrice(a + [o] + b, profile) == FindLowestPrice(a + b, profile)
  {
    MarketOrders.PricesConcat(a + [o], b, Some(profile));
    MarketOrders.PricesConcat(a, [o], Some(profile));
    MarketOrders.PricesConcat(a, b, Some(profile));
    assert MarketOrders.Prices([o], Some(profile)) == [] by {
      assert [o][..0] == [];
      assert MarketOrders.Prices([], Some(profile)) == [];
    }
    assert MarketOrders.Prices(a, Some(profile)) + [] == MarketOrders.Prices(a, Some(profile));
  }

  // ---------------------------------------------------------------------
  // Headers

  /** The headers of every unauthenticated call. */
  const StandardHeaders: OrderedMap.Dict<string> := [
    ("Content-Type", "application/json"),
    ("Authorization", "JWT"),
    ("Accept", "application/json"),
    ("auth_type", "header"),
    ("language", "en"),
    ("platform", "pc")
  ]

  /** `standard_headers | {'Authorization': token}`. */
  function AuthHeaders(token: string): OrderedMap.Dict<string> {
    OrderedMap.PutAll(StandardHeaders, [("Authorization", token)])
  }

  /** No header name repeats. */
  lemma StandardHeadersValid()
    ensures OrderedMap.Valid(StandardHeaders)
  {
    var ks := OrderedMap.Keys(StandardHeaders);
    assert ks[0][0] == 'C' && ks[1][0] == 'A' && ks[1][1] == 'u' && ks[2][1] == 'c';
    assert ks[3][0] == 'a' && ks[4][0] == 'l' && ks[5][0] == 'p';
  }

  /** Merging in the one-entry dict is assigning its entry. */
  lemma AuthHeadersPut(token: string)
    ensures AuthHeaders(token) == OrderedMap.Put(StandardHeaders, "Authorization", token)
  {
    var es := [("Authorization", token)];
    var put := OrderedMap.Put(StandardHeaders, "Authorization", token);
    assert es[1..] == [];
    assert OrderedMap.PutAll(StandardHeaders, es) == OrderedMap.PutAll(put, es[1..]);
    assert OrderedMap.PutAll(put, []) == put;
  }

  /** The authenticated set has the same keys in the same order, carries the
      token under `Authorization` and every other standard value unchanged. */
  lemma AuthHeadersSpec(token: string, k: string)
    ensures OrderedMap.Valid(AuthHeaders(token))
    ensures OrderedMap.Keys(AuthHeaders(token)) == OrderedMap.Keys(StandardHeaders)
    ensures OrderedMap.Get(AuthHeaders(token), k) ==
            if k == "Authorization" then Some(token) else OrderedMap.Get(StandardHeaders, k)
  {
    StandardHeadersValid();
    AuthHeadersPut(token);
    OrderedMap.PutValid(StandardHeaders, "Authorization", token);
    OrderedMap.PutGet(StandardHeaders, "Authorization", token, k);
    OrderedMap.PutKeys(StandardHeaders, "Authorization", token);
    assert OrderedMap.Keys(StandardHeaders)[1] == "Authorization";
  }

  // ---------------------------------------------------------------------
  // create_new_order

  datatype NewPrimeOrder = NewPrimeOrder(itemId: string, price: int, quantity: int)

  /** The JSON body of a new order. */
  datatype OrderBody = OrderBody(itemId: string, orderType: string, platinum: int, quantity: int)

  /** Every new order is a sell order at the requested price and quantity. */
  function NewOrderBody(item: NewPrimeOrder): (b: OrderBody)
    ensures b.orderType == "sell"
    ensures b.itemId == item.itemId && b.platinum == item.price && b.quantity == item.quantity
  {
    OrderBody(item.itemId, "sell", item.price, item.quantity)
  }

  /** The order a sell body asks for. */
  function BodyOrder(b: OrderBody): NewPrimeOrder {
    NewPrimeOrder(b.itemId, b.platinum, b.quantity)
  }

  /** The body determines the order it was made from, and every sell body
      is the body of some order. */
  lemma NewOrderBodyInverse(item: NewPrimeOrder, b: OrderBody)
    ensures BodyOrder(NewOrderBody(item)) == item
    ensures b.orderType == "sell" ==> NewOrderBody(BodyOrder(b)) == b
  {
  }
}
