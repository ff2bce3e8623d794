/** The second trading script: for every owned item, look up its market id
    and price, and put it on the sell list one platinum under that price,
    unless the price is already at or below the minimum. */
module SellScript {
  import OrderedMap

  /** Items at or below this price are not sold. */
  const MinPrice: int := 10

  /** `calculate_sell_price`: 0 means "do not sell". */
  function SellPrice(price: int): (r: int)
    ensures r == 0 <==> price <= MinPrice
    ensures r != 0 ==> MinPrice <= r < price
    ensures price > MinPrice ==> r == price - 1
  {
    if price <= MinPrice then 0 else price - 1
  }

  /** What the market answers for an item name: its id and its price. */
  datatype Quote = Quote(itemId: string, price: int)

  /** One entry of the sell list. */
  datatype SellOrder = SellOrder(item: string, itemName: string, price: int, quantity: int)

  predicate Sellable(name: string, quote: string -> Quote) {
    SellPrice(quote(name).price) != 0
  }

  function OrderFor(name: string, quantity: int, quote: string -> Quote): SellOrder {
    SellOrder(quote(name).itemId, name, SellPrice(quote(name).price), quantity)
  }

  /** The sell list, in the iteration order of the owned items. */
  function SellList(items: OrderedMap.Dict<int>, quote: string -> Quote): (orders: seq<SellOrder>)
    ensures |orders| <= |items|
    decreases |items|
  {
    if |items| == 0 then []
    else
      var (name, quantity) := items[|items| - 1];
      SellList(items[..|items| - 1], quote) + (if Sellable(name, quote) then [OrderFor(name, quantity, quote)] else [])
  }

  /** The list for two runs of items is the list of the first followed by
      the list of the second. */
  lemma {:induction false} SellListConcat(a: OrderedMap.Dict<int>, b: OrderedMap.Dict<int>, quote: string -> Quote)
    ensures SellList(a + b, quote) == SellList(a, quote) + SellList(b, quote)
    decreases |b|
  {
    if |b| == 0 {
      assert a + b == a;
    } else {
      var b' := b[..|b| - 1];
      assert (a + b)[..|a + b| - 1] == a + b';
      assert (a + b)[|a + b| - 1] == b[|b| - 1];
      SellListConcat(a, b', quote);
    }
  }

  /** Every order on the list is an owned item at its quoted id, the
      undercut price, and the owned quantity, and that price is at least the
      minimum and below the quote. */
  lemma {:induction false} SellListSound(items: OrderedMap.Dict<int>, quote: string -> Quote, k: nat)
    requires k < |SellList(items, quote)|
    ensures exists i :: 0 <= i < |items| && Sellable(items[i].0, quote) &&
                        SellList(items, quote)[k] == OrderFor(items[i].0, items[i].1, quote)
    ensures var o := SellList(items, quote)[k];
            MinPrice <= o.price < quote(o.itemName).price
    decreases |items|
  {
    var front := items[..|items| - 1];
    var last := items[|items| - 1];
    var o := SellList(items, quote)[k];
    if k < |SellList(front, quote)| {
      SellListSound(front, quote, k);
      var i :| 0 <= i < |front| && Sellable(front[i].0, quote) &&
               SellList(front, quote)[k] == OrderFor(front[i].0, front[i].1, quote);
      assert items[i] == front[i];
    } else {
      assert o == OrderFor(last.0, last.1, quote);
    }
  }

  /** Every owned item whose quote is above the minimum is on the list. */
  lemma {:induction false} SellListComplete(items: OrderedMap.Dict<int>, quote: string -> Quote, i: nat)
    requires i < |items| && Sellable(items[i].0, quote)
    ensures OrderFor(items[i].0, items[i].1, quote) in SellList(items, quote)
    decreases |items|
  {
    var front := items[..|items| - 1];
    if i < |front| {
      SellListComplete(front, quote, i);
      assert front[i] == items[i];
    }
  }

  /** How many owned items are sellable. */
  function SellableCount(items: OrderedMap.Dict<int>, quote: string -> Quote): nat
    decreases |items|
  {
    if |items| == 0 then 0
    else SellableCount(items[1..], quote) + (if Sellable(items[0].0, quote) then 1 else 0)
  }

  /** One order per sellable item. */
  lemma {:induction false} SellListCount(items: OrderedMap.Dict<int>, quote: string -> Quote)
    ensures |SellList(items, quote)| == SellableCount(items, quote)
    decreases |items|
  {
    if |items| > 0 {
      SellListConcat([items[0]], items[1..], quote);
      assert [items[0]] + items[1..] == items;
      SellListCount(items[1..], quote);
      assert [items[0]][..0] == [];
    }
  }
}
