/** Picking the most valuable deals among the owned items: price every item,
    sort the deals by price from high to low (Python's `sorted` is stable,
    also with `reverse=True`, so equal prices keep the items' order), and
    keep the first `num`. */
module Query {
  import OrderedMap
  import Seqs

  /** How many deals are kept when the caller does not say. */
  const DefaultCount: int := 20

  /** `[item, price, quantity]`. */
  datatype Deal = Deal(item: string, price: int, quantity: int)

  function DealFor(e: (string, int), price: string -> int): Deal {
    Deal(e.0, price(e.0), e.1)
  }

  /** The loop: one deal appended per owned item, in the dict's order. */
  function Deals(items: OrderedMap.Dict<int>, price: string -> int): (ds: seq<Deal>)
    ensures |ds| == |items|
    decreases |items|
  {
    if |items| == 0 then []
    else Deals(items[..|items| - 1], price) + [DealFor(items[|items| - 1], price)]
  }

  /** Every item is priced exactly once, at its own position, with its owned
      quantity. */
  lemma {:induction false} DealsAt(items: OrderedMap.Dict<int>, price: string -> int, i: nat)
    requires i < |items|
    ensures Deals(items, price)[i] == Deal(items[i].0, price(items[i].0), items[i].1)
    decreases |items|
  {
    if i < |items| - 1 {
      DealsAt(items[..|items| - 1], price, i);
    }
  }

  // ---------------------------------------------------------------------
  // A stable sort by price, high to low

  predicate Descending(s: seq<Deal>) {
    forall i, j :: 0 <= i < j < |s| ==> s[i].price >= s[j].price
  }

  /** The deals with price `p`, in order. */
  function WithPrice(s: seq<Deal>, p: int): seq<Deal>
    decreases |s|
  {
    if |s| == 0 then []
    else WithPrice(s[..|s| - 1], p) + (if s[|s| - 1].price == p then [s[|s| - 1]] else [])
  }

  lemma {:induction false} WithPriceConcat(a: seq<Deal>, b: seq<Deal>, p: int)
    ensures WithPrice(a + b, p) == WithPrice(a, p) + WithPrice(b, p)
    decreases |b|
  {
    if |b| == 0 {
      assert a + b == a;
    } else {
      var b' := b[..|b| - 1];
      assert (a + b)[..|a + b| - 1] == a + b';
      assert (a + b)[|a + b| - 1] == b[|b| - 1];
      WithPriceConcat(a, b', p);
    }
  }

  lemma {:induction false} WithPriceNone(s: seq<Deal>, p: int)
    requires forall i :: 0 <= i < |s| ==> s[i].price != p
    ensures WithPrice(s, p) == []
    decreases |s|
  {
    if |s| > 0 {
      WithPriceNone(s[..|s| - 1], p);
    }
  }

  /** Where a deal goes in a descending list: after every deal priced at
      least as high, so that it lands behind the equal ones already there. */
  function Position(x: Deal, s: seq<Deal>): (k: nat)
    ensures k <= |s|
    decreases |s|
  {
    if |s| == 0 || s[0].price < x.price then 0 else 1 + Position(x, s[1..])
  }

  lemma {:induction false} PositionSpec(x: Deal, s: seq<Deal>)
    requires Descending(s)
    ensures forall i :: 0 <= i < Position(x, s) ==> s[i].price >= x.price
    ensures forall i :: Position(x, s) <= i < |s| ==> s[i].price < x.price
    decreases |s|
  {
    if |s| > 0 && s[0].price >= x.price {
      PositionSpec(x, s[1..]);
      assert forall i :: 1 <= i < |s| ==> s[1..][i - 1] == s[i];
    }
  }

  function Insert(x: Deal, s: seq<Deal>): seq<Deal> {
    var k := Position(x, s);
    s[..k] + [x] + s[k..]
  }

  /** Inserting keeps the list descending. */
  lemma InsertOrdered(x: Deal, s: seq<Deal>)
    requires Descending(s)
    ensures Descending(Insert(x, s))
  {
    var k := Position(x, s);
    var r := Insert(x, s);
    PositionSpec(x, s);
    assert forall i :: 0 <= i < k ==> r[i] == s[i];
    assert r[k] == x;
    assert forall i :: k < i < |r| ==> r[i] == s[i - 1];
  }

  /** Moving `x` past deals of other prices keeps each price's order. */
  lemma WithPriceSplice(lo: seq<Deal>, x: Deal, hi: seq<Deal>, p: int)
    requires x.price == p ==> WithPrice(hi, p) == []
    ensures WithPrice(lo + [x] + hi, p) == WithPrice(lo + hi + [x], p)
  {
    WithPriceConcat(lo + [x], hi, p);
    WithPriceConcat(lo, [x], p);
    WithPriceConcat(lo + hi, [x], p);
    WithPriceConcat(lo, hi, p);
    assert [x][..0] == [];
    assert WithPrice([x], p) == if x.price == p then [x] else [];
  }

  /** `x` lands behind the deals of its own price already in the list. */
  lemma InsertStable(x: Deal, s: seq<Deal>, p: int)
    requires Descending(s)
    ensures WithPrice(Insert(x, s), p) == WithPrice(s + [x], p)
  {
    var k := Position(x, s);
    var lo, hi := s[..k], s[k..];
    assert s == lo + hi;
    if x.price == p {
      PositionSpec(x, s);
      assert forall i :: 0 <= i < |hi| ==> hi[i].price != p by {
        forall i | 0 <= i < |hi|
          ensures hi[i].price != p
        {
          assert hi[i] == s[k + i];
        }
      }
      WithPriceNone(hi, p);
    }
    WithPriceSplice(lo, x, hi, p);
  }

  /** `sorted(s, key=price, reverse=True)`, by insertion in list order. */
  function Sort(s: seq<Deal>): seq<Deal>
    decreases |s|
  {
    if |s| == 0 then [] else Insert(s[|s| - 1], Sort(s[..|s| - 1]))
  }

  /** Sorting yields a descending permutation in which the deals of each
      price keep their original order. */
  lemma {:induction false} SortSpec(s: seq<Deal>, p: int)
    ensures Descending(Sort(s))
    ensures multiset(Sort(s)) == multiset(s)
    ensures WithPrice(Sort(s), p) == WithPrice(s, p)
    decreases |s|
  {
    if |s| > 0 {
      var front := s[..|s| - 1];
      var last := s[|s| - 1];
      SortSpec(front, p);
      Seqs.SpliceMultiset(Sort(front), Position(last, Sort(front)), last);
      InsertOrdered(last, Sort(front));
      InsertStable(last, Sort(front), p);
      assert s == front + [last];
      WithPriceConcat(Sort(front), [last], p);
      WithPriceConcat(front, [last], p);
    }
  }

  lemma SortLength(s: seq<Deal>)
    ensures |Sort(s)| == |s|
  {
    SortSpec(s, 0);
    assert |multiset(Sort(s))| == |Sort(s)|;
    assert |multiset(s)| == |s|;
  }

  // ---------------------------------------------------------------------
  // Slicing and the result

  /** Python's `s[:num]`: a negative `num` drops that many from the end. */
  function Slice(s: seq<Deal>, num: int): (r: seq<Deal>)
    ensures r <= s
    ensures |r| == if num >= 0 then (if num < |s| then num else |s|)
                   else (if |s| + num > 0 then |s| + num else 0)
  {
    if num >= 0 then (if num < |s| then s[..num] else s)
    else if |s| + num > 0 then s[..|s| + num] else []
  }

  /** `find_most_expensive_items_to_sell(profile, item_list, num)`, with the
      market lookup for `profile` as the `price` oracle. */
  function MostExpensive(items: OrderedMap.Dict<int>, price: string -> int, num: int): seq<Deal> {
    Slice(Sort(Deals(items, price)), num)
  }

  /** A prefix of a descending list is descending and holds its largest elements. */
  lemma PrefixLargest(s: seq<Deal>, r: seq<Deal>)
    requires Descending(s) && r <= s
    ensures Descending(r)
    ensures multiset(r) <= multiset(s)
    ensures forall x, i :: x in multiset(s) - multiset(r) && 0 <= i < |r| ==> r[i].price >= x.price
  {
    var rest := s[|r|..];
    assert s == r + rest;
    assert multiset(s) == multiset(r) + multiset(rest);
    forall x, i | x in multiset(s) - multiset(r) && 0 <= i < |r|
      ensures r[i].price >= x.price
    {
      assert x in multiset(rest);
      var j :| 0 <= j < |rest| && rest[j] == x;
      assert s[i] == r[i] && s[|r| + j] == x;
    }
  }

  /** The result is a descending selection of the deals, as long as the
      slice allows, and no deal left out is priced above one kept. */
  lemma MostExpensiveSpec(items: OrderedMap.Dict<int>, price: string -> int, num: int)
    ensures var r := MostExpensive(items, price, num);
            |r| == if num >= 0 then (if num < |items| then num else |items|)
                   else (if |items| + num > 0 then |items| + num else 0)
    ensures Descending(MostExpensive(items, price, num))
    ensures multiset(MostExpensive(items, price, num)) <= multiset(Deals(items, price))
    ensures forall x, i :: x in multiset(Deals(items, price)) - multiset(MostExpensive(items, price, num)) &&
                           0 <= i < |MostExpensive(items, price, num)| ==>
              MostExpensive(items, price, num)[i].price >= x.price
  {
    var ds := Deals(items, price);
    SortSpec(ds, 0);
    SortLength(ds);
    PrefixLargest(Sort(ds), MostExpensive(items, price, num));
  }

  /** Among the kept deals, those of any one price appear in the order of
      the owned items: they are the first ones of that price. */
  lemma MostExpensiveStable(items: OrderedMap.Dict<int>, price: string -> int, num: int, p: int)
    ensures WithPrice(MostExpensive(items, price, num), p) <= WithPrice(Deals(items, price), p)
  {
    var ds := Deals(items, price);
    var s := Sort(ds);
    var r := MostExpensive(items, price, num);
    SortSpec(ds, p);
    assert r == s[..|r|];
    assert s == r + s[|r|..];
    WithPriceConcat(r, s[|r|..], p);
  }

  /** Every kept deal is some owned item at its oracle price and owned quantity. */
  lemma MostExpensiveMembers(items: OrderedMap.Dict<int>, price: string -> int, num: int, k: nat)
    requires k < |MostExpensive(items, price, num)|
    ensures exists i :: 0 <= i < |items| &&
              MostExpensive(items, price, num)[k] == Deal(items[i].0, price(items[i].0), items[i].1)
  {
    var ds := Deals(items, price);
    var r := MostExpensive(items, price, num);
    MostExpensiveSpec(items, price, num);
    assert r[k] in multiset(r);
    assert r[k] in ds;
    var i :| 0 <= i < |ds| && ds[i] == r[k];
    DealsAt(items, price, i);
  }

  /** A sequence without repeats holds each value at most once. */
  lemma {:induction false} DistinctCount(s: seq<Deal>, x: Deal)
    requires forall i, j :: 0 <= i < j < |s| ==> s[i] != s[j]
    ensures multiset(s)[x] <= 1
    decreases |s|
  {
    if |s| > 0 {
      var front := s[..|s| - 1];
      DistinctCount(front, x);
      assert s == front + [s[|s| - 1]];
      if s[|s| - 1] == x {
        assert forall i :: 0 <= i < |front| ==> front[i] == s[i];
        assert x !in front;
      }
    }
  }

  /** A value at two positions is counted twice. */
  lemma RepeatCount(s: seq<Deal>, i: nat, j: nat)
    requires i < j < |s| && s[i] == s[j]
    ensures multiset(s)[s[i]] >= 2
  {
    assert s == s[..i] + [s[i]] + s[i + 1..j] + [s[j]] + s[j + 1..];
  }

  /** Since the owned items are a dict, no item is listed twice. */
  lemma MostExpensiveDistinct(items: OrderedMap.Dict<int>, price: string -> int, num: int)
    requires OrderedMap.Valid(items)
    ensures forall i, j :: 0 <= i < j < |MostExpensive(items, price, num)| ==>
              MostExpensive(items, price, num)[i].item != MostExpensive(items, price, num)[j].item
  {
    var ds := Deals(items, price);
    var r := MostExpensive(items, price, num);
    MostExpensiveSpec(items, price, num);
    assert forall a, b :: 0 <= a < b < |ds| ==> ds[a] != ds[b] by {
      forall a, b | 0 <= a < b < |ds|
        ensures ds[a] != ds[b]
      {
        DealsAt(items, price, a);
        DealsAt(items, price, b);
      }
    }
    forall i, j | 0 <= i < j < |r|
      ensures r[i].item != r[j].item
    {
      if r[i].item == r[j].item {
        MostExpensiveMembers(items, price, num, i);
        MostExpensiveMembers(items, price, num, j);
        var a :| 0 <= a < |items| && r[i] == Deal(items[a].0, price(items[a].0), items[a].1);
        var b :| 0 <= b < |items| && r[j] == Deal(items[b].0, price(items[b].0), items[b].1);
        assert a == b;
        RepeatCount(r, i, j);
        DistinctCount(ds, r[i]);
        assert false;
      }
    }
  }
}
