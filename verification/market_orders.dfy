/** Order records of the market's item order book, as the scripts decode them
    from `payload.orders`, and the price scans they run over them: keep the
    sell orders of players currently in game, then take the lowest price
    against a sentinel, or the smallest few prices in ascending order. */
module MarketOrders {
  import opened Wrappers
  import Seqs

  datatype User = User(status: string, ingameName: string)

  datatype Order = Order(id: string, orderType: string, platinum: int, user: User)

  /** `order_type == 'sell' and user.status == 'ingame'`, and, when a
      profile is given, `user.ingame_name != profile`. */
  predicate Qualifies(o: Order, exclude: Option<string>) {
    && o.orderType == "sell" && o.user.status == "ingame"
    && (exclude.Some? ==> o.user.ingameName != exclude.value)
  }

  /** The prices of the qualifying orders, in payload order. */
  function Prices(orders: seq<Order>, exclude: Option<string>): (ps: seq<int>)
    ensures |ps| <= |orders|
    decreases |orders|
  {
    if |orders| == 0 then []
    else
      var last := orders[|orders| - 1];
      Prices(orders[..|orders| - 1], exclude) + (if Qualifies(last, exclude) then [last.platinum] else [])
  }

  /** Scanning two pieces of the payload scans each in turn. */
  lemma {:induction false} PricesConcat(a: seq<Order>, b: seq<Order>, exclude: Option<string>)
    ensures Prices(a + b, exclude) == Prices(a, exclude) + Prices(b, exclude)
    decreases |b|
  {
    if |b| == 0 {
      assert a + b == a;
    } else {
      var b' := b[..|b| - 1];
      assert (a + b)[..|a + b| - 1] == a + b';
      assert (a + b)[|a + b| - 1] == b[|b| - 1];
      PricesConcat(a, b', exclude);
    }
  }

  /** A price is collected exactly when some qualifying order asks it. */
  lemma {:induction false} PricesMembers(orders: seq<Order>, exclude: Option<string>, p: int)
    ensures p in Prices(orders, exclude) <==>
            exists i :: 0 <= i < |orders| && Qualifies(orders[i], exclude) && orders[i].platinum == p
    decreases |orders|
  {
    if |orders| > 0 {
      var front := orders[..|orders| - 1];
      PricesMembers(front, exclude, p);
      assert forall i :: 0 <= i < |front| ==> front[i] == orders[i];
      if p in Prices(front, exclude) {
        var i :| 0 <= i < |front| && Qualifies(front[i], exclude) && front[i].platinum == p;
        assert orders[i] == front[i];
      }
    }
  }

  /** Leaving out a profile only removes prices. */
  lemma PricesExcludeSubset(orders: seq<Order>, profile: string, p: int)
    requires p in Prices(orders, Some(profile))
    ensures p in Prices(orders, None)
  {
    PricesMembers(orders, Some(profile), p);
    PricesMembers(orders, None, p);
  }

  // ---------------------------------------------------------------------
  // The running minimum

  /** `lowest = start; for p in ps: if p < lowest: lowest = p`. */
  function Lowest(start: int, ps: seq<int>): (r: int)
    ensures r <= start
    decreases |ps|
  {
    if |ps| == 0 then start
    else
      var m := Lowest(start, ps[..|ps| - 1]);
      if ps[|ps| - 1] < m then ps[|ps| - 1] else m
  }

  /** The scan yields the minimum of the start value and the prices: it is
      one of them and no larger than any. */
  lemma {:induction false} LowestSpec(start: int, ps: seq<int>)
    ensures Lowest(start, ps) <= start
    ensures forall i :: 0 <= i < |ps| ==> Lowest(start, ps) <= ps[i]
    ensures Lowest(start, ps) == start || Lowest(start, ps) in ps
    decreases |ps|
  {
    if |ps| > 0 {
      var front := ps[..|ps| - 1];
      LowestSpec(start, front);
      assert forall i :: 0 <= i < |front| ==> front[i] == ps[i];
    }
  }

  /** Scanning two pieces scans the second starting from the first's result. */
  lemma {:induction false} LowestConcat(start: int, a: seq<int>, b: seq<int>)
    ensures Lowest(start, a + b) == Lowest(Lowest(start, a), b)
    decreases |b|
  {
    if |b| == 0 {
      assert a + b == a;
    } else {
      var b' := b[..|b| - 1];
      assert (a + b)[..|a + b| - 1] == a + b';
      assert (a + b)[|a + b| - 1] == b[|b| - 1];
      LowestConcat(start, a, b');
    }
  }

  // ---------------------------------------------------------------------
  // Sorting and truncating a price list

  predicate Ascending(s: seq<int>) {
    forall i, j :: 0 <= i < j < |s| ==> s[i] <= s[j]
  }

  /** Where `x` goes in an ascending list: before the first element not smaller than it. */
  function Position(x: int, s: seq<int>): (k: nat)
    ensures k <= |s|
    decreases |s|
  {
    if |s| == 0 || x <= s[0] then 0 else 1 + Position(x, s[1..])
  }

  lemma {:induction false} PositionSpec(x: int, s: seq<int>)
    requires Ascending(s)
    ensures forall i :: 0 <= i < Position(x, s) ==> s[i] < x
    ensures forall i :: Position(x, s) <= i < |s| ==> x <= s[i]
    decreases |s|
  {
    if |s| > 0 && x > s[0] {
      PositionSpec(x, s[1..]);
      assert forall i :: 1 <= i < |s| ==> s[1..][i - 1] == s[i];
    }
  }

  function Insert(x: int, s: seq<int>): seq<int>
  {
    var k := Position(x, s);
    s[..k] + [x] + s[k..]
  }

  /** Inserting keeps the list ascending. */
  lemma InsertOrdered(x: int, s: seq<int>)
    requires Ascending(s)
    ensures Ascending(Insert(x, s))
  {
    var k := Position(x, s);
    var r := Insert(x, s);
    PositionSpec(x, s);
    assert forall i :: 0 <= i < k ==> r[i] == s[i];
    assert r[k] == x;
    assert forall i :: k < i < |r| ==> r[i] == s[i - 1];
  }

  /** `sorted(ps)`, by insertion in payload order. */
  function Sort(ps: seq<int>): seq<int>
    decreases |ps|
  {
    if |ps| == 0 then [] else Insert(ps[|ps| - 1], Sort(ps[..|ps| - 1]))
  }

  /** Sorting yields an ascending list with the same elements. */
  lemma {:induction false} SortSpec(ps: seq<int>)
    ensures Ascending(Sort(ps))
    ensures multiset(Sort(ps)) == multiset(ps)
    decreases |ps|
  {
    if |ps| > 0 {
      var front := ps[..|ps| - 1];
      SortSpec(front);
      Seqs.SpliceMultiset(Sort(front), Position(ps[|ps| - 1], Sort(front)), ps[|ps| - 1]);
      InsertOrdered(ps[|ps| - 1], Sort(front));
      assert ps == front + [ps[|ps| - 1]];
    }
  }

  /** Sorting keeps the length. */
  lemma SortLength(ps: seq<int>)
    ensures |Sort(ps)| == |ps|
  {
    SortSpec(ps);
    assert |multiset(Sort(ps))| == |Sort(ps)|;
    assert |multiset(ps)| == |ps|;
  }

  /** Python's `s[:n]` for `n >= 0`. */
  function Take(s: seq<int>, n: nat): (r: seq<int>)
    ensures |r| == if n < |s| then n else |s|
    ensures r <= s
  {
    if n < |s| then s[..n] else s
  }

  /** A prefix of an ascending list is ascending and holds its smallest elements. */
  lemma PrefixSmallest(s: seq<int>, t: seq<int>)
    requires Ascending(s) && t <= s
    ensures Ascending(t)
    ensures multiset(t) <= multiset(s)
    ensures forall x, i :: x in multiset(s) - multiset(t) && 0 <= i < |t| ==> t[i] <= x
  {
    var rest := s[|t|..];
    assert s == t + rest;
    assert multiset(s) == multiset(t) + multiset(rest);
    forall x, i | x in multiset(s) - multiset(t) && 0 <= i < |t|
      ensures t[i] <= x
    {
      assert x in multiset(rest);
      var j :| 0 <= j < |rest| && rest[j] == x;
      assert s[i] == t[i] && s[|t| + j] == x;
    }
  }

  /** The `k` smallest prices in ascending order: the first `k` of the sorted list. */
  lemma SmallestOfSorted(ps: seq<int>, k: nat)
    ensures Ascending(Take(Sort(ps), k))
    ensures multiset(Take(Sort(ps), k)) <= multiset(ps)
    ensures forall x, i :: x in multiset(ps) - multiset(Take(Sort(ps), k)) && 0 <= i < |Take(Sort(ps), k)| ==>
              Take(Sort(ps), k)[i] <= x
  {
    SortSpec(ps);
    PrefixSmallest(Sort(ps), Take(Sort(ps), k));
  }
}
