/** The spreadsheet reader of the later script generation. The "Prime"
    worksheet is read as before with two extra skips (a Kavasa row in the
    name list, rows marked `BUILD` in the owned parts), and two further
    worksheets, Items and Mods, list a name and a count per row. */
module GoogleSheets {
  import opened Wrappers
  import Text
  import OrderedMap
  import PrimeSheet
  import Db

  type Row = PrimeSheet.Row

  /** The status of a set kept for building rather than selling. */
  const Build: string := "BUILD"

  const SellRule: PrimeSheet.RowRule := PrimeSheet.SkipMarked(Build)

  /** A row whose base name, spaces replaced, lower-cases to `kavasa`, and
      whose blueprint label is not empty: the blueprint branch `continue`s
      and its components are passed over too. */
  predicate IsKavasa(row: Row)
    requires |row| >= 14
  {
    |row[1]| > 0 && Text.Lower(Text.Underscored(row[0])) == "kavasa"
  }

  // ---------------------------------------------------------------------
  // get_all_prime_items

  function AllPrimeItems(rows: seq<Row>): seq<string>
    requires PrimeSheet.WideRows(rows, 14)
  {
    PrimeSheet.NameList(rows, PrimeSheet.SkipKavasa, PrimeSheet.Listing)
  }

  /** Each row appends its labelled names, as in the first generation, except
      that a Kavasa row appends nothing. */
  lemma AllPrimeItemsAppend(rows: seq<Row>, row: Row)
    requires PrimeSheet.WideRows(rows + [row], 14)
    ensures PrimeSheet.WideRows(rows, 14) && |row| >= 14
    ensures AllPrimeItems([]) == []
    ensures AllPrimeItems(rows + [row]) == AllPrimeItems(rows) + (if IsKavasa(row) then [] else Db.LabelledNames(row))
  {
    PrimeSheet.NameListSnoc(rows, PrimeSheet.SkipKavasa, PrimeSheet.Listing, row);
    Db.ListingRow(row);
  }

  /** The list is the first generation's list of the sheet with its Kavasa
      rows deleted. */
  lemma AllPrimeItemsWithoutKavasa(rows: seq<Row>)
    requires PrimeSheet.WideRows(rows, 14)
    ensures PrimeSheet.WideRows(PrimeSheet.Kept(rows, PrimeSheet.SkipKavasa), 14)
    ensures forall row :: row in PrimeSheet.Kept(rows, PrimeSheet.SkipKavasa) <==> row in rows && !IsKavasa(row)
    ensures AllPrimeItems(rows) == Db.AllPrimeItems(PrimeSheet.Kept(rows, PrimeSheet.SkipKavasa))
  {
    PrimeSheet.KeptNameList(rows, PrimeSheet.SkipKavasa, PrimeSheet.Listing);
    forall row
      ensures row in PrimeSheet.Kept(rows, PrimeSheet.SkipKavasa) <==> row in rows && !IsKavasa(row)
    {
      PrimeSheet.KeptMembers(rows, PrimeSheet.SkipKavasa, row);
    }
  }

  /** A name is listed exactly when a labelled part of a row that is not a
      Kavasa row yields it. */
  lemma AllPrimeItemsMembers(rows: seq<Row>, n: string)
    requires PrimeSheet.WideRows(rows, 14)
    ensures n in AllPrimeItems(rows) <==>
            exists i, j :: 0 <= i < |rows| && 0 <= j < PrimeSheet.Parts && !IsKavasa(rows[i])
                           && |PrimeSheet.Label(rows[i], j)| > 0 && PrimeSheet.PartName(rows[i], j) == n
  {
    var rule := PrimeSheet.SkipKavasa;
    PrimeSheet.NamesMembers(rows, rule, PrimeSheet.Listing, n);
    if n in AllPrimeItems(rows) {
      var i, j :| 0 <= i < |rows| && 0 <= j < PrimeSheet.Parts && PrimeSheet.NamedIn(rows[i], rule, PrimeSheet.Listing, j, n);
      assert !IsKavasa(rows[i]) && |PrimeSheet.Label(rows[i], j)| > 0 && PrimeSheet.PartName(rows[i], j) == n;
    } else {
      forall i, j | 0 <= i < |rows| && 0 <= j < PrimeSheet.Parts
        ensures !(!IsKavasa(rows[i]) && |PrimeSheet.Label(rows[i], j)| > 0 && PrimeSheet.PartName(rows[i], j) == n)
      {
        assert !PrimeSheet.NamedIn(rows[i], rule, PrimeSheet.Listing, j, n);
      }
    }
  }

  // ---------------------------------------------------------------------
  // get_prime_items_to_sell

  /** Owned parts with their quantities, rows marked `BUILD` passed over
      before any cell is read. */
  function PrimeItemsToSell(rows: seq<Row>): (r: Result<OrderedMap.Dict<int>, PrimeSheet.SheetError>)
    requires PrimeSheet.WideRows(rows, 17)
    ensures r.Success? <==> forall i :: 0 <= i < |rows| ==> rows[i][16] == Build || PrimeSheet.RowParses(rows[i])
    ensures r.Failure? ==> PrimeSheet.FirstError(rows, SellRule, r.error)
  {
    PrimeSheet.AllParseRows(rows, SellRule);
    PrimeSheet.OwnedItems(rows, SellRule)
  }

  /** The dictionary is the first generation's dictionary of the sheet with
      its `BUILD` rows deleted, and exists exactly when that one does. */
  lemma PrimeItemsToSellWithoutBuild(rows: seq<Row>)
    requires PrimeSheet.WideRows(rows, 17)
    ensures PrimeSheet.WideRows(PrimeSheet.Kept(rows, SellRule), 15)
    ensures PrimeItemsToSell(rows).Success? <==> Db.ItemsToSell(PrimeSheet.Kept(rows, SellRule)).Success?
    ensures PrimeItemsToSell(rows).Success? ==>
              PrimeItemsToSell(rows).value == Db.ItemsToSell(PrimeSheet.Kept(rows, SellRule)).value
  {
    var kept := PrimeSheet.Kept(rows, SellRule);
    PrimeSheet.KeptParse(rows, SellRule);
    PrimeSheet.KeptWide(rows, SellRule, 15);
    if PrimeSheet.AllParse(rows, SellRule) {
      PrimeSheet.KeptOwnedDict(rows, SellRule);
    }
  }

  /** A key is present exactly when a part for sale in a row not marked
      `BUILD` carries that name, and its quantity is positive. */
  lemma PrimeItemsToSellKeys(rows: seq<Row>, k: string)
    requires PrimeSheet.WideRows(rows, 17) && PrimeItemsToSell(rows).Success?
    ensures OrderedMap.Valid(PrimeItemsToSell(rows).value)
    ensures k in OrderedMap.Keys(PrimeItemsToSell(rows).value) <==>
            exists i, j :: 0 <= i < |rows| && 0 <= j < PrimeSheet.Parts && rows[i][16] != Build
                           && Db.ForSale(rows[i], j) && PrimeSheet.PartName(rows[i], j) == k
    ensures OrderedMap.Get(PrimeItemsToSell(rows).value, k).Some? ==> OrderedMap.Get(PrimeItemsToSell(rows).value, k).value > 0
  {
    PrimeSheet.OwnedItemsLookup(rows, SellRule, k);
    PrimeSheet.LastOwnedNone(rows, SellRule, k);
    PrimeSheet.AllParseRows(rows, SellRule);
    if exists i, j :: 0 <= i < |rows| && 0 <= j < PrimeSheet.Parts && rows[i][16] != Build
                      && Db.ForSale(rows[i], j) && PrimeSheet.PartName(rows[i], j) == k {
      var i, j :| 0 <= i < |rows| && 0 <= j < PrimeSheet.Parts && rows[i][16] != Build
                  && Db.ForSale(rows[i], j) && PrimeSheet.PartName(rows[i], j) == k;
      assert PrimeSheet.RowReadable(rows[i], SellRule);
      Db.ForSaleOwned(rows[i], j);
      assert PrimeSheet.OwnedIn(rows[i], SellRule, j, k);
    }
    if OrderedMap.Get(PrimeItemsToSell(rows).value, k).Some? {
      var i, j := PrimeSheet.LastOwnedWitness(rows, SellRule, k);
      Db.ForSaleOwned(rows[i], j);
    }
  }

  // ---------------------------------------------------------------------
  // get_prime_items_to_buy

  function PrimeItemsToBuy(rows: seq<Row>): Result<seq<string>, PrimeSheet.SheetError>
    requires PrimeSheet.WideRows(rows, 17)
  {
    PrimeSheet.Names(rows, PrimeSheet.SkipMarked("YES"), PrimeSheet.Needing)
  }

  /** The buy list is unchanged from the first generation, blank-cell quirk
      included. The two loops are the same line for line, so `PrimeItemsToBuy`
      is defined by the same expression as `Db.ItemsToBuy` and this holds by
      definition; the buy list's properties are the ones proved in `Db`. */
  lemma PrimeItemsToBuySameAsDb(rows: seq<Row>)
    requires PrimeSheet.WideRows(rows, 17)
    ensures PrimeItemsToBuy(rows) == Db.ItemsToBuy(rows)
  {
  }

  // ---------------------------------------------------------------------
  // get_items_to_sell and get_mods_to_sell: a name and a count per row

  predicate CountsParse(rows: seq<Row>)
    requires PrimeSheet.WideRows(rows, 2)
  {
    forall i :: 0 <= i < |rows| ==> Text.ParseInt(rows[i][1]).Some?
  }

  /** `int(row[1])`: there is no blank-cell default on these sheets. */
  function Count(row: Row): int
    requires |row| >= 2 && Text.ParseInt(row[1]).Some?
  {
    Text.ParseInt(row[1]).value
  }

  /** `len(base_name) and quantity > 0`. */
  predicate Counted(row: Row)
    requires |row| >= 2 && Text.ParseInt(row[1]).Some?
  {
    |row[0]| > 0 && Count(row) > 0
  }

  /** The assignments `owned_items[base_name] = quantity` of the loop, in row order. */
  function CountEntries(rows: seq<Row>): (es: seq<(string, int)>)
    requires PrimeSheet.WideRows(rows, 2) && CountsParse(rows)
    ensures |es| <= |rows|
    decreases |rows|
  {
    if |rows| == 0 then []
    else
      var last := |rows| - 1;
      PrimeSheet.SplitLast(rows);
      CountEntries(rows[..last]) + (if Counted(rows[last]) then [(rows[last][0], Count(rows[last]))] else [])
  }

  /** The first row whose count `int()` rejects. */
  function FirstUncounted(rows: seq<Row>): (i: nat)
    requires PrimeSheet.WideRows(rows, 2) && !CountsParse(rows)
    ensures i < |rows| && Text.ParseInt(rows[i][1]).None?
    ensures forall i' :: 0 <= i' < i ==> Text.ParseInt(rows[i'][1]).Some?
    decreases |rows|
  {
    var last := |rows| - 1;
    PrimeSheet.SplitLast(rows);
    if !CountsParse(rows[..last]) then FirstUncounted(rows[..last]) else last
  }

  /** The loop of both functions: the first count `int()` rejects raises,
      otherwise every named row with a positive count is stored under its
      name, verbatim. */
  function CountedItems(rows: seq<Row>): (r: Result<OrderedMap.Dict<int>, PrimeSheet.SheetError>)
    requires PrimeSheet.WideRows(rows, 2)
    ensures r.Success? <==> CountsParse(rows)
    ensures r.Failure? ==>
              && r.error.column == 1 && r.error.row < |rows| && Text.ParseInt(rows[r.error.row][1]).None?
              && forall i :: 0 <= i < r.error.row ==> Text.ParseInt(rows[i][1]).Some?
  {
    if CountsParse(rows) then Success(OrderedMap.PutAll(OrderedMap.Empty(), CountEntries(rows)))
    else Failure(PrimeSheet.BadQuantity(FirstUncounted(rows), 1))
  }

  function ItemsToSell(rows: seq<Row>): Result<OrderedMap.Dict<int>, PrimeSheet.SheetError>
    requires PrimeSheet.WideRows(rows, 2)
  {
    CountedItems(rows)
  }

  function ModsToSell(rows: seq<Row>): Result<OrderedMap.Dict<int>, PrimeSheet.SheetError>
    requires PrimeSheet.WideRows(rows, 2)
  {
    CountedItems(rows)
  }

  /** Searching from the bottom: the count of the last counted row named `k`. */
  function LastCount(rows: seq<Row>, k: string): (r: Option<int>)
    requires PrimeSheet.WideRows(rows, 2) && CountsParse(rows)
    ensures r.Some? ==> r.value > 0
    decreases |rows|
  {
    if |rows| == 0 then None
    else
      var last := |rows| - 1;
      PrimeSheet.SplitLast(rows);
      if Counted(rows[last]) && rows[last][0] == k then Some(Count(rows[last])) else LastCount(rows[..last], k)
  }

  lemma {:induction false} CountEntriesLast(rows: seq<Row>, k: string)
    requires PrimeSheet.WideRows(rows, 2) && CountsParse(rows)
    ensures OrderedMap.LastValue(CountEntries(rows), k) == LastCount(rows, k)
    decreases |rows|
  {
    if |rows| > 0 {
      var last := |rows| - 1;
      PrimeSheet.SplitLast(rows);
      var e := if Counted(rows[last]) then [(rows[last][0], Count(rows[last]))] else [];
      OrderedMap.LastValueConcat(CountEntries(rows[..last]), e, k);
      CountEntriesLast(rows[..last], k);
      if Counted(rows[last]) {
        assert e[..0] == [];
      }
    }
  }

  /** A value found is that of a counted row named `k` with no counted row
      of that name below it. */
  lemma {:induction false} LastCountWitness(rows: seq<Row>, k: string) returns (i: nat)
    requires PrimeSheet.WideRows(rows, 2) && CountsParse(rows) && LastCount(rows, k).Some?
    ensures i < |rows| && Counted(rows[i]) && rows[i][0] == k && LastCount(rows, k).value == Count(rows[i])
    ensures forall i' :: i < i' < |rows| ==> !(Counted(rows[i']) && rows[i'][0] == k)
    decreases |rows|
  {
    var last := |rows| - 1;
    PrimeSheet.SplitLast(rows);
    if Counted(rows[last]) && rows[last][0] == k {
      i := last;
    } else {
      i := LastCountWitness(rows[..last], k);
      assert rows[..last][i] == rows[i];
    }
  }

  lemma {:induction false} LastCountFound(rows: seq<Row>, k: string, i: nat)
    requires PrimeSheet.WideRows(rows, 2) && CountsParse(rows)
    requires i < |rows| && Counted(rows[i]) && rows[i][0] == k
    ensures LastCount(rows, k).Some?
    decreases |rows|
  {
    var last := |rows| - 1;
    PrimeSheet.SplitLast(rows);
    if i < last && !(Counted(rows[last]) && rows[last][0] == k) {
      LastCountFound(rows[..last], k, i);
    }
  }

  /** The dictionary has distinct keys and no more entries than rows; each
      key holds the count of the last counted row with that name. */
  lemma CountedLookup(rows: seq<Row>, k: string)
    requires PrimeSheet.WideRows(rows, 2) && CountedItems(rows).Success?
    ensures OrderedMap.Valid(CountedItems(rows).value)
    ensures |CountedItems(rows).value| <= |rows|
    ensures OrderedMap.Get(CountedItems(rows).value, k) == LastCount(rows, k)
  {
    var es := CountEntries(rows);
    OrderedMap.PutAllGet(OrderedMap.Empty(), es, k);
    OrderedMap.PutAllKeys(OrderedMap.Empty(), es);
    CountEntriesLast(rows, k);
  }

  /** A name is a key exactly when some row with that name, verbatim, has a
      positive count; its value is positive and comes from the last such row. */
  lemma CountedKeys(rows: seq<Row>, k: string)
    requires PrimeSheet.WideRows(rows, 2) && CountedItems(rows).Success?
    ensures k in OrderedMap.Keys(CountedItems(rows).value) <==>
            exists i :: 0 <= i < |rows| && Counted(rows[i]) && rows[i][0] == k
    ensures OrderedMap.Get(CountedItems(rows).value, k).Some? ==>
              exists i :: && 0 <= i < |rows| && Counted(rows[i]) && rows[i][0] == k
                          && OrderedMap.Get(CountedItems(rows).value, k).value == Count(rows[i]) > 0
                          && forall i' :: i < i' < |rows| ==> !(Counted(rows[i']) && rows[i'][0] == k)
  {
    CountedLookup(rows, k);
    if LastCount(rows, k).Some? {
      var i := LastCountWitness(rows, k);
    }
    if exists i :: 0 <= i < |rows| && Counted(rows[i]) && rows[i][0] == k {
      var i :| 0 <= i < |rows| && Counted(rows[i]) && rows[i][0] == k;
      LastCountFound(rows, k, i);
    }
  }
}
