/** The spreadsheet reader of the first script generation: the "Prime"
    worksheet read three ways (every market name, the owned parts to sell,
    the parts still to buy), and the cell conversion used before rows are
    stored in the database. The sheet itself is an input. */
module Db {
  import opened Wrappers
  import Text
  import OrderedMap
  import PrimeSheet

  type Row = PrimeSheet.Row

  /** The status a finished set carries in its status column. */
  const Completed: string := "YES"

  const BuyRule: PrimeSheet.RowRule := PrimeSheet.SkipMarked(Completed)

  // ---------------------------------------------------------------------
  // get_all_prime_items

  /** Every part label of every row as a market name; nothing is parsed, so
      nothing can fail. */
  function AllPrimeItems(rows: seq<Row>): seq<string>
    requires PrimeSheet.WideRows(rows, 14)
  {
    PrimeSheet.NameList(rows, PrimeSheet.KeepAll, PrimeSheet.Listing)
  }

  /** The names one row yields, written out as the five `if len(label)`
      branches of the loop body. */
  function LabelledNames(row: Row): seq<string>
    requires |row| >= 14
  {
    (if |row[1]| > 0 then [PrimeSheet.ItemName(row[0], row[1])] else [])
    + (if |row[4]| > 0 then [PrimeSheet.ItemName(row[0], row[4])] else [])
    + (if |row[7]| > 0 then [PrimeSheet.ItemName(row[0], row[7])] else [])
    + (if |row[10]| > 0 then [PrimeSheet.ItemName(row[0], row[10])] else [])
    + (if |row[13]| > 0 then [PrimeSheet.ItemName(row[0], row[13])] else [])
  }

  /** The number of non-empty labels among columns 1, 4, 7, 10 and 13. */
  function LabelCount(rows: seq<Row>): nat
    requires PrimeSheet.WideRows(rows, 14)
    decreases |rows|
  {
    if |rows| == 0 then 0
    else
      var row := rows[|rows| - 1];
      LabelCount(rows[..|rows| - 1])
      + (if |row[1]| > 0 then 1 else 0) + (if |row[4]| > 0 then 1 else 0) + (if |row[7]| > 0 then 1 else 0)
      + (if |row[10]| > 0 then 1 else 0) + (if |row[13]| > 0 then 1 else 0)
  }

  lemma ListingRow(row: Row)
    requires |row| >= 14
    ensures PrimeSheet.RowNames(row, PrimeSheet.Listing) == LabelledNames(row)
  {
    PrimeSheet.RowNamesInColumns(row, PrimeSheet.Listing);
  }

  /** The list starts empty and each row appends its labelled names, blueprint
      first: row order, then column order. */
  lemma AllPrimeItemsAppend(rows: seq<Row>, row: Row)
    requires PrimeSheet.WideRows(rows + [row], 14)
    ensures PrimeSheet.WideRows(rows, 14) && |row| >= 14
    ensures AllPrimeItems([]) == []
    ensures AllPrimeItems(rows + [row]) == AllPrimeItems(rows) + LabelledNames(row)
  {
    PrimeSheet.NameListSnoc(rows, PrimeSheet.KeepAll, PrimeSheet.Listing, row);
    ListingRow(row);
  }

  /** One name per non-empty label. */
  lemma {:induction false} AllPrimeItemsCount(rows: seq<Row>)
    requires PrimeSheet.WideRows(rows, 14)
    ensures |AllPrimeItems(rows)| == LabelCount(rows)
    decreases |rows|
  {
    if |rows| > 0 {
      var last := |rows| - 1;
      PrimeSheet.SplitLast(rows);
      AllPrimeItemsAppend(rows[..last], rows[last]);
      AllPrimeItemsCount(rows[..last]);
    }
  }

  /** A name is listed exactly when some row has a non-empty label that
      yields it. */
  lemma AllPrimeItemsMembers(rows: seq<Row>, n: string)
    requires PrimeSheet.WideRows(rows, 14)
    ensures n in AllPrimeItems(rows) <==>
            exists i, j :: 0 <= i < |rows| && 0 <= j < PrimeSheet.Parts
                           && |PrimeSheet.Label(rows[i], j)| > 0 && PrimeSheet.PartName(rows[i], j) == n
  {
    PrimeSheet.NamesMembers(rows, PrimeSheet.KeepAll, PrimeSheet.Listing, n);
    if n in AllPrimeItems(rows) {
      var i, j :| 0 <= i < |rows| && 0 <= j < PrimeSheet.Parts
                  && PrimeSheet.NamedIn(rows[i], PrimeSheet.KeepAll, PrimeSheet.Listing, j, n);
      assert |PrimeSheet.Label(rows[i], j)| > 0 && PrimeSheet.PartName(rows[i], j) == n;
    } else {
      forall i, j | 0 <= i < |rows| && 0 <= j < PrimeSheet.Parts
        ensures !(|PrimeSheet.Label(rows[i], j)| > 0 && PrimeSheet.PartName(rows[i], j) == n)
      {
        assert !PrimeSheet.NamedIn(rows[i], PrimeSheet.KeepAll, PrimeSheet.Listing, j, n);
      }
    }
  }

  /** Every listed name is `<base>_prime_<label>` lower-cased with spaces
      replaced, and so holds no space and no upper-case letter. */
  lemma AllPrimeItemsShape(rows: seq<Row>, n: string)
    requires PrimeSheet.WideRows(rows, 14) && n in AllPrimeItems(rows)
    ensures Text.NoSpaces(n) && Text.NoUpper(n)
    ensures exists i, j :: 0 <= i < |rows| && 0 <= j < PrimeSheet.Parts &&
              n == Text.Lower(Text.Underscored(rows[i][0])) + "_prime_" + Text.Lower(Text.Underscored(PrimeSheet.Label(rows[i], j)))
  {
    AllPrimeItemsMembers(rows, n);
    var i, j :| 0 <= i < |rows| && 0 <= j < PrimeSheet.Parts
                && |PrimeSheet.Label(rows[i], j)| > 0 && PrimeSheet.PartName(rows[i], j) == n;
    PrimeSheet.ItemNameShape(rows[i][0], PrimeSheet.Label(rows[i], j));
  }

  // ---------------------------------------------------------------------
  // get_items_to_sell

  /** Owned parts with their quantities; a blank quantity reads as 0. */
  function ItemsToSell(rows: seq<Row>): (r: Result<OrderedMap.Dict<int>, PrimeSheet.SheetError>)
    requires PrimeSheet.WideRows(rows, 15)
    ensures r.Success? <==> forall i :: 0 <= i < |rows| ==> PrimeSheet.RowParses(rows[i])
    ensures r.Failure? ==> PrimeSheet.FirstError(rows, PrimeSheet.KeepAll, r.error)
  {
    PrimeSheet.AllParseRows(rows, PrimeSheet.KeepAll);
    PrimeSheet.OwnedItems(rows, PrimeSheet.KeepAll)
  }

  /** Part `j` of `row` is labelled, its quantity cell is not blank, and it
      holds a positive integer: what `len(label) and quantity > 0` accepts. */
  predicate ForSale(row: Row, j: nat)
    requires |row| >= 15 && j < PrimeSheet.Parts
  {
    var cell := row[PrimeSheet.QuantityColumn(j)];
    && |PrimeSheet.Label(row, j)| > 0 && |cell| > 0
    && Text.ParseInt(cell).Some? && Text.ParseInt(cell).value > 0
  }

  lemma ForSaleOwned(row: Row, j: nat)
    requires |row| >= 15 && PrimeSheet.RowParses(row) && j < PrimeSheet.Parts
    ensures ForSale(row, j) <==> PrimeSheet.Owned(row, j)
  {
  }

  /** The dictionary has distinct keys; a key is present exactly when some
      part for sale carries that name, and then holds a positive quantity. */
  lemma ItemsToSellKeys(rows: seq<Row>, k: string)
    requires PrimeSheet.WideRows(rows, 15) && ItemsToSell(rows).Success?
    ensures OrderedMap.Valid(ItemsToSell(rows).value)
    ensures k in OrderedMap.Keys(ItemsToSell(rows).value) <==>
            exists i, j :: 0 <= i < |rows| && 0 <= j < PrimeSheet.Parts
                           && ForSale(rows[i], j) && PrimeSheet.PartName(rows[i], j) == k
    ensures OrderedMap.Get(ItemsToSell(rows).value, k).Some? ==> OrderedMap.Get(ItemsToSell(rows).value, k).value > 0
  {
    var rule := PrimeSheet.KeepAll;
    PrimeSheet.OwnedItemsLookup(rows, rule, k);
    PrimeSheet.LastOwnedNone(rows, rule, k);
    if exists i, j :: 0 <= i < |rows| && 0 <= j < PrimeSheet.Parts && ForSale(rows[i], j) && PrimeSheet.PartName(rows[i], j) == k {
      var i, j :| 0 <= i < |rows| && 0 <= j < PrimeSheet.Parts && ForSale(rows[i], j) && PrimeSheet.PartName(rows[i], j) == k;
      ForSaleOwned(rows[i], j);
      assert PrimeSheet.OwnedIn(rows[i], rule, j, k);
    }
    if OrderedMap.Get(ItemsToSell(rows).value, k).Some? {
      var i, j := PrimeSheet.LastOwnedWitness(rows, rule, k);
      ForSaleOwned(rows[i], j);
    }
  }

  /** When several parts share a name, the last one for sale, rows top to
      bottom and columns left to right, sets the quantity. */
  lemma ItemsToSellLastWins(rows: seq<Row>, i: nat, j: nat)
    requires PrimeSheet.WideRows(rows, 15) && ItemsToSell(rows).Success?
    requires i < |rows| && j < PrimeSheet.Parts && ForSale(rows[i], j)
    requires forall j' :: j < j' < PrimeSheet.Parts ==>
               !(ForSale(rows[i], j') && PrimeSheet.PartName(rows[i], j') == PrimeSheet.PartName(rows[i], j))
    requires forall i', j' :: i < i' < |rows| && 0 <= j' < PrimeSheet.Parts ==>
               !(ForSale(rows[i'], j') && PrimeSheet.PartName(rows[i'], j') == PrimeSheet.PartName(rows[i], j))
    ensures OrderedMap.Get(ItemsToSell(rows).value, PrimeSheet.PartName(rows[i], j))
            == Some(PrimeSheet.Quantity(rows[i], j, 0))
  {
    var rule := PrimeSheet.KeepAll;
    var k := PrimeSheet.PartName(rows[i], j);
    PrimeSheet.OwnedItemsLookup(rows, rule, k);
    ForSaleOwned(rows[i], j);
    forall j' | j < j' < PrimeSheet.Parts
      ensures !PrimeSheet.OwnedIn(rows[i], rule, j', k)
    {
      ForSaleOwned(rows[i], j');
    }
    forall i', j' | i < i' < |rows| && 0 <= j' < PrimeSheet.Parts
      ensures !PrimeSheet.OwnedIn(rows[i'], rule, j', k)
    {
      ForSaleOwned(rows[i'], j');
    }
    PrimeSheet.LaterPartWins(rows, rule, i, j, k);
  }

  // ---------------------------------------------------------------------
  // get_items_to_buy

  /** Parts still needed, from rows not marked complete. */
  function ItemsToBuy(rows: seq<Row>): (r: Result<seq<string>, PrimeSheet.SheetError>)
    requires PrimeSheet.WideRows(rows, 17)
    ensures r.Success? <==> forall i :: 0 <= i < |rows| ==> rows[i][16] == Completed || PrimeSheet.RowParses(rows[i])
    ensures r.Failure? ==> PrimeSheet.FirstError(rows, BuyRule, r.error)
  {
    PrimeSheet.AllParseRows(rows, BuyRule);
    PrimeSheet.Names(rows, BuyRule, PrimeSheet.Needing)
  }

  /** Part `j` of a row not marked complete is labelled and reads as exactly
      0, a blank cell reading as -1 except in the last component. */
  predicate Needed(row: Row, j: nat)
    requires |row| >= 17 && PrimeSheet.RowParses(row) && j < PrimeSheet.Parts
  {
    && row[16] != Completed && |PrimeSheet.Label(row, j)| > 0
    && PrimeSheet.Quantity(row, j, if j == 4 then 0 else -1) == 0
  }

  /** A name is listed exactly when some needed part carries it. */
  lemma ItemsToBuyMembers(rows: seq<Row>, n: string)
    requires PrimeSheet.WideRows(rows, 17) && ItemsToBuy(rows).Success?
    ensures n in ItemsToBuy(rows).value <==>
            exists i, j :: 0 <= i < |rows| && 0 <= j < PrimeSheet.Parts
                           && PrimeSheet.RowParses(rows[i]) && Needed(rows[i], j) && PrimeSheet.PartName(rows[i], j) == n
  {
    var sel := PrimeSheet.Needing;
    PrimeSheet.NamesMembers(rows, BuyRule, sel, n);
    if n in ItemsToBuy(rows).value {
      var i, j :| 0 <= i < |rows| && 0 <= j < PrimeSheet.Parts && PrimeSheet.NamedIn(rows[i], BuyRule, sel, j, n);
      assert PrimeSheet.RowParses(rows[i]) && Needed(rows[i], j);
    } else {
      forall i, j | 0 <= i < |rows| && 0 <= j < PrimeSheet.Parts && PrimeSheet.RowParses(rows[i])
        ensures !(Needed(rows[i], j) && PrimeSheet.PartName(rows[i], j) == n)
      {
        assert !PrimeSheet.NamedIn(rows[i], BuyRule, sel, j, n);
      }
    }
  }

  /** The blank-cell quirk: of the labelled parts with a blank quantity in a
      row not marked complete, only the last component is listed. */
  lemma ItemsToBuyBlank(rows: seq<Row>, i: nat, j: nat)
    requires PrimeSheet.WideRows(rows, 17) && ItemsToBuy(rows).Success?
    requires i < |rows| && j < PrimeSheet.Parts && rows[i][16] != Completed
    requires |PrimeSheet.Label(rows[i], j)| > 0 && |rows[i][PrimeSheet.QuantityColumn(j)]| == 0
    ensures PrimeSheet.RowParses(rows[i])
    ensures Needed(rows[i], j) <==> j == 4
    ensures j == 4 ==> PrimeSheet.PartName(rows[i], j) in ItemsToBuy(rows).value
  {
    PrimeSheet.AllParseRows(rows, BuyRule);
    assert PrimeSheet.RowReadable(rows[i], BuyRule);
    if j == 4 {
      PrimeSheet.NamesComplete(rows, BuyRule, PrimeSheet.Needing, i, j, PrimeSheet.PartName(rows[i], j));
    }
  }

  /** A row marked complete changes nothing, whatever its cells hold: not
      the list, and not the error. */
  lemma ItemsToBuyCompleted(rows: seq<Row>, row: Row)
    requires PrimeSheet.WideRows(rows, 17) && |row| >= 17 && row[16] == Completed
    ensures PrimeSheet.WideRows(rows + [row], 17)
    ensures ItemsToBuy(rows + [row]) == ItemsToBuy(rows)
  {
    var rx := rows + [row];
    assert rx[..|rows|] == rows && rx[|rows|] == row;
    assert forall i :: 0 <= i < |rows| ==> rx[i] == rows[i];
    assert PrimeSheet.Skipped(row, BuyRule);
    PrimeSheet.AllParseSnoc(rows, BuyRule, row);
    if PrimeSheet.AllParse(rows, BuyRule) {
      assert PrimeSheet.RowReadable(row, BuyRule);
      assert PrimeSheet.AllParse(rx, BuyRule);
      PrimeSheet.NameListSnoc(rows, BuyRule, PrimeSheet.Needing, row);
      assert PrimeSheet.NameList(rx, BuyRule, PrimeSheet.Needing) == PrimeSheet.NameList(rows, BuyRule, PrimeSheet.Needing);
      assert PrimeSheet.Names(rx, BuyRule, PrimeSheet.Needing) == Success(PrimeSheet.NameList(rows, BuyRule, PrimeSheet.Needing));
    } else {
      assert PrimeSheet.ParseError(rx, BuyRule) == PrimeSheet.ParseError(rows, BuyRule);
    }
  }

  // ---------------------------------------------------------------------
  // num

  /** A converted cell: a number, or the cell's text when it is none. */
  datatype Cell = Number(n: int) | Word(w: string)

  /** `YES` and `NO` become 1 and 0, integer strings their value, and any
      other string is returned unchanged. */
  function Num(s: string): (c: Cell)
    ensures c.Number? <==> s == "YES" || s == "NO" || Text.ParseInt(s).Some?
    ensures c.Word? ==> c.w == s
  {
    if s == "YES" then Number(1)
    else if s == "NO" then Number(0)
    else match Text.ParseInt(s)
      case Some(v) => Number(v)
      case None => Word(s)
  }

  /** A printed integer converts back to itself. */
  lemma NumOfString(n: int)
    ensures Num(Text.IntToString(n)) == Number(n)
  {
    var s := Text.IntToString(n);
    Text.ParseIntOfString(n);
    assert s[0] == '-' || Text.IsDigit(s[0]);
    assert s[0] != "YES"[0] && s[0] != "NO"[0];
  }
}
