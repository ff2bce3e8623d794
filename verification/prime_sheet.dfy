/** The fixed column layout of the "Prime" worksheet and the three ways the
    scripts read it: every part name, the parts owned (name to quantity), and
    the parts still needed.

    A row holds a base item name in column 0, then five parts (the blueprint
    and four components), part `j` having its label in column `1 + 3j` and its
    quantity in column `2 + 3j`; column 16 is a status marker. */
module PrimeSheet {
  import opened Wrappers
  import Text
  import OrderedMap

  type Row = seq<string>

  /** Blueprint plus four components. */
  const Parts: nat := 5
  const StatusColumn: nat := 16

  function LabelColumn(j: nat): nat
    requires j < Parts
  {
    1 + 3 * j
  }

  function QuantityColumn(j: nat): nat
    requires j < Parts
  {
    2 + 3 * j
  }

  /** Which rows a loop passes over with `continue` before reading any part. */
  datatype RowRule =
    | KeepAll
      /** A row whose base name lower-cases to `kavasa` and whose blueprint label is not empty. */
    | SkipKavasa
      /** A row whose status column holds exactly `marker`. */
    | SkipMarked(marker: string)

  /** Columns a row must have: the scripts index them without a length check. */
  function Width(rule: RowRule, readsQuantities: bool): nat {
    if rule.SkipMarked? then StatusColumn + 1 else if readsQuantities then 15 else 14
  }

  predicate WideRows(rows: seq<Row>, w: nat) {
    forall i :: 0 <= i < |rows| ==> |rows[i]| >= w
  }

  /** A non-empty sequence is its front followed by its last element. */
  lemma SplitLast<T>(s: seq<T>)
    requires |s| > 0
    ensures s == s[..|s| - 1] + [s[|s| - 1]]
    ensures forall i :: 0 <= i < |s| - 1 ==> s[..|s| - 1][i] == s[i]
  {
  }

  /** The rule passes over `row`; on rows of the rule's width the length
      guards always hold. */
  predicate Skipped(row: Row, rule: RowRule) {
    match rule
    case KeepAll => false
    case SkipKavasa => |row| > 1 && |row[1]| > 0 && Text.Lower(Text.Underscored(row[0])) == "kavasa"
    case SkipMarked(m) => |row| > StatusColumn && row[StatusColumn] == m
  }

  /** `f'{base}_prime_{label}'.lower()` with spaces in both parts replaced by `_`. */
  function ItemName(base: string, part: string): string {
    Text.Lower(Text.Underscored(base) + "_prime_" + Text.Underscored(part))
  }

  /** A market name is the lower-cased, underscored base and part joined by
      `_prime_`, and holds no space and no upper-case letter. */
  lemma ItemNameShape(base: string, part: string)
    ensures ItemName(base, part) == Text.Lower(Text.Underscored(base)) + "_prime_" + Text.Lower(Text.Underscored(part))
    ensures Text.NoSpaces(ItemName(base, part)) && Text.NoUpper(ItemName(base, part))
  {
    Text.LowerConcat(Text.Underscored(base) + "_prime_", Text.Underscored(part));
    Text.LowerConcat(Text.Underscored(base), "_prime_");
  }

  function Label(row: Row, j: nat): string
    requires |row| >= 14 && j < Parts
  {
    row[LabelColumn(j)]
  }

  function PartName(row: Row, j: nat): string
    requires |row| >= 14 && j < Parts
  {
    ItemName(row[0], Label(row, j))
  }

  /** The five part labels of a row, blueprint first. */
  function Labels(row: Row): (ls: seq<string>)
    requires |row| >= 14
    ensures |ls| == Parts
    ensures forall j :: 0 <= j < Parts ==> ls[j] == Label(row, j)
  {
    [row[1], row[4], row[7], row[10], row[13]]
  }

  // ---------------------------------------------------------------------
  // Quantity cells: `int(cell) if len(cell) else <blank value>`

  predicate CellParses(cell: string) {
    |cell| == 0 || Text.ParseInt(cell).Some?
  }

  /** All five quantity cells of the row can be read; the scripts read all of
      them before looking at any label. */
  predicate RowParses(row: Row)
    requires |row| >= 15
  {
    forall j :: 0 <= j < Parts ==> CellParses(row[QuantityColumn(j)])
  }

  function Quantity(row: Row, j: nat, blank: int): (q: int)
    requires |row| >= 15 && j < Parts && RowParses(row)
    ensures |row[QuantityColumn(j)]| == 0 ==> q == blank
    ensures |row[QuantityColumn(j)]| > 0 ==> Text.ParseInt(row[QuantityColumn(j)]) == Some(q)
  {
    var cell := row[QuantityColumn(j)];
    if |cell| == 0 then blank else Text.ParseInt(cell).value
  }

  /** The value the buy lists give a blank quantity cell: -1 for the
      blueprint and the first three components, but 0 for the fourth. */
  function BuyBlank(j: nat): int {
    if j == Parts - 1 then 0 else -1
  }

  /** The first part of the row whose quantity cell cannot be read. */
  function FirstBadPart(row: Row): (j: nat)
    requires |row| >= 15 && !RowParses(row)
    ensures j < Parts && !CellParses(row[QuantityColumn(j)])
    ensures forall j' :: 0 <= j' < j ==> CellParses(row[QuantityColumn(j')])
  {
    if !CellParses(row[2]) then 0
    else if !CellParses(row[5]) then 1
    else if !CellParses(row[8]) then 2
    else if !CellParses(row[11]) then 3
    else 4
  }

  /** The `ValueError` `int()` raises, located at its sheet row and column. */
  datatype SheetError = BadQuantity(row: nat, column: nat)

  /** The quantities a loop reads can all be read: the row is skipped, or
      every quantity cell parses. */
  predicate RowReadable(row: Row, rule: RowRule)
    requires |row| >= Width(rule, true)
  {
    Skipped(row, rule) || RowParses(row)
  }

  /** Every row the loop does not skip has readable quantities. */
  predicate AllParse(rows: seq<Row>, rule: RowRule)
    requires WideRows(rows, Width(rule, true))
    decreases |rows|
  {
    |rows| == 0 || (AllParse(rows[..|rows| - 1], rule) && RowReadable(rows[|rows| - 1], rule))
  }

  /** The loop reads every row it does not skip. */
  lemma {:induction false} AllParseRows(rows: seq<Row>, rule: RowRule)
    requires WideRows(rows, Width(rule, true))
    ensures AllParse(rows, rule) <==> forall i :: 0 <= i < |rows| ==> RowReadable(rows[i], rule)
    decreases |rows|
  {
    if |rows| > 0 {
      SplitLast(rows);
      AllParseRows(rows[..|rows| - 1], rule);
    }
  }

  /** `e` names the first unreadable quantity cell, rows in order and
      columns left to right, among the rows that are not skipped. */
  predicate FirstError(rows: seq<Row>, rule: RowRule, e: SheetError)
    requires WideRows(rows, Width(rule, true))
  {
    && e.row < |rows|
    && !RowReadable(rows[e.row], rule)
    && e.column == QuantityColumn(FirstBadPart(rows[e.row]))
    && AllParse(rows[..e.row], rule)
  }

  /** Locates the `ValueError` of a loop over `rows`: the first unreadable
      quantity cell of a row that is not skipped. */
  function ParseError(rows: seq<Row>, rule: RowRule): (e: SheetError)
    requires WideRows(rows, Width(rule, true)) && !AllParse(rows, rule)
    ensures FirstError(rows, rule, e)
    decreases |rows|
  {
    var last := |rows| - 1;
    var front := rows[..last];
    if !AllParse(front, rule) then
      var e := ParseError(front, rule);
      assert front[e.row] == rows[e.row] && front[..e.row] == rows[..e.row];
      e
    else
      assert rows[..last] == front;
      BadQuantity(last, QuantityColumn(FirstBadPart(rows[last])))
  }

  // ---------------------------------------------------------------------
  // Name lists: every part, or the parts still needed

  datatype Selection =
    | Listing
      /** Parts with a label and a quantity of exactly 0. */
    | Needing

  predicate Readable(row: Row, sel: Selection) {
    |row| >= 14 && (sel.Needing? ==> |row| >= 15 && RowParses(row))
  }

  predicate Selected(row: Row, j: nat, sel: Selection)
    requires Readable(row, sel) && j < Parts
  {
    |Label(row, j)| > 0 && (sel.Listing? || Quantity(row, j, BuyBlank(j)) == 0)
  }

  /** The names of the parts whose labels are `ls`, a prefix of the row's
      labels, blueprint first. */
  function PartNames(row: Row, sel: Selection, ls: seq<string>): seq<string>
    requires Readable(row, sel) && ls <= Labels(row)
    decreases |ls|
  {
    if |ls| == 0 then []
    else
      var j := |ls| - 1;
      PartNames(row, sel, ls[..j]) + (if Selected(row, j, sel) then [PartName(row, j)] else [])
  }

  /** Every name a row contributes comes from a selected part. */
  lemma {:induction false} PartNamesWitness(row: Row, sel: Selection, ls: seq<string>, n: string) returns (p: nat)
    requires Readable(row, sel) && ls <= Labels(row) && n in PartNames(row, sel, ls)
    ensures p < |ls| && Selected(row, p, sel) && PartName(row, p) == n
    decreases |ls|
  {
    var j := |ls| - 1;
    var e := if Selected(row, j, sel) then [PartName(row, j)] else [];
    assert PartNames(row, sel, ls) == PartNames(row, sel, ls[..j]) + e;
    if n in PartNames(row, sel, ls[..j]) {
      p := PartNamesWitness(row, sel, ls[..j], n);
    } else {
      assert n in e;
      p := j;
    }
  }

  /** Every selected part contributes its name. */
  lemma {:induction false} PartNamesComplete(row: Row, sel: Selection, ls: seq<string>, p: nat)
    requires Readable(row, sel) && ls <= Labels(row) && p < |ls| && Selected(row, p, sel)
    ensures PartName(row, p) in PartNames(row, sel, ls)
    decreases |ls|
  {
    var j := |ls| - 1;
    var e := if Selected(row, j, sel) then [PartName(row, j)] else [];
    assert PartNames(row, sel, ls) == PartNames(row, sel, ls[..j]) + e;
    if p < j {
      PartNamesComplete(row, sel, ls[..j], p);
    } else {
      assert PartName(row, p) in e;
    }
  }

  /** The names one row contributes. */
  function RowNames(row: Row, sel: Selection): seq<string>
    requires Readable(row, sel)
  {
    PartNames(row, sel, Labels(row))
  }

  /** The name part `j` contributes: its own, when selected. */
  function PartPick(row: Row, j: nat, sel: Selection): seq<string>
    requires Readable(row, sel) && j < Parts
  {
    if Selected(row, j, sel) then [PartName(row, j)] else []
  }

  /** A row contributes its parts in column order: blueprint, then the four components. */
  lemma RowNamesInColumns(row: Row, sel: Selection)
    requires Readable(row, sel)
    ensures RowNames(row, sel) ==
            PartPick(row, 0, sel) + PartPick(row, 1, sel) + PartPick(row, 2, sel) + PartPick(row, 3, sel) + PartPick(row, 4, sel)
  {
    var ls := Labels(row);
    assert ls[..1][..0] == [];
    assert PartNames(row, sel, ls[..1]) == PartPick(row, 0, sel);
    assert ls[..2][..1] == ls[..1];
    assert PartNames(row, sel, ls[..2]) == PartNames(row, sel, ls[..1]) + PartPick(row, 1, sel);
    assert ls[..3][..2] == ls[..2];
    assert PartNames(row, sel, ls[..3]) == PartNames(row, sel, ls[..2]) + PartPick(row, 2, sel);
    assert ls[..4][..3] == ls[..3];
    assert PartNames(row, sel, ls[..4]) == PartNames(row, sel, ls[..3]) + PartPick(row, 3, sel);
    assert ls[..4] == ls[..|ls| - 1];
    assert PartNames(row, sel, ls) == PartNames(row, sel, ls[..4]) + PartPick(row, 4, sel);
  }

  /** How many of the parts with labels `ls` are selected. */
  function SelectedParts(row: Row, sel: Selection, ls: seq<string>): nat
    requires Readable(row, sel) && ls <= Labels(row)
    decreases |ls|
  {
    if |ls| == 0 then 0
    else
      var j := |ls| - 1;
      SelectedParts(row, sel, ls[..j]) + (if Selected(row, j, sel) then 1 else 0)
  }

  lemma {:induction false} PartNamesCount(row: Row, sel: Selection, ls: seq<string>)
    requires Readable(row, sel) && ls <= Labels(row)
    ensures |PartNames(row, sel, ls)| == SelectedParts(row, sel, ls)
    decreases |ls|
  {
    if |ls| > 0 {
      PartNamesCount(row, sel, ls[..|ls| - 1]);
    }
  }

  /** Selected parts over all rows the rule does not skip. */
  function SelectedTotal(rows: seq<Row>, rule: RowRule, sel: Selection): nat
    requires WideRows(rows, Width(rule, sel.Needing?))
    requires sel.Needing? ==> AllParse(rows, rule)
    decreases |rows|
  {
    if |rows| == 0 then 0
    else
      var row := rows[|rows| - 1];
      SelectedTotal(rows[..|rows| - 1], rule, sel) + (if Skipped(row, rule) then 0 else SelectedParts(row, sel, Labels(row)))
  }

  /** Part `j` of `row` is selected and named `n`, and the rule does not skip the row. */
  predicate NamedIn(row: Row, rule: RowRule, sel: Selection, j: nat, n: string) {
    && j < Parts && |row| >= Width(rule, sel.Needing?) && !Skipped(row, rule) && Readable(row, sel)
    && Selected(row, j, sel) && PartName(row, j) == n
  }

  /** The names a list loop collects when nothing raises: for each row not
      skipped, in row order, the names of its selected parts in column order. */
  function NameList(rows: seq<Row>, rule: RowRule, sel: Selection): seq<string>
    requires WideRows(rows, Width(rule, sel.Needing?))
    requires sel.Needing? ==> AllParse(rows, rule)
    decreases |rows|
  {
    if |rows| == 0 then []
    else
      var last := |rows| - 1;
      assert forall i :: 0 <= i < last ==> rows[..last][i] == rows[i];
      NameList(rows[..last], rule, sel) + (if Skipped(rows[last], rule) then [] else RowNames(rows[last], sel))
  }

  /** The list loops of the scripts. Only `Needing` reads quantities, and then
      the first unreadable cell of a row that is not skipped raises. */
  function Names(rows: seq<Row>, rule: RowRule, sel: Selection): (r: Result<seq<string>, SheetError>)
    requires WideRows(rows, Width(rule, sel.Needing?))
    ensures r.Success? <==> (sel.Listing? || AllParse(rows, rule))
    ensures r.Failure? ==> FirstError(rows, rule, r.error)
  {
    if sel.Listing? || AllParse(rows, rule) then Success(NameList(rows, rule, sel))
    else Failure(ParseError(rows, rule))
  }

  /** The output length is the number of selected parts. */
  lemma {:induction false} NamesCount(rows: seq<Row>, rule: RowRule, sel: Selection)
    requires WideRows(rows, Width(rule, sel.Needing?))
    requires sel.Needing? ==> AllParse(rows, rule)
    ensures |NameList(rows, rule, sel)| == SelectedTotal(rows, rule, sel)
    decreases |rows|
  {
    if |rows| > 0 {
      var last := |rows| - 1;
      var front := rows[..last];
      assert forall i :: 0 <= i < |front| ==> front[i] == rows[i];
      NamesCount(front, rule, sel);
      if !Skipped(rows[last], rule) {
        PartNamesCount(rows[last], sel, Labels(rows[last]));
      }
    }
  }

  /** Every listed name comes from a selected part of a row the rule does not skip. */
  lemma {:induction false} NamesWitness(rows: seq<Row>, rule: RowRule, sel: Selection, n: string) returns (i: nat, j: nat)
    requires WideRows(rows, Width(rule, sel.Needing?))
    requires sel.Needing? ==> AllParse(rows, rule)
    requires n in NameList(rows, rule, sel)
    ensures i < |rows| && j < Parts && NamedIn(rows[i], rule, sel, j, n)
    decreases |rows|
  {
    var last := |rows| - 1;
    var front := rows[..last];
    assert forall i' :: 0 <= i' < |front| ==> front[i'] == rows[i'];
    if n in NameList(front, rule, sel) {
      i, j := NamesWitness(front, rule, sel, n);
      assert front[i] == rows[i];
    } else {
      i := last;
      j := PartNamesWitness(rows[last], sel, Labels(rows[last]), n);
    }
  }

  /** Every selected part of a row the rule does not skip is listed. */
  lemma {:induction false} NamesComplete(rows: seq<Row>, rule: RowRule, sel: Selection, i: nat, j: nat, n: string)
    requires WideRows(rows, Width(rule, sel.Needing?))
    requires sel.Needing? ==> AllParse(rows, rule)
    requires i < |rows| && NamedIn(rows[i], rule, sel, j, n)
    ensures n in NameList(rows, rule, sel)
    decreases |rows|
  {
    var last := |rows| - 1;
    var front := rows[..last];
    if i < last {
      assert forall i' :: 0 <= i' < |front| ==> front[i'] == rows[i'];
      NamesComplete(front, rule, sel, i, j, n);
    } else {
      PartNamesComplete(rows[last], sel, Labels(rows[last]), j);
    }
  }

  /** A name is listed exactly when some selected part of a row the rule does
      not skip carries it. */
  lemma NamesMembers(rows: seq<Row>, rule: RowRule, sel: Selection, n: string)
    requires WideRows(rows, Width(rule, sel.Needing?))
    requires sel.Needing? ==> AllParse(rows, rule)
    ensures n in NameList(rows, rule, sel) <==>
            exists i, j :: 0 <= i < |rows| && 0 <= j < Parts && NamedIn(rows[i], rule, sel, j, n)
  {
    if n in NameList(rows, rule, sel) {
      var i, j := NamesWitness(rows, rule, sel, n);
    }
    if exists i, j :: 0 <= i < |rows| && 0 <= j < Parts && NamedIn(rows[i], rule, sel, j, n) {
      var i, j :| 0 <= i < |rows| && 0 <= j < Parts && NamedIn(rows[i], rule, sel, j, n);
      NamesComplete(rows, rule, sel, i, j, n);
    }
  }

  /** Row order: the names of the first `k` rows are a prefix of the names of all rows. */
  lemma {:induction false} NamesPrefix(rows: seq<Row>, rule: RowRule, sel: Selection, k: nat)
    requires k <= |rows| && WideRows(rows, Width(rule, sel.Needing?))
    requires sel.Needing? ==> AllParse(rows, rule)
    ensures WideRows(rows[..k], Width(rule, sel.Needing?))
    ensures sel.Needing? ==> AllParse(rows[..k], rule)
    ensures NameList(rows[..k], rule, sel) <= NameList(rows, rule, sel)
    decreases |rows|
  {
    assert forall i :: 0 <= i < k ==> rows[..k][i] == rows[i];
    if k < |rows| {
      var front := rows[..|rows| - 1];
      assert forall i :: 0 <= i < |front| ==> front[i] == rows[i];
      NamesPrefix(front, rule, sel, k);
      assert front[..k] == rows[..k];
    } else {
      assert rows[..k] == rows;
    }
  }

  // ---------------------------------------------------------------------
  // The owned-parts dictionary

  predicate Owned(row: Row, j: nat)
    requires |row| >= 15 && RowParses(row) && j < Parts
  {
    |Label(row, j)| > 0 && Quantity(row, j, 0) > 0
  }

  /** The assignments `owned_items[name] = quantity` the parts with labels
      `ls`, a prefix of the row's labels, make, blueprint first. */
  function PartEntries(row: Row, ls: seq<string>): seq<(string, int)>
    requires |row| >= 15 && RowParses(row) && ls <= Labels(row)
    decreases |ls|
  {
    if |ls| == 0 then []
    else
      var j := |ls| - 1;
      PartEntries(row, ls[..j]) + (if Owned(row, j) then [(PartName(row, j), Quantity(row, j, 0))] else [])
  }

  function RowEntries(row: Row): seq<(string, int)>
    requires |row| >= 15 && RowParses(row)
  {
    PartEntries(row, Labels(row))
  }

  /** Part `p` of the row is owned and named `k`. */
  predicate OwnedNamed(row: Row, p: nat, k: string)
    requires |row| >= 15 && RowParses(row) && p < Parts
  {
    Owned(row, p) && PartName(row, p) == k
  }

  /** Searching the parts with labels `ls` from the right: the quantity of
      the last owned part named `k`. */
  function LastOwnedPart(row: Row, k: string, ls: seq<string>): (r: Option<int>)
    requires |row| >= 15 && RowParses(row) && ls <= Labels(row)
    ensures r.Some? ==> r.value > 0
    decreases |ls|
  {
    if |ls| == 0 then None
    else
      var j := |ls| - 1;
      if OwnedNamed(row, j, k) then Some(Quantity(row, j, 0)) else LastOwnedPart(row, k, ls[..j])
  }

  /** A value found comes from an owned part named `k`. */
  lemma {:induction false} LastOwnedPartWitness(row: Row, k: string, ls: seq<string>) returns (p: nat)
    requires |row| >= 15 && RowParses(row) && ls <= Labels(row) && LastOwnedPart(row, k, ls).Some?
    ensures p < |ls| && OwnedNamed(row, p, k) && LastOwnedPart(row, k, ls).value == Quantity(row, p, 0)
    decreases |ls|
  {
    var j := |ls| - 1;
    if OwnedNamed(row, j, k) {
      p := j;
    } else {
      p := LastOwnedPartWitness(row, k, ls[..j]);
    }
  }

  /** An owned part named `k` is always found. */
  lemma {:induction false} LastOwnedPartFound(row: Row, k: string, ls: seq<string>, p: nat)
    requires |row| >= 15 && RowParses(row) && ls <= Labels(row) && p < |ls| && OwnedNamed(row, p, k)
    ensures LastOwnedPart(row, k, ls).Some?
    decreases |ls|
  {
    var j := |ls| - 1;
    if p < j && !OwnedNamed(row, j, k) {
      LastOwnedPartFound(row, k, ls[..j], p);
    }
  }

  /** The part search finds the owned part named `k` that no later part overrides. */
  lemma {:induction false} LastOwnedPartIsLatest(row: Row, k: string, ls: seq<string>, p: nat)
    requires |row| >= 15 && RowParses(row) && ls <= Labels(row) && p < |ls|
    requires OwnedNamed(row, p, k)
    requires forall p' :: p < p' < |ls| ==> !OwnedNamed(row, p', k)
    ensures LastOwnedPart(row, k, ls) == Some(Quantity(row, p, 0))
    decreases |ls|
  {
    var j := |ls| - 1;
    if p < j {
      LastOwnedPartIsLatest(row, k, ls[..j], p);
    }
  }

  /** Part `j` of `row` is owned and named `k`, and the rule does not skip the row. */
  predicate OwnedIn(row: Row, rule: RowRule, j: nat, k: string) {
    && j < Parts && |row| >= Width(rule, true) && !Skipped(row, rule) && RowParses(row)
    && OwnedNamed(row, j, k)
  }

  /** Searching rows from the bottom and parts from the right: the quantity of
      the last owned part named `k`, the value a top-to-bottom overwrite keeps. */
  function LastOwned(rows: seq<Row>, rule: RowRule, k: string): (r: Option<int>)
    requires WideRows(rows, Width(rule, true)) && AllParse(rows, rule)
    ensures r.Some? ==> r.value > 0
    decreases |rows|
  {
    if |rows| == 0 then None
    else
      var last := |rows| - 1;
      assert forall i :: 0 <= i < last ==> rows[..last][i] == rows[i];
      var here := if Skipped(rows[last], rule) then None else LastOwnedPart(rows[last], k, Labels(rows[last]));
      if here.Some? then here else LastOwned(rows[..last], rule, k)
  }

  /** A value found comes from an owned part named `k` in a row the rule does not skip. */
  lemma {:induction false} LastOwnedWitness(rows: seq<Row>, rule: RowRule, k: string) returns (i: nat, j: nat)
    requires WideRows(rows, Width(rule, true)) && AllParse(rows, rule)
    requires LastOwned(rows, rule, k).Some?
    ensures i < |rows| && j < Parts && OwnedIn(rows[i], rule, j, k)
    ensures LastOwned(rows, rule, k).value == Quantity(rows[i], j, 0)
    decreases |rows|
  {
    var last := |rows| - 1;
    var front := rows[..last];
    var row := rows[last];
    assert forall i' :: 0 <= i' < |front| ==> front[i'] == rows[i'];
    if !Skipped(row, rule) && LastOwnedPart(row, k, Labels(row)).Some? {
      i := last;
      j := LastOwnedPartWitness(row, k, Labels(row));
    } else {
      i, j := LastOwnedWitness(front, rule, k);
      assert front[i] == rows[i];
    }
  }

  /** An owned part named `k`, in a row the rule does not skip, is always found. */
  lemma {:induction false} LastOwnedFound(rows: seq<Row>, rule: RowRule, k: string, i: nat, j: nat)
    requires WideRows(rows, Width(rule, true)) && AllParse(rows, rule)
    requires i < |rows| && j < Parts && OwnedIn(rows[i], rule, j, k)
    ensures LastOwned(rows, rule, k).Some?
    decreases |rows|
  {
    var last := |rows| - 1;
    var front := rows[..last];
    assert forall i' :: 0 <= i' < |front| ==> front[i'] == rows[i'];
    if i == last {
      LastOwnedPartFound(rows[last], k, Labels(rows[last]), j);
    } else {
      assert front[i] == rows[i];
      LastOwnedFound(front, rule, k, i, j);
    }
  }

  /** No value is found exactly when no part of a row the rule does not skip
      is owned and named `k`. */
  lemma LastOwnedNone(rows: seq<Row>, rule: RowRule, k: string)
    requires WideRows(rows, Width(rule, true)) && AllParse(rows, rule)
    ensures LastOwned(rows, rule, k).None? <==>
            forall i, j :: 0 <= i < |rows| && 0 <= j < Parts ==> !OwnedIn(rows[i], rule, j, k)
  {
    if LastOwned(rows, rule, k).Some? {
      var i, j := LastOwnedWitness(rows, rule, k);
    }
    if exists i, j :: 0 <= i < |rows| && 0 <= j < Parts && OwnedIn(rows[i], rule, j, k) {
      var i, j :| 0 <= i < |rows| && 0 <= j < Parts && OwnedIn(rows[i], rule, j, k);
      LastOwnedFound(rows, rule, k, i, j);
    }
  }

  /** Later parts win: an owned part with no owned part named the same after
      it (later rows, or later columns of its row) gives the key its value. */
  lemma {:induction false} LaterPartWins(rows: seq<Row>, rule: RowRule, i: nat, j: nat, k: string)
    requires WideRows(rows, Width(rule, true)) && AllParse(rows, rule)
    requires i < |rows| && j < Parts && OwnedIn(rows[i], rule, j, k)
    requires forall j' :: j < j' < Parts ==> !OwnedIn(rows[i], rule, j', k)
    requires forall i', j' :: i < i' < |rows| && 0 <= j' < Parts ==> !OwnedIn(rows[i'], rule, j', k)
    ensures LastOwned(rows, rule, k) == Some(Quantity(rows[i], j, 0))
    decreases |rows|
  {
    var last := |rows| - 1;
    var front := rows[..last];
    var row := rows[last];
    assert forall i' :: 0 <= i' < |front| ==> front[i'] == rows[i'];
    if i == last {
      forall p' | j < p' < Parts
        ensures !OwnedNamed(row, p', k)
      {
        assert !OwnedIn(rows[i], rule, p', k);
      }
      LastOwnedPartIsLatest(row, k, Labels(row), j);
    } else {
      assert Skipped(row, rule) || LastOwnedPart(row, k, Labels(row)).None? by {
        if !Skipped(row, rule) && LastOwnedPart(row, k, Labels(row)).Some? {
          var p := LastOwnedPartWitness(row, k, Labels(row));
          assert OwnedIn(rows[last], rule, p, k);
        }
      }
      assert front[i] == rows[i];
      LaterPartWins(front, rule, i, j, k);
    }
  }

  /** The dictionary the owned-parts loops build when nothing raises:
      `owned_items[name] = quantity` for every owned part, rows in order and
      parts left to right. */
  function OwnedDict(rows: seq<Row>, rule: RowRule): OrderedMap.Dict<int>
    requires WideRows(rows, Width(rule, true)) && AllParse(rows, rule)
    decreases |rows|
  {
    if |rows| == 0 then OrderedMap.Empty()
    else
      var last := |rows| - 1;
      assert forall i :: 0 <= i < last ==> rows[..last][i] == rows[i];
      var prior := OwnedDict(rows[..last], rule);
      if Skipped(rows[last], rule) then prior else OrderedMap.PutAll(prior, RowEntries(rows[last]))
  }

  /** The owned-parts loops of the scripts: every quantity of a row that is
      not skipped is read, and the first unreadable cell raises. */
  function OwnedItems(rows: seq<Row>, rule: RowRule): (r: Result<OrderedMap.Dict<int>, SheetError>)
    requires WideRows(rows, Width(rule, true))
    ensures r.Success? <==> AllParse(rows, rule)
    ensures r.Failure? ==> FirstError(rows, rule, r.error)
  {
    if AllParse(rows, rule) then Success(OwnedDict(rows, rule)) else Failure(ParseError(rows, rule))
  }

  lemma LastValueOfPart(row: Row, k: string, p: nat)
    requires |row| >= 15 && RowParses(row) && p < Parts
    ensures OrderedMap.LastValue(if Owned(row, p) then [(PartName(row, p), Quantity(row, p, 0))] else [], k)
            == if OwnedNamed(row, p, k) then Some(Quantity(row, p, 0)) else None
  {
    if Owned(row, p) {
      assert [(PartName(row, p), Quantity(row, p, 0))][..0] == [];
    }
  }

  /** Within a row the last assignment to `k` is the last owned part named `k`. */
  lemma {:induction false} PartEntriesLast(row: Row, k: string, ls: seq<string>)
    requires |row| >= 15 && RowParses(row) && ls <= Labels(row)
    ensures OrderedMap.LastValue(PartEntries(row, ls), k) == LastOwnedPart(row, k, ls)
    decreases |ls|
  {
    if |ls| > 0 {
      var j := |ls| - 1;
      var e := if Owned(row, j) then [(PartName(row, j), Quantity(row, j, 0))] else [];
      LastValueOfPart(row, k, j);
      OrderedMap.LastValueConcat(PartEntries(row, ls[..j]), e, k);
      PartEntriesLast(row, k, ls[..j]);
    }
  }

  /** The dictionary has distinct keys, and each key holds the quantity of the
      last owned part with that name; names of no owned part are absent. */
  lemma {:induction false} OwnedItemsLookup(rows: seq<Row>, rule: RowRule, k: string)
    requires WideRows(rows, Width(rule, true)) && AllParse(rows, rule)
    ensures OrderedMap.Valid(OwnedDict(rows, rule))
    ensures OrderedMap.Get(OwnedDict(rows, rule), k) == LastOwned(rows, rule, k)
    decreases |rows|
  {
    if |rows| > 0 {
      var last := |rows| - 1;
      var front := rows[..last];
      assert forall i :: 0 <= i < |front| ==> front[i] == rows[i];
      OwnedItemsLookup(front, rule, k);
      if !Skipped(rows[last], rule) {
        OrderedMap.PutAllGet(OwnedDict(front, rule), RowEntries(rows[last]), k);
        PartEntriesLast(rows[last], k, Labels(rows[last]));
      }
    }
  }

  // ---------------------------------------------------------------------
  // A skip rule behaves as if the skipped rows were not there

  /** The rows a rule does not skip, in order. */
  function Kept(rows: seq<Row>, rule: RowRule): (kept: seq<Row>)
    ensures |kept| <= |rows|
    decreases |rows|
  {
    if |rows| == 0 then []
    else
      var last := |rows| - 1;
      Kept(rows[..last], rule) + (if Skipped(rows[last], rule) then [] else [rows[last]])
  }

  lemma {:induction false} KeptMembers(rows: seq<Row>, rule: RowRule, row: Row)
    ensures row in Kept(rows, rule) <==> row in rows && !Skipped(row, rule)
    decreases |rows|
  {
    if |rows| > 0 {
      var last := |rows| - 1;
      var front := rows[..last];
      assert forall i :: 0 <= i < last ==> front[i] == rows[i];
      KeptMembers(front, rule, row);
      assert rows == front + [rows[last]];
    }
  }

  /** The kept rows are as wide as the rows. */
  lemma KeptWide(rows: seq<Row>, rule: RowRule, w: nat)
    requires WideRows(rows, w)
    ensures WideRows(Kept(rows, rule), w)
  {
    var kept := Kept(rows, rule);
    forall i | 0 <= i < |kept|
      ensures |kept[i]| >= w
    {
      KeptMembers(rows, rule, kept[i]);
    }
  }

  /** One more row at the bottom can be read exactly when it is skipped or parses. */
  lemma AllParseSnoc(rows: seq<Row>, rule: RowRule, x: Row)
    requires WideRows(rows + [x], Width(rule, true))
    ensures WideRows(rows, Width(rule, true)) && |x| >= Width(rule, true)
    ensures AllParse(rows + [x], rule) <==> AllParse(rows, rule) && RowReadable(x, rule)
  {
    var rx := rows + [x];
    assert rx[..|rows|] == rows && rx[|rows|] == x;
    assert forall i :: 0 <= i < |rows| ==> rx[i] == rows[i];
  }

  /** The quantities of the kept rows can all be read exactly when those of
      the rows the rule does not skip can. */
  lemma {:induction false} KeptParse(rows: seq<Row>, rule: RowRule)
    requires WideRows(rows, Width(rule, true))
    ensures WideRows(Kept(rows, rule), Width(KeepAll, true))
    ensures AllParse(Kept(rows, rule), KeepAll) <==> AllParse(rows, rule)
    decreases |rows|
  {
    KeptWide(rows, rule, Width(rule, true));
    if |rows| > 0 {
      var last := |rows| - 1;
      var front := rows[..last];
      var x := rows[last];
      assert forall i :: 0 <= i < last ==> front[i] == rows[i];
      KeptParse(front, rule);
      var k := Kept(front, rule);
      assert AllParse(rows, rule) <==> AllParse(front, rule) && RowReadable(x, rule);
      if Skipped(x, rule) {
        assert Kept(rows, rule) == k;
      } else {
        assert Kept(rows, rule) == k + [x];
        AllParseSnoc(k, KeepAll, x);
        assert AllParse(k + [x], KeepAll) <==> AllParse(k, KeepAll) && RowParses(x);
      }
    }
  }

  /** One more row at the bottom appends its names, unless skipped. */
  lemma NameListSnoc(rows: seq<Row>, rule: RowRule, sel: Selection, x: Row)
    requires WideRows(rows + [x], Width(rule, sel.Needing?))
    requires sel.Needing? ==> AllParse(rows + [x], rule)
    ensures WideRows(rows, Width(rule, sel.Needing?))
    ensures sel.Needing? ==> AllParse(rows, rule)
    ensures |x| >= Width(rule, sel.Needing?) && (sel.Needing? ==> Skipped(x, rule) || RowParses(x))
    ensures NameList(rows + [x], rule, sel) ==
            NameList(rows, rule, sel) + (if Skipped(x, rule) then [] else RowNames(x, sel))
  {
    var rx := rows + [x];
    assert rx[..|rows|] == rows && rx[|rows|] == x;
    assert forall i :: 0 <= i < |rows| ==> rx[i] == rows[i];
  }

  /** One more row at the bottom overwrites with its entries, unless skipped. */
  lemma OwnedDictSnoc(rows: seq<Row>, rule: RowRule, x: Row)
    requires WideRows(rows + [x], Width(rule, true)) && AllParse(rows + [x], rule)
    ensures WideRows(rows, Width(rule, true)) && AllParse(rows, rule)
    ensures |x| >= Width(rule, true) && (Skipped(x, rule) || RowParses(x))
    ensures OwnedDict(rows + [x], rule) ==
            if Skipped(x, rule) then OwnedDict(rows, rule) else OrderedMap.PutAll(OwnedDict(rows, rule), RowEntries(x))
  {
    var rx := rows + [x];
    assert rx[..|rows|] == rows && rx[|rows|] == x;
    assert forall i :: 0 <= i < |rows| ==> rx[i] == rows[i];
  }

  /** One more row keeps the name list equal to that of the kept rows. */
  lemma KeptNameStep(front: seq<Row>, x: Row, rule: RowRule, sel: Selection)
    requires WideRows(front + [x], Width(rule, sel.Needing?))
    requires sel.Needing? ==> AllParse(front + [x], rule)
    requires WideRows(Kept(front + [x], rule), Width(KeepAll, sel.Needing?))
    requires sel.Needing? ==> AllParse(Kept(front + [x], rule), KeepAll)
    requires WideRows(Kept(front, rule), Width(KeepAll, sel.Needing?))
    requires sel.Needing? ==> AllParse(Kept(front, rule), KeepAll)
    requires NameList(front, rule, sel) == NameList(Kept(front, rule), KeepAll, sel)
    ensures NameList(front + [x], rule, sel) == NameList(Kept(front + [x], rule), KeepAll, sel)
  {
    var rows := front + [x];
    assert rows[..|front|] == front && rows[|front|] == x;
    var k := Kept(front, rule);
    NameListSnoc(front, rule, sel, x);
    if Skipped(x, rule) {
      assert Kept(rows, rule) == k;
    } else {
      assert Kept(rows, rule) == k + [x];
      NameListSnoc(k, KeepAll, sel, x);
    }
  }

  /** A rule's name list is the unskipped name list of the rows it keeps. */
  lemma {:induction false} KeptNameList(rows: seq<Row>, rule: RowRule, sel: Selection)
    requires WideRows(rows, Width(rule, sel.Needing?))
    requires sel.Needing? ==> AllParse(rows, rule)
    ensures WideRows(Kept(rows, rule), Width(KeepAll, sel.Needing?))
    ensures sel.Needing? ==> AllParse(Kept(rows, rule), KeepAll)
    ensures NameList(rows, rule, sel) == NameList(Kept(rows, rule), KeepAll, sel)
    decreases |rows|
  {
    KeptWide(rows, rule, Width(rule, sel.Needing?));
    if sel.Needing? {
      KeptParse(rows, rule);
    }
    if |rows| > 0 {
      var front := rows[..|rows| - 1];
      var x := rows[|rows| - 1];
      SplitLast(rows);
      NameListSnoc(front, rule, sel, x);
      KeptNameList(front, rule, sel);
      KeptNameStep(front, x, rule, sel);
    }
  }

  /** One more row keeps the dictionary equal to that of the kept rows. */
  lemma KeptOwnedStep(front: seq<Row>, x: Row, rule: RowRule)
    requires WideRows(front + [x], Width(rule, true)) && AllParse(front + [x], rule)
    requires WideRows(Kept(front + [x], rule), Width(KeepAll, true)) && AllParse(Kept(front + [x], rule), KeepAll)
    requires WideRows(Kept(front, rule), Width(KeepAll, true)) && AllParse(Kept(front, rule), KeepAll)
    requires OwnedDict(front, rule) == OwnedDict(Kept(front, rule), KeepAll)
    ensures OwnedDict(front + [x], rule) == OwnedDict(Kept(front + [x], rule), KeepAll)
  {
    var rows := front + [x];
    assert rows[..|front|] == front && rows[|front|] == x;
    var k := Kept(front, rule);
    OwnedDictSnoc(front, rule, x);
    if Skipped(x, rule) {
      assert Kept(rows, rule) == k;
    } else {
      assert Kept(rows, rule) == k + [x];
      OwnedDictSnoc(k, KeepAll, x);
    }
  }

  /** A rule's dictionary is the unskipped dictionary of the rows it keeps. */
  lemma {:induction false} KeptOwnedDict(rows: seq<Row>, rule: RowRule)
    requires WideRows(rows, Width(rule, true)) && AllParse(rows, rule)
    ensures WideRows(Kept(rows, rule), Width(KeepAll, true)) && AllParse(Kept(rows, rule), KeepAll)
    ensures OwnedDict(rows, rule) == OwnedDict(Kept(rows, rule), KeepAll)
    decreases |rows|
  {
    KeptParse(rows, rule);
    if |rows| > 0 {
      var front := rows[..|rows| - 1];
      var x := rows[|rows| - 1];
      SplitLast(rows);
      OwnedDictSnoc(front, rule, x);
      KeptOwnedDict(front, rule);
      KeptOwnedStep(front, x, rule);
    }
  }
}
