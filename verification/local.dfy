/** Looking an item's market id up in the local CSV of prime items: the id
    in column 1 of the first row whose column 0 is the item's name, exactly
    as written, or the text "Not found". */
module Local {
  import opened Wrappers

  type Row = seq<string>

  /** What `get_item_id_from_file` answers when no row names the item. */
  const NotFound: string := "Not found"

  /** `row[0]` or `row[1]` on a row too short for it raises `IndexError`. */
  datatype LookupError = IndexError

  /** How a scan of the rows ends: at a row naming the item, at a row too
      short to read, or at the end of the file. */
  datatype Outcome = Found(id: string) | Crashed | Missing

  /** The scan, row by row from the top. */
  function Search(rows: seq<Row>, item: string): Outcome
    decreases |rows|
  {
    if |rows| == 0 then Missing
    else if |rows[0]| == 0 then Crashed
    else if rows[0][0] == item then (if |rows[0]| < 2 then Crashed else Found(rows[0][1]))
    else Search(rows[1..], item)
  }

  /** The answer of `get_item_id_from_file(item)` for the file's rows. */
  function Lookup(rows: seq<Row>, item: string): (r: Result<string, LookupError>)
    ensures r.Failure? <==> Search(rows, item).Crashed?
    ensures Search(rows, item).Missing? ==> r == Success(NotFound)
    ensures Search(rows, item).Found? ==> r == Success(Search(rows, item).id)
  {
    match Search(rows, item)
    case Found(id) => Success(id)
    case Crashed => Failure(IndexError)
    case Missing => Success(NotFound)
  }

  /** A row the scan reads past: it has a first cell, and that cell is not `item`. */
  predicate PassedOver(row: Row, item: string) {
    |row| > 0 && row[0] != item
  }

  /** The scan in the source's shape: a loop that returns at the first row naming the item. */
  method FindItemId(rows: seq<Row>, item: string) returns (r: Result<string, LookupError>)
    ensures r == Lookup(rows, item)
  {
    var i := 0;
    while i < |rows|
      invariant 0 <= i <= |rows|
      invariant Search(rows, item) == Search(rows[i..], item)
    {
      var row := rows[i];
      assert rows[i..][0] == row && rows[i..][1..] == rows[i + 1..];
      if |row| == 0 {
        return Failure(IndexError);
      }
      if row[0] == item {
        if |row| < 2 {
          return Failure(IndexError);
        }
        return Success(row[1]);
      }
      i := i + 1;
    }
    return Success(NotFound);
  }

  /** The scan over two runs of rows reads the second only when the first
      neither names the item nor is cut short. */
  lemma {:induction false} SearchConcat(a: seq<Row>, b: seq<Row>, item: string)
    ensures Search(a + b, item) == if Search(a, item).Missing? then Search(b, item) else Search(a, item)
    decreases |a|
  {
    if |a| == 0 {
      assert a + b == b;
    } else {
      assert (a + b)[0] == a[0];
      assert (a + b)[1..] == a[1..] + b;
      SearchConcat(a[1..], b, item);
    }
  }

  /** The id of the first row naming the item is the answer, whatever follows. */
  lemma {:induction false} LookupFirstMatch(rows: seq<Row>, item: string, i: nat)
    requires i < |rows| && |rows[i]| >= 2 && rows[i][0] == item
    requires forall j :: 0 <= j < i ==> PassedOver(rows[j], item)
    ensures Lookup(rows, item) == Success(rows[i][1])
    decreases i
  {
    if i > 0 {
      assert forall j :: 0 <= j < i - 1 ==> rows[1..][j] == rows[j + 1];
      LookupFirstMatch(rows[1..], item, i - 1);
    }
  }

  /** With no row naming the item and none too short, the answer is "Not found". */
  lemma {:induction false} LookupNotFound(rows: seq<Row>, item: string)
    requires forall j :: 0 <= j < |rows| ==> PassedOver(rows[j], item)
    ensures Lookup(rows, item) == Success(NotFound)
    decreases |rows|
  {
    if |rows| > 0 {
      assert forall j :: 0 <= j < |rows| - 1 ==> rows[1..][j] == rows[j + 1];
      LookupNotFound(rows[1..], item);
    }
  }

  /** Rows after the first one naming the item never change the answer. */
  lemma LaterRowsIgnored(rows: seq<Row>, later: seq<Row>, item: string)
    requires !Search(rows, item).Missing?
    ensures Lookup(rows + later, item) == Lookup(rows, item)
  {
    SearchConcat(rows, later, item);
  }

  /** A row the scan stops at without an answer: it has no first cell, or
      it names the item and has no second cell. */
  predicate Unreadable(row: Row, item: string) {
    |row| == 0 || (row[0] == item && |row| < 2)
  }

  /** The converse of `LookupFirstMatch` and `LookupNotFound`: a found id is
      column 1 of a row whose column 0 equals `item` exactly, with every
      earlier row passed over; an `IndexError` comes from an unreadable row
      before any match; and "Not found" from the end of the file means
      every row was passed over. */
  lemma {:induction false} LookupSound(rows: seq<Row>, item: string)
    ensures Search(rows, item).Found? ==>
              exists i :: 0 <= i < |rows| && |rows[i]| >= 2 && rows[i][0] == item &&
                          Lookup(rows, item) == Success(rows[i][1]) &&
                          forall j :: 0 <= j < i ==> PassedOver(rows[j], item)
    ensures Lookup(rows, item).Failure? ==>
              exists i :: 0 <= i < |rows| && Unreadable(rows[i], item) &&
                          forall j :: 0 <= j < i ==> PassedOver(rows[j], item)
    ensures Search(rows, item).Missing? ==> forall j :: 0 <= j < |rows| ==> PassedOver(rows[j], item)
    decreases |rows|
  {
    if |rows| > 0 && PassedOver(rows[0], item) {
      var tail := rows[1..];
      LookupSound(tail, item);
      assert Search(rows, item) == Search(tail, item);
      assert forall j :: 0 < j < |rows| ==> rows[j] == tail[j - 1];
      if Search(tail, item).Found? {
        var i :| 0 <= i < |tail| && |tail[i]| >= 2 && tail[i][0] == item &&
                 Lookup(tail, item) == Success(tail[i][1]) &&
                 forall j :: 0 <= j < i ==> PassedOver(tail[j], item);
        assert forall j :: 0 <= j < i + 1 ==> PassedOver(rows[j], item);
      } else if Search(tail, item).Crashed? {
        var i :| 0 <= i < |tail| && Unreadable(tail[i], item) &&
                 forall j :: 0 <= j < i ==> PassedOver(tail[j], item);
        assert forall j :: 0 <= j < i + 1 ==> PassedOver(rows[j], item);
      }
    }
  }
}
