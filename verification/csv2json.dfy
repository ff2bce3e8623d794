/** The converter from a CSV of prime sets to a Django fixture: one object
    per row, model `dashboard.PrimeSet`, primary keys counting up from 1,
    fields taken from the first two columns. Only the `sets` model is
    converted; `items` yields an empty fixture. */
module CsvToJson {
  import opened Wrappers

  type Row = seq<string>

  const App: string := "dashboard"
  const SetModel: string := "PrimeSet"

  /** `f'{APP}.{MODELS["sets"]}'`. */
  const SetLabel: string := App + "." + SetModel

  /** The two choices of the `model` argument. */
  datatype Mode = Sets | Items

  datatype SetFields = SetFields(name: string, urlName: string, ducats: int)

  datatype Fixture = Fixture(model: string, pk: int, fields: SetFields)

  /** `row[1]` on a row with fewer than two cells raises `IndexError`. */
  datatype ConvertError = IndexError(row: nat)

  /** The object written for a row with primary key `pk`. */
  function FixtureOf(row: Row, pk: int): (f: Fixture)
    requires |row| >= 2
    ensures f.model == "dashboard.PrimeSet" && f.pk == pk
    ensures f.fields.name == row[0] && f.fields.urlName == row[1] && f.fields.ducats == 0
  {
    Fixture(SetLabel, pk, SetFields(row[0], row[1], 0))
  }

  /** The CSV row a fixture object stands for. */
  function RowOf(f: Fixture): Row {
    [f.fields.name, f.fields.urlName]
  }

  /** A two-column row is recovered from its object, and an object of the
      set model with no ducats is the object of its row. */
  lemma FixtureRoundTrip(row: Row, pk: int, f: Fixture)
    requires |row| == 2
    ensures RowOf(FixtureOf(row, pk)) == row
    ensures f.model == SetLabel && f.fields.ducats == 0 ==> FixtureOf(RowOf(f), f.pk) == f
  {
  }

  predicate Readable(row: Row) {
    |row| >= 2
  }

  /** The loop over the rows, `pk` starting at 1. */
  method Fixtures(rows: seq<Row>, mode: Mode) returns (r: Result<seq<Fixture>, ConvertError>)
    ensures mode == Items ==> r == Success([])
    ensures mode == Sets ==> (r.Success? <==> forall i :: 0 <= i < |rows| ==> Readable(rows[i]))
    ensures mode == Sets && r.Success? ==>
              |r.value| == |rows| &&
              forall i :: 0 <= i < |rows| ==> Readable(rows[i]) && r.value[i] == FixtureOf(rows[i], i + 1)
    ensures r.Failure? ==>
              r.error.row < |rows| && !Readable(rows[r.error.row]) &&
              forall i :: 0 <= i < r.error.row ==> Readable(rows[i])
  {
    var results: seq<Fixture> := [];
    var pk := 1;
    var i := 0;
    while i < |rows|
      invariant 0 <= i <= |rows|
      invariant mode == Items ==> results == [] && pk == 1
      invariant mode == Sets ==> pk == i + 1 && |results| == i
      invariant mode == Sets ==> forall j :: 0 <= j < i ==> Readable(rows[j]) && results[j] == FixtureOf(rows[j], j + 1)
    {
      var row := rows[i];
      if mode == Sets {
        if |row| < 2 {
          return Failure(IndexError(i));
        }
        results := results + [FixtureOf(row, pk)];
        pk := pk + 1;
      }
      i := i + 1;
    }
    return Success(results);
  }

  /** The primary keys of a converted file are 1, 2, ..., n in row order. */
  lemma ConsecutiveKeys(rows: seq<Row>, fs: seq<Fixture>)
    requires |fs| == |rows|
    requires forall i :: 0 <= i < |rows| ==> Readable(rows[i]) && fs[i] == FixtureOf(rows[i], i + 1)
    ensures forall i :: 0 <= i < |fs| ==> fs[i].pk == i + 1
    ensures forall i, j :: 0 <= i < j < |fs| ==> fs[i].pk < fs[j].pk
    ensures forall i :: 0 <= i < |fs| ==> Readable(rows[i]) && RowOf(fs[i]) == rows[i][..2]
  {
    forall i | 0 <= i < |fs|
      ensures Readable(rows[i]) && RowOf(fs[i]) == rows[i][..2]
    {
      assert rows[i][..2] == [rows[i][0], rows[i][1]];
    }
  }
}
