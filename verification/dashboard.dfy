/** The dashboard's prime item record: its field defaults, and the URL slugs
    that saving fills in from the names when they were left blank. */
module Dashboard {
  import Text

  /** Ducats and quantity are positive-integer fields, hence `nat`. */
  datatype PrimeItem = PrimeItem(
    name: string, urlName: string, ducats: nat, quantity: nat,
    primesetName: string, primesetUrl: string)

  /** A new record: the URL fields blank, no ducats, one owned. */
  function NewPrimeItem(name: string, primesetName: string): (p: PrimeItem)
    ensures p.name == name && p.primesetName == primesetName
    ensures p.ducats == 0 && p.quantity == 1
    ensures p.urlName == "" && p.primesetUrl == ""
  {
    PrimeItem(name, "", 0, 1, primesetName, "")
  }

  /** A blank slug field is filled from its name; a set one is kept. */
  function SlugOr(current: string, from: string): (r: string)
    ensures |current| > 0 ==> r == current
    ensures |current| == 0 ==> |r| == |from| && Text.NoSpaces(r) && Text.NoUpper(r)
    ensures |current| == 0 ==> r == Text.Slug(from)
  {
    if |current| > 0 then current else Text.Slug(from)
  }

  /** `PrimeItem.save` up to the write to the database. */
  function Save(p: PrimeItem): (q: PrimeItem)
    ensures q.name == p.name && q.primesetName == p.primesetName
    ensures q.ducats == p.ducats && q.quantity == p.quantity
    ensures q.urlName == SlugOr(p.urlName, p.name)
    ensures q.primesetUrl == SlugOr(p.primesetUrl, p.primesetName)
  {
    p.(urlName := SlugOr(p.urlName, p.name), primesetUrl := SlugOr(p.primesetUrl, p.primesetName))
  }

  /** Saving twice is saving once. */
  lemma SaveIdempotent(p: PrimeItem)
    ensures Save(Save(p)) == Save(p)
  {
    if |p.urlName| == 0 && |p.name| == 0 {
      assert Text.Slug(p.name) == "";
    }
    if |p.primesetUrl| == 0 && |p.primesetName| == 0 {
      assert Text.Slug(p.primesetName) == "";
    }
  }

  /** A record saved with blank slugs gets the slugs of its names, which a
      further save leaves alone, and every slug of a named record is non-empty. */
  lemma SaveNewItem(name: string, primesetName: string)
    ensures var q := Save(NewPrimeItem(name, primesetName));
            q.urlName == Text.Slug(name) && q.primesetUrl == Text.Slug(primesetName)
    ensures var q := Save(NewPrimeItem(name, primesetName));
            (|name| > 0 ==> |q.urlName| > 0) && (|primesetName| > 0 ==> |q.primesetUrl| > 0)
  {
  }

  /** A slug is already a slug of itself, so the slug fields a save fills in
      are exactly what would be derived from them again. */
  lemma SlugStable(from: string)
    ensures SlugOr("", Text.Slug(from)) == Text.Slug(from)
  {
    Text.SlugIdempotent(from);
  }
}
