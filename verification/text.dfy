/** The string operations the scripts apply to sheet cells: ASCII lower-casing,
    `replace(" ", "_")`, and Python's `int()` restricted to an optional sign
    followed by ASCII digits. */
module Text {
  import opened Wrappers

  predicate IsUpper(c: char) {
    'A' <= c <= 'Z'
  }

  predicate IsDigit(c: char) {
    '0' <= c <= '9'
  }

  /** `str.lower()` on one character, ASCII only. */
  function LowerChar(c: char): (r: char)
    ensures !IsUpper(r)
    ensures IsUpper(c) ==> r as int == c as int + 32
    ensures !IsUpper(c) ==> r == c
  {
    if IsUpper(c) then (c as int + 32) as char else c
  }

  function Lower(s: string): (r: string)
    ensures |r| == |s|
    ensures forall i :: 0 <= i < |s| ==> r[i] == LowerChar(s[i])
  {
    seq(|s|, i requires 0 <= i < |s| => LowerChar(s[i]))
  }

  /** `s.replace(" ", "_")`. */
  function Underscored(s: string): (r: string)
    ensures |r| == |s|
    ensures forall i :: 0 <= i < |s| ==> r[i] == (if s[i] == ' ' then '_' else s[i])
  {
    seq(|s|, i requires 0 <= i < |s| => if s[i] == ' ' then '_' else s[i])
  }

  predicate NoSpaces(s: string) {
    forall i :: 0 <= i < |s| ==> s[i] != ' '
  }

  predicate NoUpper(s: string) {
    forall i :: 0 <= i < |s| ==> !IsUpper(s[i])
  }

  /** `s.lower().replace(" ", "_")`, the slug the dashboard model derives from a name. */
  function Slug(s: string): (r: string)
    ensures |r| == |s|
    ensures NoSpaces(r) && NoUpper(r)
  {
    Underscored(Lower(s))
  }

  lemma LowerIdempotent(s: string)
    ensures Lower(Lower(s)) == Lower(s)
  {
  }

  lemma LowerConcat(a: string, b: string)
    ensures Lower(a + b) == Lower(a) + Lower(b)
  {
  }

  /** Lower-casing and replacing spaces commute, so `replace` then `lower`
      (the spreadsheet scripts) and `lower` then `replace` (the dashboard
      model) give the same string. */
  lemma LowerUnderscoredCommute(s: string)
    ensures Lower(Underscored(s)) == Underscored(Lower(s))
  {
  }

  lemma SlugIdempotent(s: string)
    ensures Slug(Slug(s)) == Slug(s)
  {
  }

  // ---------------------------------------------------------------------
  // int() and its inverse str()

  function DigitValue(c: char): (d: nat)
    requires IsDigit(c)
    ensures d < 10
  {
    c as int - '0' as int
  }

  function DigitChar(d: nat): (c: char)
    requires d < 10
    ensures IsDigit(c) && DigitValue(c) == d
  {
    ('0' as int + d) as char
  }

  predicate AllDigits(s: string) {
    forall i :: 0 <= i < |s| ==> IsDigit(s[i])
  }

  /** The value of a run of decimal digits, most significant first. */
  function DigitsValue(s: string): nat
    requires AllDigits(s)
    decreases |s|
  {
    if |s| == 0 then 0 else DigitsValue(s[..|s| - 1]) * 10 + DigitValue(s[|s| - 1])
  }

  /** Python's `int(s)` for an optional `+`/`-` sign followed by at least one
      ASCII digit; every other string raises `ValueError`, here `None`. */
  function ParseInt(s: string): (r: Option<int>)
    ensures r.Some? ==> |s| > 0
  {
    if |s| == 0 then None
    else if s[0] == '-' || s[0] == '+' then
      var body := s[1..];
      if |body| > 0 && AllDigits(body) then
        var v: int := DigitsValue(body);
        Some(if s[0] == '-' then -v else v)
      else None
    else if AllDigits(s) then Some(DigitsValue(s))
    else None
  }

  /** The strings `int()` accepts here: a sign, or none, then one or more digits. */
  lemma ParseIntAccepts(s: string)
    ensures ParseInt(s).Some? <==> (|s| > 0 && (if s[0] == '-' || s[0] == '+' then |s| > 1 && AllDigits(s[1..]) else AllDigits(s)))
  {
  }

  /** `str(n)` for a non-negative integer. */
  function NatToString(n: nat): (s: string)
    ensures |s| > 0 && AllDigits(s)
    decreases n
  {
    if n < 10 then [DigitChar(n)] else NatToString(n / 10) + [DigitChar(n % 10)]
  }

  /** `str(n)`. */
  function IntToString(n: int): (s: string)
    ensures |s| > 0
  {
    if n < 0 then "-" + NatToString(-n) else NatToString(n)
  }

  lemma {:induction false} DigitsOfNat(n: nat)
    ensures DigitsValue(NatToString(n)) == n
    decreases n
  {
    var s := NatToString(n);
    if n >= 10 {
      DigitsOfNat(n / 10);
      assert s[..|s| - 1] == NatToString(n / 10);
    }
  }

  /** `int(str(n)) == n`: parsing inverts printing. */
  lemma {:induction false} ParseIntOfString(n: int)
    ensures ParseInt(IntToString(n)) == Some(n)
  {
    var s := IntToString(n);
    if n < 0 {
      var t := NatToString(-n);
      DigitsOfNat(-n);
      assert s == "-" + t;
      assert s[1..] == t;
    } else {
      DigitsOfNat(n);
      assert IsDigit(s[0]);
    }
  }
}
