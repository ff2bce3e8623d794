/** Facts about sequences shared by the two insertion sorts. */
module Seqs {
  /** Putting `x` between the first `k` elements and the rest adds exactly `x`. */
  lemma SpliceMultiset<T>(s: seq<T>, k: nat, x: T)
    requires k <= |s|
    ensures multiset(s[..k] + [x] + s[k..]) == multiset(s) + multiset{x}
  {
    assert s == s[..k] + s[k..];
  }
}
