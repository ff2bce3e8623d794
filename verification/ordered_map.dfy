/** Python's `dict` as the scripts use it: keys kept in first-insertion order,
    and assigning to an existing key overwrites its value in place. */
module OrderedMap {
  import opened Wrappers

  /** Insertion-ordered key/value pairs; `Valid` when no key repeats. */
  type Dict<V> = seq<(string, V)>

  ghost predicate Valid<V>(d: Dict<V>) {
    forall i, j :: 0 <= i < j < |d| ==> d[i].0 != d[j].0
  }

  function Empty<V>(): (d: Dict<V>)
    ensures Valid(d) && |d| == 0
  {
    []
  }

  /** The keys in iteration order. */
  function Keys<V>(d: Dict<V>): (ks: seq<string>)
    ensures |ks| == |d|
    ensures forall i :: 0 <= i < |d| ==> ks[i] == d[i].0
  {
    seq(|d|, i requires 0 <= i < |d| => d[i].0)
  }

  /** `d.get(k)`. */
  function Get<V>(d: Dict<V>, k: string): (r: Option<V>)
    ensures r.None? <==> k !in Keys(d)
    ensures r.Some? ==> exists i :: 0 <= i < |d| && d[i] == (k, r.value)
    decreases |d|
  {
    if |d| == 0 then None
    else if d[0].0 == k then Some(d[0].1)
    else
      var r := Get(d[1..], k);
      assert Keys(d) == [d[0].0] + Keys(d[1..]);
      assert r.Some? ==> d[1..][0..] == d[1..];
      r
  }

  lemma {:induction false} GetAt<V>(d: Dict<V>, i: nat)
    requires Valid(d) && i < |d|
    ensures Get(d, d[i].0) == Some(d[i].1)
    decreases i
  {
    if i > 0 {
      GetAt(d[1..], i - 1);
    }
  }

  /** `d[k] = v`. */
  function Put<V>(d: Dict<V>, k: string, v: V): (r: Dict<V>)
    ensures |r| == |d| || |r| == |d| + 1
    decreases |d|
  {
    if |d| == 0 then [(k, v)]
    else if d[0].0 == k then [(k, v)] + d[1..]
    else [d[0]] + Put(d[1..], k, v)
  }

  /** An existing key keeps its position; a new key goes at the end. */
  lemma {:induction false} PutKeys<V>(d: Dict<V>, k: string, v: V)
    ensures Keys(Put(d, k, v)) == if k in Keys(d) then Keys(d) else Keys(d) + [k]
    decreases |d|
  {
    if |d| > 0 && d[0].0 != k {
      PutKeys(d[1..], k, v);
      assert Keys(d) == [d[0].0] + Keys(d[1..]);
      assert Keys(Put(d, k, v)) == [d[0].0] + Keys(Put(d[1..], k, v));
    }
  }

  /** The assigned key reads back the new value; every other key is unchanged. */
  lemma {:induction false} PutGet<V>(d: Dict<V>, k: string, v: V, k': string)
    ensures Get(Put(d, k, v), k') == if k' == k then Some(v) else Get(d, k')
    decreases |d|
  {
    if |d| > 0 && d[0].0 != k {
      PutGet(d[1..], k, v, k');
      assert Put(d, k, v)[1..] == Put(d[1..], k, v);
    } else if |d| > 0 {
      assert Put(d, k, v)[1..] == d[1..];
    }
  }

  lemma {:induction false} PutValid<V>(d: Dict<V>, k: string, v: V)
    requires Valid(d)
    ensures Valid(Put(d, k, v))
    decreases |d|
  {
    var r := Put(d, k, v);
    PutKeys(d, k, v);
    forall i, j | 0 <= i < j < |r|
      ensures r[i].0 != r[j].0
    {
      assert Keys(r)[i] == r[i].0 && Keys(r)[j] == r[j].0;
      if j < |d| {
        assert Keys(d)[i] == d[i].0 && Keys(d)[j] == d[j].0;
      } else {
        assert Keys(d)[i] == d[i].0;
      }
    }
  }

  /** The value of the last pair for `k` in `es`, the one a left-to-right
      sequence of assignments leaves behind. */
  function LastValue<V>(es: seq<(string, V)>, k: string): (r: Option<V>)
    decreases |es|
  {
    if |es| == 0 then None
    else if es[|es| - 1].0 == k then Some(es[|es| - 1].1)
    else LastValue(es[..|es| - 1], k)
  }

  /** The last value is the value of a pair for `k` that no later pair for `k`
      follows, and there is none only when no pair is for `k`. */
  lemma {:induction false} LastValueSpec<V>(es: seq<(string, V)>, k: string)
    ensures LastValue(es, k).None? <==> forall i :: 0 <= i < |es| ==> es[i].0 != k
    ensures LastValue(es, k).Some? ==>
              exists i :: 0 <= i < |es| && es[i] == (k, LastValue(es, k).value) &&
                forall i' :: i < i' < |es| ==> es[i'].0 != k
    decreases |es|
  {
    if |es| > 0 && es[|es| - 1].0 != k {
      var front := es[..|es| - 1];
      LastValueSpec(front, k);
      assert forall i :: 0 <= i < |front| ==> front[i] == es[i];
    }
  }

  lemma {:induction false} LastValueConcat<V>(a: seq<(string, V)>, b: seq<(string, V)>, k: string)
    ensures LastValue(a + b, k) == if LastValue(b, k).Some? then LastValue(b, k) else LastValue(a, k)
    decreases |b|
  {
    if |b| == 0 {
      assert a + b == a;
    } else {
      assert (a + b)[..|a + b| - 1] == a + b[..|b| - 1];
      LastValueConcat(a, b[..|b| - 1], k);
    }
  }

  /** `for k, v in es: d[k] = v`. */
  function PutAll<V>(d: Dict<V>, es: seq<(string, V)>): (r: Dict<V>)
    decreases |es|
  {
    if |es| == 0 then d else PutAll(Put(d, es[0].0, es[0].1), es[1..])
  }

  lemma {:induction false} PutAllConcat<V>(d: Dict<V>, a: seq<(string, V)>, b: seq<(string, V)>)
    ensures PutAll(d, a + b) == PutAll(PutAll(d, a), b)
    decreases |a|
  {
    if |a| > 0 {
      assert (a + b)[0] == a[0];
      assert (a + b)[1..] == a[1..] + b;
      PutAllConcat(Put(d, a[0].0, a[0].1), a[1..], b);
    } else {
      assert a + b == b;
    }
  }

  /** After a run of assignments each key holds the value of its last
      assignment, and keys never assigned keep their old value. */
  lemma {:induction false} PutAllGet<V>(d: Dict<V>, es: seq<(string, V)>, k: string)
    ensures Get(PutAll(d, es), k) == if LastValue(es, k).Some? then LastValue(es, k) else Get(d, k)
    ensures Valid(d) ==> Valid(PutAll(d, es))
    decreases |es|
  {
    if |es| > 0 {
      var front := es[..|es| - 1];
      var last := es[|es| - 1];
      assert es == front + [last];
      PutAllConcat(d, front, [last]);
      PutAllGet(d, front, k);
      var mid := PutAll(d, front);
      assert PutAll(mid, [last]) == Put(mid, last.0, last.1);
      PutGet(mid, last.0, last.1, k);
      if Valid(d) {
        PutValid(mid, last.0, last.1);
      }
    }
  }

  /** Assignments only add keys that were assigned. */
  lemma {:induction false} PutAllKeys<V>(d: Dict<V>, es: seq<(string, V)>)
    ensures |PutAll(d, es)| <= |d| + |es|
    ensures forall k :: k in Keys(PutAll(d, es)) ==> k in Keys(d) || exists i :: 0 <= i < |es| && es[i].0 == k
    decreases |es|
  {
    if |es| > 0 {
      var d' := Put(d, es[0].0, es[0].1);
      PutKeys(d, es[0].0, es[0].1);
      PutAllKeys(d', es[1..]);
      forall k | k in Keys(PutAll(d, es))
        ensures k in Keys(d) || exists i :: 0 <= i < |es| && es[i].0 == k
      {
        if k !in Keys(d') {
          assert es[1..][0..] == es[1..];
          var i :| 0 <= i < |es[1..]| && es[1..][i].0 == k;
          assert es[i + 1].0 == k;
        } else if k !in Keys(d) {
          assert es[0].0 == k;
        }
      }
    }
  }
}
