/** The two list updates every page uses: `filter` (and its special case,
    removing the entries with a given id) and `map` that replaces the entries
    with a given id. Each comes with an independent description of its
    result: an order-preserving subsequence, or an element-wise comparison. */
module Sequences {

  /** `xs.filter(keep)` */
  function Keep<T>(xs: seq<T>, keep: T -> bool): (r: seq<T>)
    ensures |r| <= |xs|
    ensures forall k :: 0 <= k < |r| ==> keep(r[k])
    decreases |xs|
  {
    if |xs| == 0 then []
    else if keep(xs[0]) then [xs[0]] + Keep(xs[1..], keep)
    else Keep(xs[1..], keep)
  }

  /** `a` is `b` with some entries left out and the rest in their order. */
  predicate IsSubsequence<T(==)>(a: seq<T>, b: seq<T>)
    decreases |b|
  {
    if |a| == 0 then true
    else if |b| == 0 then false
    else if a[0] == b[0] then IsSubsequence(a[1..], b[1..])
    else IsSubsequence(a, b[1..])
  }

  /** Number of entries that satisfy `p`. */
  function CountWhere<T>(xs: seq<T>, p: T -> bool): (n: nat)
    ensures n <= |xs|
  {
    if |xs| == 0 then 0 else (if p(xs[0]) then 1 else 0) + CountWhere(xs[1..], p)
  }

  /** Number of entries whose key is `id`. */
  function CountKey<T, K(==)>(xs: seq<T>, key: T -> K, id: K): (n: nat)
    ensures n <= |xs|
  {
    if |xs| == 0 then 0 else (if key(xs[0]) == id then 1 else 0) + CountKey(xs[1..], key, id)
  }

  /** Every entry is counted exactly when every entry passes. */
  lemma {:induction false} CountWhereAll<T>(xs: seq<T>, p: T -> bool)
    ensures CountWhere(xs, p) == |xs| <==> forall k :: 0 <= k < |xs| ==> p(xs[k])
    decreases |xs|
  {
    if |xs| > 0 {
      CountWhereAll(xs[1..], p);
      if forall k :: 0 <= k < |xs| ==> p(xs[k]) {
        assert forall k :: 0 <= k < |xs| - 1 ==> p(xs[1..][k]) by {
          forall k | 0 <= k < |xs| - 1 ensures p(xs[1..][k]) {
            assert xs[1..][k] == xs[k + 1];
          }
        }
      } else if p(xs[0]) {
        var k :| 0 <= k < |xs| && !p(xs[k]);
        assert xs[1..][k - 1] == xs[k];
      }
    }
  }

  /** The filtered list keeps exactly the entries that pass, in their order. */
  lemma {:induction false} KeepSpec<T>(xs: seq<T>, keep: T -> bool)
    ensures IsSubsequence(Keep(xs, keep), xs)
    ensures forall x :: x in xs && keep(x) ==> x in Keep(xs, keep)
    ensures forall x :: x in Keep(xs, keep) ==> x in xs && keep(x)
    ensures |Keep(xs, keep)| == CountWhere(xs, keep)
    decreases |xs|
  {
    if |xs| > 0 {
      KeepSpec(xs[1..], keep);
      var rest := Keep(xs[1..], keep);
      if keep(xs[0]) {
        assert ([xs[0]] + rest)[1..] == rest;
      } else {
        SubsequenceOfTail(rest, xs);
      }
      forall x | x in xs && keep(x)
        ensures x in Keep(xs, keep)
      {
        if x != xs[0] {
          assert x in xs[1..];
        }
      }
    }
  }

  lemma {:induction false} SubsequenceOfTail<T>(a: seq<T>, b: seq<T>)
    requires |b| > 0 && IsSubsequence(a, b[1..])
    ensures IsSubsequence(a, b)
    decreases |b|, 0
  {
    if |a| > 0 && a[0] == b[0] {
      SubsequenceDropFirst(a, b[1..]);
    }
  }

  lemma {:induction false} SubsequenceDropFirst<T>(a: seq<T>, b: seq<T>)
    requires |a| > 0 && IsSubsequence(a, b)
    ensures IsSubsequence(a[1..], b)
    decreases |b|, 1
  {
    if |b| > 0 {
      if a[0] == b[0] {
        SubsequenceOfTail(a[1..], b);
      } else {
        SubsequenceDropFirst(a, b[1..]);
        SubsequenceOfTail(a[1..], b);
      }
    }
  }

  /** Filtering distributes over concatenation. */
  lemma {:induction false} KeepAppend<T>(xs: seq<T>, ys: seq<T>, keep: T -> bool)
    ensures Keep(xs + ys, keep) == Keep(xs, keep) + Keep(ys, keep)
    decreases |xs|
  {
    if |xs| == 0 {
      assert xs + ys == ys;
    } else {
      assert (xs + ys)[1..] == xs[1..] + ys;
      KeepAppend(xs[1..], ys, keep);
    }
  }

  /** Filtering with a test every entry passes changes nothing. */
  lemma {:induction false} KeepAll<T>(xs: seq<T>, keep: T -> bool)
    requires forall k :: 0 <= k < |xs| ==> keep(xs[k])
    ensures Keep(xs, keep) == xs
    decreases |xs|
  {
    if |xs| > 0 {
      KeepAll(xs[1..], keep);
      assert [xs[0]] + xs[1..] == xs;
    }
  }

  /** Filtering with a test no entry passes leaves nothing. */
  lemma {:induction false} KeepNone<T>(xs: seq<T>, keep: T -> bool)
    requires forall k :: 0 <= k < |xs| ==> !keep(xs[k])
    ensures Keep(xs, keep) == []
    decreases |xs|
  {
    if |xs| > 0 {
      KeepNone(xs[1..], keep);
    }
  }

  /** Filtering twice with the same test is filtering once. */
  lemma {:induction false} KeepIdempotent<T>(xs: seq<T>, keep: T -> bool)
    ensures Keep(Keep(xs, keep), keep) == Keep(xs, keep)
  {
    KeepAll(Keep(xs, keep), keep);
  }

  /** `xs.filter(x => key(x) !== id)` */
  function WithoutKey<T, K(==)>(xs: seq<T>, key: T -> K, id: K): (r: seq<T>)
    ensures forall k :: 0 <= k < |r| ==> key(r[k]) != id
  {
    Keep(xs, (x: T) => key(x) != id)
  }

  /** Removing by id keeps every other entry, in order, and nothing else. */
  lemma WithoutKeySpec<T, K>(xs: seq<T>, key: T -> K, id: K)
    ensures IsSubsequence(WithoutKey(xs, key, id), xs)
    ensures forall x :: x in WithoutKey(xs, key, id) <==> x in xs && key(x) != id
    ensures |WithoutKey(xs, key, id)| == |xs| - CountWhere(xs, (x: T) => key(x) == id)
    ensures |WithoutKey(xs, key, id)| == |xs| - CountKey(xs, key, id)
  {
    KeepSpec(xs, (x: T) => key(x) != id);
    CountComplement(xs, (x: T) => key(x) != id, (x: T) => key(x) == id);
    WithoutKeyCount(xs, key, id);
  }

  lemma {:induction false} WithoutKeyCount<T, K>(xs: seq<T>, key: T -> K, id: K)
    ensures |WithoutKey(xs, key, id)| == |xs| - CountKey(xs, key, id)
    decreases |xs|
  {
    if |xs| > 0 {
      WithoutKeyCons(xs, key, id);
      WithoutKeyCount(xs[1..], key, id);
    }
  }

  lemma {:induction false} CountComplement<T>(xs: seq<T>, p: T -> bool, q: T -> bool)
    requires forall x :: p(x) <==> !q(x)
    ensures CountWhere(xs, p) + CountWhere(xs, q) == |xs|
    decreases |xs|
  {
    if |xs| > 0 {
      CountComplement(xs[1..], p, q);
    }
  }

  /** Removing an id no entry carries changes nothing. */
  lemma WithoutAbsentKey<T, K>(xs: seq<T>, key: T -> K, id: K)
    requires forall k :: 0 <= k < |xs| ==> key(xs[k]) != id
    ensures WithoutKey(xs, key, id) == xs
  {
    KeepAll(xs, (x: T) => key(x) != id);
  }

  /** Removal by id works entry by entry. */
  lemma WithoutKeyCons<T, K>(xs: seq<T>, key: T -> K, id: K)
    requires |xs| > 0
    ensures WithoutKey(xs, key, id) == (if key(xs[0]) != id then [xs[0]] else []) + WithoutKey(xs[1..], key, id)
  {
  }

  lemma WithoutKeyAppend<T, K>(xs: seq<T>, ys: seq<T>, key: T -> K, id: K)
    ensures WithoutKey(xs + ys, key, id) == WithoutKey(xs, key, id) + WithoutKey(ys, key, id)
  {
    KeepAppend(xs, ys, (x: T) => key(x) != id);
  }

  /** `xs.map(x => key(x) === id ? f(x) : x)` */
  function MapWhereKey<T, K(==)>(xs: seq<T>, key: T -> K, id: K, f: T -> T): (r: seq<T>)
    ensures |r| == |xs|
    ensures forall k :: 0 <= k < |xs| ==> r[k] == if key(xs[k]) == id then f(xs[k]) else xs[k]
  {
    seq(|xs|, k requires 0 <= k < |xs| => if key(xs[k]) == id then f(xs[k]) else xs[k])
  }

  /** `xs.filter((_, i) => i !== index)` */
  function WithoutIndex<T>(xs: seq<T>, index: int): (r: seq<T>)
    ensures 0 <= index < |xs| ==> r == xs[..index] + xs[index + 1..]
    ensures !(0 <= index < |xs|) ==> r == xs
    decreases |xs|
  {
    if |xs| == 0 then []
    else if index == 0 then xs[1..]
    else [xs[0]] + WithoutIndex(xs[1..], index - 1)
  }
}
