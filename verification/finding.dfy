/**
  Linear predicate scans over a sequence (SwiftSequence/Finding.swift).  `Filter`
  is the order-preserving selection these scans are specified against; the trie's
  `intersect` and `filter` use it too.
*/
module Finding {
  import opened Options

  /** The elements satisfying `p`, in their original order. */
  function Filter<T>(xs: seq<T>, p: T -> bool): seq<T>
    decreases |xs|
  {
    if |xs| == 0 then []
    else (if p(xs[0]) then [xs[0]] else []) + Filter(xs[1..], p)
  }

  lemma {:induction false} FilterAppend<T>(a: seq<T>, b: seq<T>, p: T -> bool)
    ensures Filter(a + b, p) == Filter(a, p) + Filter(b, p)
    decreases |a|
  {
    if a != [] {
      FilterAppend(a[1..], b, p);
      assert (a + b)[1..] == a[1..] + b;
    } else {
      assert a + b == b;
    }
  }

  /** What `Filter` keeps: exactly the elements satisfying `p`, no more of them
      than the input has, and together with its complement a permutation of it. */
  lemma {:induction false} FilterSpec<T>(xs: seq<T>, p: T -> bool)
    ensures forall e :: e in Filter(xs, p) <==> e in xs && p(e)
    ensures |Filter(xs, p)| <= |xs|
    ensures |Filter(xs, p)| + |Filter(xs, e => !p(e))| == |xs|
    ensures multiset(Filter(xs, p)) + multiset(Filter(xs, e => !p(e))) == multiset(xs)
    decreases |xs|
  {
    if xs != [] {
      FilterSpec(xs[1..], p);
      assert xs == [xs[0]] + xs[1..];
    }
  }

  /** `first(predicate)`: the element at the least index satisfying `p`. */
  method First<T>(xs: seq<T>, p: T -> bool) returns (r: Option<T>)
    ensures r.None? <==> forall i :: 0 <= i < |xs| ==> !p(xs[i])
    ensures r.Some? ==> exists i :: 0 <= i < |xs| && xs[i] == r.value && p(xs[i])
                                    && forall j :: 0 <= j < i ==> !p(xs[j])
  {
    var i := 0;
    while i < |xs|
      invariant 0 <= i <= |xs|
      invariant forall j :: 0 <= j < i ==> !p(xs[j])
    {
      if p(xs[i]) {
        return Some(xs[i]);
      }
      i := i + 1;
    }
    return None;
  }

  /** `count(predicate)`: how many indices hold an element satisfying `p`. */
  method Count<T>(xs: seq<T>, p: T -> bool) returns (n: nat)
    ensures n == |set i | 0 <= i < |xs| && p(xs[i])|
    ensures n == |Filter(xs, p)|
    ensures n <= |xs|
  {
    n := 0;
    var i := 0;
    while i < |xs|
      invariant 0 <= i <= |xs|
      invariant n == |set j | 0 <= j < i && p(xs[j])|
      invariant n == |Filter(xs[..i], p)|
      invariant n <= i
    {
      assert (set j | 0 <= j < i + 1 && p(xs[j]))
          == (set j | 0 <= j < i && p(xs[j])) + (if p(xs[i]) then {i} else {});
      assert xs[..i + 1] == xs[..i] + [xs[i]];
      FilterAppend(xs[..i], [xs[i]], p);
      if p(xs[i]) {
        n := n + 1;
      }
      i := i + 1;
    }
    assert xs[..i] == xs;
  }

  /** `last(predicate)`: scans from the back; the element at the greatest index
      satisfying `p`. */
  method Last<T>(xs: seq<T>, p: T -> bool) returns (r: Option<T>)
    ensures r.None? <==> forall i :: 0 <= i < |xs| ==> !p(xs[i])
    ensures r.Some? ==> exists i :: 0 <= i < |xs| && xs[i] == r.value && p(xs[i])
                                    && forall j :: i < j < |xs| ==> !p(xs[j])
  {
    var i := |xs|;
    while i > 0
      invariant 0 <= i <= |xs|
      invariant forall j :: i <= j < |xs| ==> !p(xs[j])
    {
      i := i - 1;
      if p(xs[i]) {
        return Some(xs[i]);
      }
    }
    return None;
  }

  /** `lastIndexOf`: the greatest valid index whose element satisfies `p`. */
  method LastIndexOf<T>(xs: seq<T>, p: T -> bool) returns (r: Option<nat>)
    ensures r.None? <==> forall i :: 0 <= i < |xs| ==> !p(xs[i])
    ensures r.Some? ==> r.value < |xs| && p(xs[r.value])
                        && forall j :: r.value < j < |xs| ==> !p(xs[j])
  {
    var i := |xs|;
    while i > 0
      invariant 0 <= i <= |xs|
      invariant forall j :: i <= j < |xs| ==> !p(xs[j])
    {
      i := i - 1;
      if p(xs[i]) {
        return Some(i);
      }
    }
    return None;
  }

  /** `indicesOf`: the indices whose element satisfies `p`, in increasing order. */
  method IndicesOf<T>(xs: seq<T>, p: T -> bool) returns (r: seq<nat>)
    ensures forall k :: 0 <= k < |r| ==> r[k] < |xs| && p(xs[r[k]])
    ensures forall a, b :: 0 <= a < b < |r| ==> r[a] < r[b]
    ensures forall i :: 0 <= i < |xs| && p(xs[i]) ==> i in r
  {
    r := [];
    var i := 0;
    while i < |xs|
      invariant 0 <= i <= |xs|
      invariant forall k :: 0 <= k < |r| ==> r[k] < i && p(xs[r[k]])
      invariant forall a, b :: 0 <= a < b < |r| ==> r[a] < r[b]
      invariant forall j :: 0 <= j < i && p(xs[j]) ==> j in r
    {
      if p(xs[i]) {
        r := r + [i];
      }
      i := i + 1;
    }
  }

  /** `partition`: the elements satisfying `p` and the others, each in input order. */
  method Partition<T>(xs: seq<T>, p: T -> bool) returns (t: seq<T>, f: seq<T>)
    ensures t == Filter(xs, p) && f == Filter(xs, e => !p(e))
    ensures forall e :: e in t ==> p(e)
    ensures forall e :: e in f ==> !p(e)
    ensures |t| + |f| == |xs|
    ensures multiset(t) + multiset(f) == multiset(xs)
  {
    t, f := [], [];
    var i := 0;
    while i < |xs|
      invariant 0 <= i <= |xs|
      invariant t == Filter(xs[..i], p) && f == Filter(xs[..i], e => !p(e))
    {
      assert xs[..i + 1] == xs[..i] + [xs[i]];
      FilterAppend(xs[..i], [xs[i]], p);
      FilterAppend(xs[..i], [xs[i]], e => !p(e));
      if p(xs[i]) {
        t := t + [xs[i]];
      } else {
        f := f + [xs[i]];
      }
      i := i + 1;
    }
    assert xs[..i] == xs;
    FilterSpec(xs, p);
    FilterSpec(xs, e => !p(e));
  }
}
