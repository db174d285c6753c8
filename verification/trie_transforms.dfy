/**
  Rebuilding transforms (SwiftSequence/Trie.swift:216-241): each one walks
  `contents`, so none of them sees the empty sequence, and builds a fresh trie.
*/
module TrieTransforms {
  import opened Options
  import opened Tries
  import opened TrieUpdate
  import opened TrieQueries
  import opened TrieSetOps
  import Finding

  /** `contents.map(transform)`. */
  function MapSeqs<S, T>(ss: seq<S>, f: S -> T): seq<T>
  {
    seq(|ss|, k requires 0 <= k < |ss| => f(ss[k]))
  }

  /** `map`: the transformed contents, inserted into a fresh trie. */
  function Map<E, F(==)>(t: Trie<E>, f: seq<E> -> seq<F>): Trie<F>
  {
    FromSeqs(MapSeqs(Contents(t), f))
  }

  /** The present values, in order: `for case let seq? in ...`. */
  function Somes<T>(os: seq<Option<T>>): seq<T>
    decreases |os|
  {
    if |os| == 0 then []
    else (if os[0].Some? then [os[0].value] else []) + Somes(os[1..])
  }

  /** `flatMap` with an optional result: insert the transforms that exist. */
  function FlatMapSeqs<E, F(==)>(t: Trie<E>, f: seq<E> -> Option<seq<F>>): Trie<F>
  {
    InsertAll(Empty(), Somes(MapSeqs(Contents(t), f)))
  }

  /** `for trie in ts { ret.unionInPlace(trie) }`, starting from `acc`. */
  function UnionAll<F(==)>(acc: Trie<F>, ts: seq<Trie<F>>): Trie<F>
    decreases |ts|
  {
    if |ts| == 0 then acc
    else Union(UnionAll(acc, ts[..|ts| - 1]), ts[|ts| - 1])
  }

  /** `flatMap` with a trie result: unite the transforms into an empty trie. */
  function FlatMapTries<E, F(==)>(t: Trie<E>, f: seq<E> -> Trie<F>): Trie<F>
  {
    UnionAll(Empty(), MapSeqs(Contents(t), f))
  }

  /** `filter`: insert the members of `contents` the predicate accepts. */
  function Filter<E(==)>(t: Trie<E>, p: seq<E> -> bool): Trie<E>
  {
    FromSeqs(Finding.Filter(Contents(t), p))
  }

  // ---------------------------------------------------------------------------

  lemma ContentsElemsValid<E>(t: Trie<E>)
    requires Valid(t)
    ensures forall m :: m in Contents(t) <==> m != [] && m in Members(t)
  {
    ContentsElems(t);
    forall m ensures m in Contents(t) <==> m != [] && m in Members(t) {
      assert m in Contents(t) <==> m in Elems(Contents(t));
    }
  }

  /** Rebuilding from `contents` gives back every member but the empty sequence. */
  lemma RoundTrip<E(!new)>(t: Trie<E>)
    requires Valid(t)
    ensures Members(FromSeqs(Contents(t))) == Members(t) - {[]}
  {
    FromSeqsMembers(Contents(t));
    ContentsElemsValid(t);
  }

  /** `map` holds the images of the non-empty members. */
  lemma MapMembers<E(!new), F(!new)>(t: Trie<E>, f: seq<E> -> seq<F>)
    requires Valid(t)
    ensures Valid(Map(t, f))
    ensures Members(Map(t, f)) == set m | m in Members(t) && m != [] :: f(m)
  {
    var cs := Contents(t);
    var ms := MapSeqs(cs, f);
    FromSeqsMembers(ms);
    ContentsElemsValid(t);
    forall y ensures y in ms <==> exists m :: m in Members(t) && m != [] && y == f(m) {
      if y in ms {
        var k :| 0 <= k < |ms| && ms[k] == y;
        assert cs[k] in cs;
      }
      if exists m :: m in Members(t) && m != [] && y == f(m) {
        var m :| m in Members(t) && m != [] && y == f(m);
        var k :| 0 <= k < |cs| && cs[k] == m;
        assert ms[k] == y;
      }
    }
  }

  lemma {:induction false} SomesElems<T>(os: seq<Option<T>>, y: T)
    ensures y in Somes(os) <==> Some(y) in os
    decreases |os|
  {
    if os != [] {
      SomesElems(os[1..], y);
      assert os == [os[0]] + os[1..];
    }
  }

  /** The optional `flatMap` holds the present images of the non-empty members. */
  lemma FlatMapSeqsMembers<E(!new), F(!new)>(t: Trie<E>, f: seq<E> -> Option<seq<F>>)
    requires Valid(t)
    ensures Valid(FlatMapSeqs(t, f))
    ensures Members(FlatMapSeqs(t, f)) ==
              set m | m in Members(t) && m != [] && f(m).Some? :: f(m).value
  {
    var cs := Contents(t);
    var os := MapSeqs(cs, f);
    var ys := Somes(os);
    FromSeqsMembers(ys);
    ContentsElemsValid(t);
    forall y ensures y in ys <==> exists m :: m in Members(t) && m != [] && f(m) == Some(y) {
      SomesElems(os, y);
      if Some(y) in os {
        var k :| 0 <= k < |os| && os[k] == Some(y);
        assert cs[k] in cs;
      }
      if exists m :: m in Members(t) && m != [] && f(m) == Some(y) {
        var m :| m in Members(t) && m != [] && f(m) == Some(y);
        var k :| 0 <= k < |cs| && cs[k] == m;
        assert os[k] == Some(y);
      }
    }
  }

  /** The `i`-th trie of the fold contributes `x`: it holds `x`, and the tries
      merged before it left no node at `x`. */
  ghost predicate AddedBy<F>(acc: Trie<F>, ts: seq<Trie<F>>, x: seq<F>, i: nat)
    requires i < |ts|
  {
    Contains(ts[i], x) && !HasPath(UnionAll(acc, ts[..i]), x)
  }

  /** Some trie among the first `n` of the fold contributes `x`. */
  ghost predicate AddedAmong<F>(acc: Trie<F>, ts: seq<Trie<F>>, x: seq<F>, n: nat)
    requires n <= |ts|
  {
    exists i :: 0 <= i < n && AddedBy(acc, ts, x, i)
  }

  lemma AddedByPrefix<F>(acc: Trie<F>, ts: seq<Trie<F>>, x: seq<F>, n: nat)
    requires n <= |ts|
    ensures AddedAmong(acc, ts[..n], x, n) == AddedAmong(acc, ts, x, n)
  {
    forall i | 0 <= i < n ensures AddedBy(acc, ts[..n], x, i) == AddedBy(acc, ts, x, i) {
      assert ts[..n][..i] == ts[..i] && ts[..n][i] == ts[i];
    }
  }

  /** A left fold of the as-written union: `x` ends up in the result when the
      start holds it or some trie of the fold contributes it. */
  lemma {:induction false} UnionAllContains<F>(acc: Trie<F>, ts: seq<Trie<F>>, x: seq<F>)
    requires forall i :: 0 <= i < |ts| ==> Valid(ts[i])
    ensures Contains(UnionAll(acc, ts), x) <==>
              Contains(acc, x) || exists i :: 0 <= i < |ts| && AddedBy(acc, ts, x, i)
    ensures UnionAll(acc, ts).endHere == acc.endHere
    decreases |ts|
  {
    UnionAllAmong(acc, ts, x);
  }

  lemma {:induction false} UnionAllAmong<F>(acc: Trie<F>, ts: seq<Trie<F>>, x: seq<F>)
    requires forall i :: 0 <= i < |ts| ==> Valid(ts[i])
    ensures Contains(UnionAll(acc, ts), x) <==> Contains(acc, x) || AddedAmong(acc, ts, x, |ts|)
    ensures UnionAll(acc, ts).endHere == acc.endHere
    decreases |ts|
  {
    if ts != [] {
      var l := |ts| - 1;
      UnionAllAmong(acc, ts[..l], x);
      UnionAllLast(acc, ts, x);
      AddedByPrefix(acc, ts, x, l);
      assert AddedAmong(acc, ts, x, |ts|) <==> AddedAmong(acc, ts, x, l) || AddedBy(acc, ts, x, l);
    }
  }

  lemma UnionAllLast<F>(acc: Trie<F>, ts: seq<Trie<F>>, x: seq<F>)
    requires ts != [] && Valid(ts[|ts| - 1])
    ensures UnionAll(acc, ts).endHere == UnionAll(acc, ts[..|ts| - 1]).endHere
    ensures Contains(UnionAll(acc, ts), x) <==>
              Contains(UnionAll(acc, ts[..|ts| - 1]), x)
              || (Contains(ts[|ts| - 1], x) && !HasPath(UnionAll(acc, ts[..|ts| - 1]), x))
  {
    UnionContains(UnionAll(acc, ts[..|ts| - 1]), ts[|ts| - 1], x);
  }

  /** The trie-valued `flatMap`: never the empty sequence, and `x` is kept exactly
      when the transform of some listed member contributes it. */
  /** Folding the as-written union over valid tries keeps children keys distinct. */
  lemma {:induction false} UnionAllValid<F>(acc: Trie<F>, ts: seq<Trie<F>>)
    requires Valid(acc)
    requires forall i :: 0 <= i < |ts| ==> Valid(ts[i])
    ensures Valid(UnionAll(acc, ts))
    decreases |ts|
  {
    if ts != [] {
      var l := |ts| - 1;
      assert forall i :: 0 <= i < l ==> ts[..l][i] == ts[i];
      UnionAllValid(acc, ts[..l]);
      UnionValid(UnionAll(acc, ts[..l]), ts[l]);
    }
  }

  lemma FlatMapTriesContains<E, F>(t: Trie<E>, f: seq<E> -> Trie<F>, x: seq<F>)
    requires forall m :: Valid(f(m))
    ensures Valid(FlatMapTries(t, f))
    ensures !Contains(FlatMapTries(t, f), [])
    ensures Contains(FlatMapTries(t, f), x) <==>
              exists i :: 0 <= i < |Contents(t)| && AddedBy(Empty(), MapSeqs(Contents(t), f), x, i)
  {
    var ts := MapSeqs(Contents(t), f);
    assert forall i :: 0 <= i < |ts| ==> ts[i] == f(Contents(t)[i]);
    UnionAllContains(Empty(), ts, x);
    UnionAllContains(Empty(), ts, []);
    ContainsHasPath(Empty(), x);
    UnionAllValid(Empty(), ts);
  }

  /** The fold with the corrected union, and the `flatMap` that uses it. */
  function UnionAllFixed<F(==)>(acc: Trie<F>, ts: seq<Trie<F>>): Trie<F>
    decreases |ts|
  {
    if |ts| == 0 then acc
    else UnionFixed(UnionAllFixed(acc, ts[..|ts| - 1]), ts[|ts| - 1])
  }

  function FlatMapTriesFixed<E, F(==)>(t: Trie<E>, f: seq<E> -> Trie<F>): Trie<F>
  {
    UnionAllFixed(Empty(), MapSeqs(Contents(t), f))
  }

  /** Some trie in the list contains `x`. */
  ghost predicate AnyContains<F>(ts: seq<Trie<F>>, x: seq<F>)
  {
    exists i :: 0 <= i < |ts| && Contains(ts[i], x)
  }

  lemma AnyContainsLast<F>(ts: seq<Trie<F>>, x: seq<F>)
    requires ts != []
    ensures AnyContains(ts, x) <==> AnyContains(ts[..|ts| - 1], x) || Contains(ts[|ts| - 1], x)
  {
    var l := |ts| - 1;
    if AnyContains(ts, x) && !Contains(ts[l], x) {
      var i :| 0 <= i < |ts| && Contains(ts[i], x);
      assert ts[..l][i] == ts[i];
    }
    if AnyContains(ts[..l], x) {
      var i :| 0 <= i < l && Contains(ts[..l][i], x);
      assert ts[..l][i] == ts[i];
    }
  }

  lemma {:induction false} UnionAllFixedContains<F>(acc: Trie<F>, ts: seq<Trie<F>>, x: seq<F>)
    requires forall i :: 0 <= i < |ts| ==> Valid(ts[i])
    ensures Contains(UnionAllFixed(acc, ts), x) <==> Contains(acc, x) || AnyContains(ts, x)
    decreases |ts|
  {
    if ts != [] {
      var l := |ts| - 1;
      assert forall i :: 0 <= i < l ==> ts[..l][i] == ts[i];
      UnionAllFixedContains(acc, ts[..l], x);
      UnionFixedContains(UnionAllFixed(acc, ts[..l]), ts[l], x);
      AnyContainsLast(ts, x);
    }
  }

  /** Folding the corrected union over valid tries keeps children keys distinct. */
  lemma {:induction false} UnionAllFixedValid<F>(acc: Trie<F>, ts: seq<Trie<F>>)
    requires Valid(acc)
    requires forall i :: 0 <= i < |ts| ==> Valid(ts[i])
    ensures Valid(UnionAllFixed(acc, ts))
    decreases |ts|
  {
    if ts != [] {
      var l := |ts| - 1;
      assert forall i :: 0 <= i < l ==> ts[..l][i] == ts[i];
      UnionAllFixedValid(acc, ts[..l]);
      UnionFixedValid(UnionAllFixed(acc, ts[..l]), ts[l]);
    }
  }

  /** With the corrected union, the trie-valued `flatMap` is the union of the
      transforms of the non-empty members. */
  lemma FlatMapTriesFixedContains<E, F>(t: Trie<E>, f: seq<E> -> Trie<F>, x: seq<F>)
    requires Valid(t)
    requires forall m :: Valid(f(m))
    ensures Valid(FlatMapTriesFixed(t, f))
    ensures Contains(FlatMapTriesFixed(t, f), x) <==>
              exists m :: m in Members(t) && m != [] && Contains(f(m), x)
  {
    var cs := Contents(t);
    var ts := MapSeqs(cs, f);
    UnionAllFixedContains(Empty(), ts, x);
    UnionAllFixedValid(Empty(), ts);
    ContainsHasPath(Empty(), x);
    ContentsElemsValid(t);
    if exists m :: m in Members(t) && m != [] && Contains(f(m), x) {
      var m :| m in Members(t) && m != [] && Contains(f(m), x);
      var k :| 0 <= k < |cs| && cs[k] == m;
      assert Contains(ts[k], x);
    }
    if AnyContains(ts, x) {
      var i :| 0 <= i < |ts| && Contains(ts[i], x);
      assert cs[i] in cs;
    }
  }

  /** `filter` holds the non-empty members the predicate accepts. */
  lemma FilterMembers<E(!new)>(t: Trie<E>, p: seq<E> -> bool)
    requires Valid(t)
    ensures Valid(Filter(t, p))
    ensures Members(Filter(t, p)) == set m | m in Members(t) && m != [] && p(m)
  {
    FromSeqsMembers(Finding.Filter(Contents(t), p));
    Finding.FilterSpec(Contents(t), p);
    ContentsElemsValid(t);
  }
}
