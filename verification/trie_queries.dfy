/**
  Enumerating a trie (SwiftSequence/Trie.swift: `contents`, `completions`,
  `count`).  `contents` walks the children in dictionary order and never lists
  the empty sequence; `completions` returns whole members, prefix included.
*/
module TrieQueries {
  import opened Options
  import opened Tries

  /** `map { [head] + $0 }`. */
  function PrefixAll<E>(h: E, ss: seq<seq<E>>): seq<seq<E>>
  {
    seq(|ss|, k requires 0 <= k < |ss| => [h] + ss[k])
  }

  predicate Distinct<T(==)>(xs: seq<T>)
  {
    forall i, j :: 0 <= i < j < |xs| ==> xs[i] != xs[j]
  }

  ghost function Elems<T>(xs: seq<T>): set<T>
  {
    set x | x in xs
  }

  /** `contents`: for every child, its own contents with the key in front, then
      the one-element sequence of the key when the child is terminal. */
  function Contents<E>(t: Trie<E>): seq<seq<E>>
    decreases t, 1
  {
    ContentsFrom(t, 0)
  }

  function ContentsFrom<E>(t: Trie<E>, i: nat): seq<seq<E>>
    requires i <= |t.children|
    decreases t, 0, |t.children| - i
  {
    if i == |t.children| then []
    else
      var (h, c) := t.children[i];
      PrefixAll(h, Contents(c)) + (if c.endHere then [[h]] else []) + ContentsFrom(t, i + 1)
  }

  /** `count`: the flag plus the children's counts. */
  function Count<E>(t: Trie<E>): nat
    decreases t, 1
  {
    (if t.endHere then 1 else 0) + CountFrom(t, 0)
  }

  function CountFrom<E>(t: Trie<E>, i: nat): nat
    requires i <= |t.children|
    decreases t, 0, |t.children| - i
  {
    if i == |t.children| then 0 else Count(t.children[i].1) + CountFrom(t, i + 1)
  }

  /** `completions`: follow the prefix; a missing child gives nothing, the node
      reached gives its `contents`, and every level puts its key back in front. */
  function Completions<E(==)>(t: Trie<E>, p: seq<E>): seq<seq<E>>
    decreases |p|
  {
    if |p| == 0 then Contents(t)
    else
      match Child(t.children, p[0])
      case None => []
      case Some(c) => PrefixAll(p[0], Completions(c, p[1..]))
  }

  // ---------------------------------------------------------------------------
  // contents
  // ---------------------------------------------------------------------------

  lemma PrefixedSplit<E>(h: E, S: set<seq<E>>)
    ensures Prefixed(h, S) == Prefixed(h, S - {[]}) + (if [] in S then {[h]} else {})
  {
    forall x | x in Prefixed(h, S)
      ensures x in Prefixed(h, S - {[]}) + (if [] in S then {[h]} else {})
    {
      var s :| s in S && x == [h] + s;
      if s != [] { assert x in Prefixed(h, S - {[]}); }
    }
    if [] in S { assert [h] + [] == [h]; }
  }

  lemma {:induction false} ContentsElems<E>(t: Trie<E>)
    ensures Elems(Contents(t)) == Members(t) - {[]}
    decreases t, 1
  {
    ContentsFromElems(t, 0);
    assert [] !in MembersFrom(t, 0) by { MembersFromIff(t, 0, []); }
  }

  /** Putting a key in front of every listed sequence prefixes the listed set. */
  lemma PrefixAllElems<E>(h: E, ss: seq<seq<E>>)
    ensures Elems(PrefixAll(h, ss)) == Prefixed(h, Elems(ss))
  {
    var P := PrefixAll(h, ss);
    forall x | x in Prefixed(h, Elems(ss)) ensures x in Elems(P) {
      var s :| s in Elems(ss) && x == [h] + s;
      var k :| 0 <= k < |ss| && ss[k] == s;
      assert P[k] == x;
    }
  }

  lemma {:induction false} ContentsFromElems<E>(t: Trie<E>, i: nat)
    requires i <= |t.children|
    ensures Elems(ContentsFrom(t, i)) == MembersFrom(t, i)
    decreases t, 0, |t.children| - i
  {
    if i < |t.children| {
      var (h, c) := t.children[i];
      ContentsElems(c);
      ContentsFromElems(t, i + 1);
      var P := PrefixAll(h, Contents(c));
      PrefixAllElems(h, Contents(c));
      PrefixedSplit(h, Members(c));
      MemberIff(c, []);
      var Q := if c.endHere then [[h]] else [];
      assert Elems(P + Q + ContentsFrom(t, i + 1))
          == Elems(P) + Elems(Q) + Elems(ContentsFrom(t, i + 1));
    }
  }

  lemma DistinctAppend<T>(a: seq<T>, b: seq<T>)
    requires Distinct(a) && Distinct(b)
    requires forall i, j :: 0 <= i < |a| && 0 <= j < |b| ==> a[i] != b[j]
    ensures Distinct(a + b)
  {
    forall i, j | 0 <= i < j < |a + b| ensures (a + b)[i] != (a + b)[j] {
      if j < |a| {
      } else if i >= |a| {
        assert (a + b)[i] == b[i - |a|] && (a + b)[j] == b[j - |a|];
      } else {
        assert (a + b)[j] == b[j - |a|];
      }
    }
  }

  /** Every listed sequence is non-empty and starts with a key of `t`. */
  lemma ContentsFromHeads<E>(t: Trie<E>, i: nat, x: seq<E>)
    requires i <= |t.children|
    requires x in ContentsFrom(t, i)
    ensures x != [] && exists j :: i <= j < |t.children| && t.children[j].0 == x[0]
  {
    ContentsFromElems(t, i);
    MembersFromIff(t, i, x);
  }

  lemma {:induction false} ContentsDistinct<E>(t: Trie<E>)
    requires Valid(t)
    ensures Distinct(Contents(t))
    decreases t, 1
  {
    ContentsFromDistinct(t, 0);
  }

  lemma {:induction false} ContentsFromDistinct<E>(t: Trie<E>, i: nat)
    requires Valid(t) && i <= |t.children|
    ensures Distinct(ContentsFrom(t, i))
    decreases t, 0, |t.children| - i
  {
    if i < |t.children| {
      var (h, c) := t.children[i];
      ContentsDistinct(c);
      ContentsFromDistinct(t, i + 1);
      var P := PrefixAll(h, Contents(c));
      var Q: seq<seq<E>> := if c.endHere then [[h]] else [];
      var R := ContentsFrom(t, i + 1);
      ContentsElems(c);
      assert Distinct(P) by {
        forall a, b | 0 <= a < b < |P| ensures P[a] != P[b] {
          assert P[a][1..] == Contents(c)[a] && P[b][1..] == Contents(c)[b];
        }
      }
      forall a | 0 <= a < |P| ensures |P[a]| >= 2 {
        assert Contents(c)[a] in Elems(Contents(c));
      }
      DistinctAppend(P, Q);
      forall a, b | 0 <= a < |P + Q| && 0 <= b < |R| ensures (P + Q)[a] != R[b] {
        ContentsFromHeads(t, i + 1, R[b]);
        var j :| i + 1 <= j < |t.children| && t.children[j].0 == R[b][0];
        assert (P + Q)[a][0] == h;
      }
      DistinctAppend(P + Q, R);
    }
  }

  /** `contents` lists exactly the non-empty members, each once; the empty
      sequence is never listed, even when the root is terminal. */
  lemma ContentsSpec<E>(t: Trie<E>, x: seq<E>)
    requires Valid(t)
    ensures x in Contents(t) <==> x != [] && Contains(t, x)
    ensures [] !in Contents(t)
    ensures Distinct(Contents(t))
  {
    ContentsElems(t);
    ContainsIffMember(t, x);
    ContentsDistinct(t);
    assert x in Contents(t) <==> x in Elems(Contents(t));
    assert [] !in Elems(Contents(t));
  }

  // ---------------------------------------------------------------------------
  // count
  // ---------------------------------------------------------------------------

  lemma {:induction false} CountContents<E>(t: Trie<E>)
    ensures Count(t) == |Contents(t)| + (if t.endHere then 1 else 0)
    decreases t, 1
  {
    CountFromContents(t, 0);
  }

  lemma {:induction false} CountFromContents<E>(t: Trie<E>, i: nat)
    requires i <= |t.children|
    ensures CountFrom(t, i) == |ContentsFrom(t, i)|
    decreases t, 0, |t.children| - i
  {
    if i < |t.children| {
      CountContents(t.children[i].1);
      CountFromContents(t, i + 1);
    }
  }

  lemma {:induction false} DistinctCard<T>(xs: seq<T>)
    requires Distinct(xs)
    ensures |Elems(xs)| == |xs|
    decreases |xs|
  {
    if xs != [] {
      var l := |xs| - 1;
      DistinctCard(xs[..l]);
      assert Elems(xs) == Elems(xs[..l]) + {xs[l]} by {
        assert xs == xs[..l] + [xs[l]];
      }
      assert xs[l] !in Elems(xs[..l]);
    }
  }

  /** `count` is the size of the whole member set, the empty sequence included. */
  lemma CountMembers<E>(t: Trie<E>)
    requires Valid(t)
    ensures Count(t) == |Members(t)|
    ensures Count(Empty<E>()) == 0
  {
    CountContents(t);
    ContentsElems(t);
    ContentsDistinct(t);
    DistinctCard(Contents(t));
    MemberIff(t, []);
  }

  // ---------------------------------------------------------------------------
  // completions
  // ---------------------------------------------------------------------------

  /** Membership in, and distinctness of, a list with a key put in front of every entry. */
  lemma PrefixAllSpec<E>(h: E, C: seq<seq<E>>, x: seq<E>)
    ensures x in PrefixAll(h, C) <==> x != [] && x[0] == h && x[1..] in C
    ensures Distinct(C) ==> Distinct(PrefixAll(h, C))
  {
    var P := PrefixAll(h, C);
    if x in P {
      var k :| 0 <= k < |P| && P[k] == x;
      assert x[1..] == C[k];
    }
    if x != [] && x[0] == h && x[1..] in C {
      var k :| 0 <= k < |C| && C[k] == x[1..];
      assert P[k] == x;
    }
    if Distinct(C) {
      forall a, b | 0 <= a < b < |P| ensures P[a] != P[b] {
        assert P[a][1..] == C[a] && P[b][1..] == C[b];
      }
    }
  }

  /** `completions(p)` is exactly the members that strictly extend `p`, returned
      whole (with `p` in front), each once. */
  lemma {:induction false} CompletionsSpec<E>(t: Trie<E>, p: seq<E>, x: seq<E>)
    requires Valid(t)
    ensures x in Completions(t, p) <==> |x| > |p| && x[..|p|] == p && Contains(t, x)
    ensures Distinct(Completions(t, p))
    ensures !HasPath(t, p) ==> Completions(t, p) == []
    decreases |p|
  {
    if |p| == 0 {
      ContentsSpec(t, x);
    } else {
      match Child(t.children, p[0])
      case None =>
        if x != [] && x[0] == p[0] { assert Child(t.children, x[0]).None?; }
      case Some(c) =>
        var j :| 0 <= j < |t.children| && t.children[j] == (p[0], c);
        assert Valid(c);
        var y := if x == [] then [] else x[1..];
        CompletionsSpec(c, p[1..], y);
        PrefixAllSpec(p[0], Completions(c, p[1..]), x);
        if |x| > |p| {
          assert x[..|p|][1..] == y[..|p| - 1];
          if x[0] == p[0] && y[..|p| - 1] == p[1..] {
            assert x[..|p|] == [x[0]] + y[..|p| - 1];
            assert p == [p[0]] + p[1..];
          }
        }
    }
  }

  lemma CompletionsConcat<E>(t: Trie<E>, p: seq<E>, q: seq<E>)
    requires Valid(t)
    ensures p + q in Completions(t, p) <==> q != [] && Contains(t, p + q)
  {
    CompletionsSpec(t, p, p + q);
    assert (p + q)[..|p|] == p;
  }
}
