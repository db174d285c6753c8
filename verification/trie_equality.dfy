/**
  Structural equality of tries (SwiftSequence/Trie.swift:24-28): equal flags and
  equal children dictionaries, where dictionary equality is equal counts plus,
  for every entry on the left, an equal entry under the same key on the right.
*/
module TrieEquality {
  import opened Options
  import opened Tries
  import opened TrieUpdate

  /** `==` on tries. */
  predicate Equal<E(==)>(a: Trie<E>, b: Trie<E>)
    decreases a
  {
    && a.endHere == b.endHere
    && |a.children| == |b.children|
    && forall i :: 0 <= i < |a.children| ==>
         match Child(b.children, a.children[i].0)
         case None => false
         case Some(c) => Equal(a.children[i].1, c)
  }

  lemma {:induction false} DistinctKeysCard<E>(kids: Children<E>)
    requires DistinctKeys(kids)
    ensures |Keys(kids)| == |kids|
    decreases |kids|
  {
    if kids != [] {
      var l := |kids| - 1;
      var front := kids[..l];
      DistinctKeysCard(front);
      assert Keys(kids) == Keys(front) + {kids[l].0} by {
        forall k | k in Keys(kids) ensures k in Keys(front) + {kids[l].0} {
          var j :| 0 <= j < |kids| && kids[j].0 == k;
          if j < l { assert front[j].0 == k; }
        }
        forall k | k in Keys(front) ensures k in Keys(kids) {
          var j :| 0 <= j < |front| && front[j].0 == k;
          assert kids[j].0 == k;
        }
      }
      assert kids[l].0 !in Keys(front);
    }
  }

  lemma SubsetSameCard<T>(A: set<T>, B: set<T>)
    requires A <= B && |A| == |B|
    ensures A == B
  {
    assert |B - A| == |B| - |A|;
  }

  /** Equal counts and one-way key inclusion give equal key sets, because the
      keys of a dictionary are distinct. */
  lemma EqualKeys<E>(a: Trie<E>, b: Trie<E>)
    requires Valid(a) && Valid(b) && Equal(a, b)
    ensures Keys(a.children) == Keys(b.children)
  {
    assert Keys(a.children) <= Keys(b.children) by {
      forall k | k in Keys(a.children) ensures k in Keys(b.children) {
        var j :| 0 <= j < |a.children| && a.children[j].0 == k;
      }
    }
    DistinctKeysCard(a.children);
    DistinctKeysCard(b.children);
    SubsetSameCard(Keys(a.children), Keys(b.children));
  }

  /** `==`-equal tries answer `contains` alike. */
  lemma {:induction false} EqualContains<E>(a: Trie<E>, b: Trie<E>, x: seq<E>)
    requires Valid(a) && Valid(b) && Equal(a, b)
    ensures Contains(a, x) == Contains(b, x)
    decreases |x|
  {
    if x != [] {
      EqualKeys(a, b);
      var h := x[0];
      if h in Keys(a.children) {
        var i := IndexOf(a.children, h);
        var c := Child(b.children, h).value;
        var j :| 0 <= j < |b.children| && b.children[j] == (h, c);
        assert Valid(c);
        EqualContains(a.children[i].1, c, x[1..]);
      }
    }
  }

  lemma EqualMembers<E(!new)>(a: Trie<E>, b: Trie<E>)
    requires Valid(a) && Valid(b) && Equal(a, b)
    ensures Members(a) == Members(b)
  {
    forall x ensures x in Members(a) <==> x in Members(b) {
      EqualContains(a, b, x);
      ContainsIffMember(a, x);
      ContainsIffMember(b, x);
    }
  }

  lemma {:induction false} EqualReflexive<E>(t: Trie<E>)
    requires Valid(t)
    ensures Equal(t, t)
    decreases t
  {
    forall i | 0 <= i < |t.children|
      ensures Child(t.children, t.children[i].0) == Some(t.children[i].1)
      ensures Equal(t.children[i].1, t.children[i].1)
    {
      assert IndexOf(t.children, t.children[i].0) == i;
      EqualReflexive(t.children[i].1);
    }
  }

  /** Inserting the same sequence twice gives a trie `==` to inserting it once. */
  lemma InsertTwiceEqual<E>(t: Trie<E>, s: seq<E>)
    requires Valid(t)
    ensures Equal(Insert(Insert(t, s), s), Insert(t, s))
  {
    InsertIdempotent(t, s);
    InsertValid(t, s);
    EqualReflexive(Insert(t, s));
  }

  /** `==` is structural, not set equality: a removed sequence leaves its nodes
      behind, so the result holds nothing yet differs from the empty trie. */
  lemma EqualIsStructural<E>(e: E)
    ensures Members(Remove(Chain([e]), [e])) == Members(Empty<E>())
    ensures !Equal(Remove(Chain([e]), [e]), Empty<E>())
  {
    var t := Remove(Chain([e]), [e]);
    assert [e][1..] == [];
    assert IndexOf(Chain([e]).children, e) == 0;
    var none: seq<E> := [];
    assert Remove(Chain(none), none) == Empty();
    assert t == Node(false, [(e, Empty())]);
    assert Members(Empty<E>()) == {};
    assert MembersFrom(t, 0) == {};
    assert Prefixed(e, {}) == {};
  }
}
