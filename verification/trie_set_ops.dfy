/**
  The set methods of SwiftSequence/Trie.swift:167-211.  `exclusiveOr`,
  `intersect` and `isDisjointWith` take an arbitrary collection of candidate
  sequences; `unionInPlace` merges another trie's children into this one.
  The non-mutating and in-place forms of each operation share one function here,
  since a value-typed receiver is returned instead of being updated.
*/
module TrieSetOps {
  import opened Options
  import opened Tries
  import opened TrieUpdate
  import Finding
  import TrieQueries

  // ---------------------------------------------------------------------------
  // exclusiveOr / exclusiveOrInPlace (Trie.swift:167-183)
  // ---------------------------------------------------------------------------

  /** `exclusiveOrInPlace`: remove every candidate in turn. */
  function ExclusiveOr<E(==)>(t: Trie<E>, cs: seq<seq<E>>): Trie<E>
    decreases |cs|
  {
    if |cs| == 0 then t else ExclusiveOr(Remove(t, cs[0]), cs[1..])
  }

  /** A sequence survives `exclusiveOr` exactly when it was a member and is not a
      candidate: a subtraction, never adding a candidate the trie lacked. */
  lemma {:induction false} ExclusiveOrContains<E>(t: Trie<E>, cs: seq<seq<E>>, x: seq<E>)
    ensures Contains(ExclusiveOr(t, cs), x) <==> Contains(t, x) && x !in cs
    ensures Valid(t) ==> Valid(ExclusiveOr(t, cs))
    decreases |cs|
  {
    if cs != [] {
      RemoveContains(t, cs[0], x);
      if Valid(t) { RemoveValid(t, cs[0]); }
      ExclusiveOrContains(Remove(t, cs[0]), cs[1..], x);
      assert cs == [cs[0]] + cs[1..];
    }
  }

  lemma ExclusiveOrMembers<E(!new)>(t: Trie<E>, cs: seq<seq<E>>)
    requires Valid(t)
    ensures Members(ExclusiveOr(t, cs)) == Members(t) - (set c | c in cs)
  {
    ExclusiveOrContains(t, cs, []);
    forall x ensures x in Members(ExclusiveOr(t, cs)) <==> x in Members(t) && x !in cs {
      ExclusiveOrContains(t, cs, x);
      ContainsIffMember(t, x);
      ContainsIffMember(ExclusiveOr(t, cs), x);
    }
  }

  // ---------------------------------------------------------------------------
  // intersect / intersectInPlace (Trie.swift:185-199)
  // ---------------------------------------------------------------------------

  /** `intersect`: a fresh trie built from the candidates this trie contains. */
  function Intersect<E(==)>(t: Trie<E>, cs: seq<seq<E>>): Trie<E>
  {
    FromSeqs(Finding.Filter(cs, x => Contains(t, x)))
  }

  lemma IntersectContains<E>(t: Trie<E>, cs: seq<seq<E>>, x: seq<E>)
    ensures Contains(Intersect(t, cs), x) <==> x in cs && Contains(t, x)
    ensures Valid(Intersect(t, cs))
  {
    var kept := Finding.Filter(cs, y => Contains(t, y));
    Finding.FilterSpec(cs, y => Contains(t, y));
    InsertAllContains(Empty(), kept, x);
    ContainsHasPath(Empty(), x);
  }

  lemma IntersectMembers<E(!new)>(t: Trie<E>, cs: seq<seq<E>>)
    requires Valid(t)
    ensures Members(Intersect(t, cs)) == (set c | c in cs) * Members(t)
  {
    forall x ensures x in Members(Intersect(t, cs)) <==> x in cs && x in Members(t) {
      IntersectContains(t, cs, x);
      ContainsIffMember(t, x);
      ContainsIffMember(Intersect(t, cs), x);
    }
  }

  // ---------------------------------------------------------------------------
  // isDisjointWith (Trie.swift:201-205)
  // ---------------------------------------------------------------------------

  /** `isDisjointWith`: no candidate is contained, scanning until the first hit. */
  function IsDisjointWith<E(==)>(t: Trie<E>, cs: seq<seq<E>>): (r: bool)
    ensures r <==> forall i :: 0 <= i < |cs| ==> !Contains(t, cs[i])
    decreases |cs|
  {
    if |cs| == 0 then true
    else if Contains(t, cs[0]) then false
    else
      var r := IsDisjointWith(t, cs[1..]);
      assert forall i :: 1 <= i < |cs| ==> cs[i] == cs[1..][i - 1];
      r
  }

  /** Against another trie's `contents`, disjointness ignores the empty sequence,
      which `contents` never lists. */
  lemma DisjointWithContents<E(!new)>(a: Trie<E>, b: Trie<E>)
    requires Valid(a) && Valid(b)
    ensures IsDisjointWith(a, TrieQueries.Contents(b)) <==> Members(a) * Members(b) <= {[]}
  {
    var cb := TrieQueries.Contents(b);
    if IsDisjointWith(a, cb) {
      forall x | x in Members(a) * Members(b) ensures x == [] {
        ContainsIffMember(a, x);
        ContainsIffMember(b, x);
        TrieQueries.ContentsSpec(b, x);
      }
    } else {
      var i :| 0 <= i < |cb| && Contains(a, cb[i]);
      TrieQueries.ContentsSpec(b, cb[i]);
      ContainsIffMember(a, cb[i]);
      ContainsIffMember(b, cb[i]);
      assert cb[i] in Members(a) * Members(b);
    }
  }

  // ---------------------------------------------------------------------------
  // unionInPlace (Trie.swift:207-211), as written
  // ---------------------------------------------------------------------------

  /** `unionInPlace(w)`: for each child of `w`, merge it into this trie's child
      under the same key, or adopt it when there is none.  The receiver's own
      flag is kept; `w`'s flag is never consulted. */
  function Union<E(==)>(a: Trie<E>, w: Trie<E>): Trie<E>
    decreases w, 1
  {
    Node(a.endHere, MergeFrom(a.children, w, 0))
  }

  function MergeFrom<E(==)>(kids: Children<E>, w: Trie<E>, i: nat): Children<E>
    requires i <= |w.children|
    decreases w, 0, |w.children| - i
  {
    if i == |w.children| then kids
    else
      var (h, c) := w.children[i];
      var existing := Child(kids, h);
      var merged := if existing.Some? then Union(existing.value, c) else c;
      MergeFrom(Put(kids, h, merged), w, i + 1)
  }

  lemma ChildSuffix<E>(kids: Children<E>, i: nat, k: E)
    requires DistinctKeys(kids) && i < |kids|
    ensures Child(kids[i..], kids[i].0) == Some(kids[i].1)
    ensures Child(kids[i + 1..], kids[i].0) == None
    ensures k != kids[i].0 ==> Child(kids[i..], k) == Child(kids[i + 1..], k)
  {
    var rest := kids[i + 1..];
    assert IndexOf(kids[i..], kids[i].0) == 0;
    assert kids[i].0 !in Keys(rest);
    if k != kids[i].0 {
      assert kids[i..][1..] == rest;
    }
  }

  /** What the union contains: everything `a` contains, plus the members of `w`
      whose walk falls off `a` (a member of `w` ending at a node `a` already has
      is not copied). */
  lemma {:induction false} UnionContains<E>(a: Trie<E>, w: Trie<E>, x: seq<E>)
    requires Valid(w)
    ensures Contains(Union(a, w), x) <==>
              Contains(a, x) || (Contains(w, x) && !HasPath(a, x))
    decreases w, 1
  {
    if x != [] {
      MergeFromContains(a.children, w, 0, x);
      assert w.children[0..] == w.children;
    }
  }

  lemma {:induction false} MergeFromContains<E>(kids: Children<E>, w: Trie<E>, i: nat, x: seq<E>)
    requires Valid(w) && i <= |w.children| && x != []
    ensures Contains(Node(false, MergeFrom(kids, w, i)), x) <==>
              Contains(Node(false, kids), x)
              || (Contains(Node(false, w.children[i..]), x) && !HasPath(Node(false, kids), x))
    decreases w, 0, |w.children| - i
  {
    if i < |w.children| {
      var h, c := w.children[i].0, w.children[i].1;
      assert Valid(c);
      var existing := Child(kids, h);
      var merged := if existing.Some? then Union(existing.value, c) else c;
      var kids' := Put(kids, h, merged);
      MergeFromContains(kids', w, i + 1, x);
      ChildSuffix(w.children, i, x[0]);
      if x[0] == h {
        if existing.Some? { UnionContains(existing.value, c, x[1..]); }
      } else {
        PutOther(kids, h, merged, x[0]);
      }
    }
  }

  lemma {:induction false} UnionValid<E>(a: Trie<E>, w: Trie<E>)
    requires Valid(a) && Valid(w)
    ensures Valid(Union(a, w))
    decreases w, 1
  {
    MergeFromValid(a.children, w, 0);
  }

  lemma {:induction false} MergeFromValid<E>(kids: Children<E>, w: Trie<E>, i: nat)
    requires Valid(Node(false, kids)) && Valid(w) && i <= |w.children|
    ensures Valid(Node(false, MergeFrom(kids, w, i)))
    decreases w, 0, |w.children| - i
  {
    if i < |w.children| {
      var h, c := w.children[i].0, w.children[i].1;
      assert Valid(c);
      var existing := Child(kids, h);
      var merged := if existing.Some? then Union(existing.value, c) else c;
      if existing.Some? {
        ChildValid(kids, h);
        UnionValid(existing.value, c);
      }
      PutValid(kids, h, merged);
      MergeFromValid(Put(kids, h, merged), w, i + 1);
      assert MergeFrom(kids, w, i) == MergeFrom(Put(kids, h, merged), w, i + 1);
    }
  }

  /** As a set: `a` grows by the members of `w` off `a`'s paths; nothing of `a`
      is lost, and a `w` without children changes nothing. */
  lemma UnionMembers<E(!new)>(a: Trie<E>, w: Trie<E>)
    requires Valid(a) && Valid(w)
    ensures Valid(Union(a, w))
    ensures Members(Union(a, w)) == Members(a) + (set x | x in Members(w) && !HasPath(a, x))
    ensures Members(a) <= Members(Union(a, w))
    ensures w.children == [] ==> Union(a, w) == a
  {
    UnionValid(a, w);
    forall x ensures x in Members(Union(a, w)) <==>
                       x in Members(a) || (x in Members(w) && !HasPath(a, x)) {
      UnionContains(a, w, x);
      ContainsIffMember(a, x);
      ContainsIffMember(w, x);
      ContainsIffMember(Union(a, w), x);
    }
  }

  /** The lost terminal flag: {"ab"} united with {"a"} does not contain "a". */
  lemma UnionDropsTerminal()
    ensures Contains(FromSeqs(["a"]), "a")
    ensures !Contains(Union(FromSeqs(["ab"]), FromSeqs(["a"])), "a")
  {
  }

  // ---------------------------------------------------------------------------
  // union with the terminal flags or-ed (the evidently intended merge)
  // ---------------------------------------------------------------------------

  /** Like `Union`, but a node reached in both tries is terminal when it is
      terminal in either. */
  function UnionFixed<E(==)>(a: Trie<E>, w: Trie<E>): Trie<E>
    decreases w, 1
  {
    Node(a.endHere || w.endHere, MergeFixedFrom(a.children, w, 0))
  }

  function MergeFixedFrom<E(==)>(kids: Children<E>, w: Trie<E>, i: nat): Children<E>
    requires i <= |w.children|
    decreases w, 0, |w.children| - i
  {
    if i == |w.children| then kids
    else
      var (h, c) := w.children[i];
      var existing := Child(kids, h);
      var merged := if existing.Some? then UnionFixed(existing.value, c) else c;
      MergeFixedFrom(Put(kids, h, merged), w, i + 1)
  }

  lemma {:induction false} UnionFixedContains<E>(a: Trie<E>, w: Trie<E>, x: seq<E>)
    requires Valid(w)
    ensures Contains(UnionFixed(a, w), x) <==> Contains(a, x) || Contains(w, x)
    decreases w, 1
  {
    if x != [] {
      MergeFixedFromContains(a.children, w, 0, x);
      assert w.children[0..] == w.children;
    }
  }

  lemma {:induction false} MergeFixedFromContains<E>(kids: Children<E>, w: Trie<E>, i: nat, x: seq<E>)
    requires Valid(w) && i <= |w.children| && x != []
    ensures Contains(Node(false, MergeFixedFrom(kids, w, i)), x) <==>
              Contains(Node(false, kids), x) || Contains(Node(false, w.children[i..]), x)
    decreases w, 0, |w.children| - i
  {
    if i < |w.children| {
      var h, c := w.children[i].0, w.children[i].1;
      assert Valid(c);
      var existing := Child(kids, h);
      var merged := if existing.Some? then UnionFixed(existing.value, c) else c;
      var kids' := Put(kids, h, merged);
      MergeFixedFromContains(kids', w, i + 1, x);
      ChildSuffix(w.children, i, x[0]);
      if x[0] == h {
        if existing.Some? { UnionFixedContains(existing.value, c, x[1..]); }
      } else {
        PutOther(kids, h, merged, x[0]);
      }
    }
  }

  lemma {:induction false} UnionFixedValid<E>(a: Trie<E>, w: Trie<E>)
    requires Valid(a) && Valid(w)
    ensures Valid(UnionFixed(a, w))
    decreases w, 1
  {
    MergeFixedFromValid(a.children, w, 0);
  }

  lemma {:induction false} MergeFixedFromValid<E>(kids: Children<E>, w: Trie<E>, i: nat)
    requires Valid(Node(false, kids)) && Valid(w) && i <= |w.children|
    ensures Valid(Node(false, MergeFixedFrom(kids, w, i)))
    decreases w, 0, |w.children| - i
  {
    if i < |w.children| {
      var h, c := w.children[i].0, w.children[i].1;
      assert Valid(c);
      var existing := Child(kids, h);
      var merged := if existing.Some? then UnionFixed(existing.value, c) else c;
      if existing.Some? {
        ChildValid(kids, h);
        UnionFixedValid(existing.value, c);
      }
      PutValid(kids, h, merged);
      MergeFixedFromValid(Put(kids, h, merged), w, i + 1);
      assert MergeFixedFrom(kids, w, i) == MergeFixedFrom(Put(kids, h, merged), w, i + 1);
    }
  }

  /** The corrected merge is set union. */
  lemma UnionFixedMembers<E(!new)>(a: Trie<E>, w: Trie<E>)
    requires Valid(a) && Valid(w)
    ensures Valid(UnionFixed(a, w))
    ensures Members(UnionFixed(a, w)) == Members(a) + Members(w)
  {
    UnionFixedValid(a, w);
    forall x ensures x in Members(UnionFixed(a, w)) <==> x in Members(a) || x in Members(w) {
      UnionFixedContains(a, w, x);
      ContainsIffMember(a, x);
      ContainsIffMember(w, x);
      ContainsIffMember(UnionFixed(a, w), x);
    }
  }
}
