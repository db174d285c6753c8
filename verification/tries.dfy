/**
  The trie representation (SwiftSequence/Trie.swift, "Definition"): a node holds
  the flag `endHere` and a dictionary from element to child trie.  The dictionary
  is an association list whose keys are kept distinct (`Valid`); its order is the
  dictionary's iteration order, which the source leaves unspecified.

  The abstraction function `Members` maps a node to the set of paths that end at a
  node whose `endHere` is set; `Contains` is the lookup the source performs, and
  `ContainsIffMember` connects the two.
*/
module Tries {
  import opened Options

  datatype Trie<E> = Node(endHere: bool, children: seq<(E, Trie<E>)>)

  type Children<E> = seq<(E, Trie<E>)>

  /** `Trie()`: no flag, no children. */
  function Empty<E>(): (t: Trie<E>)
    ensures Members(t) == {}
  {
    Node(false, [])
  }

  // ---------------------------------------------------------------------------
  // The children dictionary
  // ---------------------------------------------------------------------------

  function Keys<E>(kids: Children<E>): set<E>
  {
    set j | 0 <= j < |kids| :: kids[j].0
  }

  predicate DistinctKeys<E(==)>(kids: Children<E>)
  {
    forall i, j :: 0 <= i < j < |kids| ==> kids[i].0 != kids[j].0
  }

  /** Position of the (first) entry for key `h`, or -1: the dictionary subscript. */
  function IndexOf<E(==)>(kids: Children<E>, h: E): (r: int)
    ensures -1 <= r < |kids|
    ensures r < 0 <==> h !in Keys(kids)
    ensures 0 <= r ==> kids[r].0 == h && forall j :: 0 <= j < r ==> kids[j].0 != h
  {
    if |kids| == 0 then -1
    else if kids[0].0 == h then 0
    else
      var r := IndexOf(kids[1..], h);
      assert Keys(kids) == {kids[0].0} + Keys(kids[1..]) by {
        forall k | k in Keys(kids) ensures k in {kids[0].0} + Keys(kids[1..]) {
          var j :| 0 <= j < |kids| && kids[j].0 == k;
          if j > 0 { assert kids[1..][j - 1].0 == k; }
        }
      }
      if r < 0 then -1 else r + 1
  }

  /** `children[h]`. */
  function Child<E(==)>(kids: Children<E>, h: E): (r: Option<Trie<E>>)
    ensures r.None? <==> h !in Keys(kids)
    ensures r.Some? ==> exists j :: 0 <= j < |kids| && kids[j] == (h, r.value)
  {
    var i := IndexOf(kids, h);
    if i < 0 then None else Some(kids[i].1)
  }

  /** `children[h] = c`: an existing entry is overwritten in place, a new one is
      appended. */
  function Put<E(==)>(kids: Children<E>, h: E, c: Trie<E>): (r: Children<E>)
    ensures Child(r, h) == Some(c)
    ensures Keys(r) == Keys(kids) + {h}
    ensures DistinctKeys(kids) ==> DistinctKeys(r)
    ensures forall j :: 0 <= j < |r| ==> r[j] == (h, c) || r[j] in kids
  {
    var i := IndexOf(kids, h);
    if i >= 0 then
      var r := kids[i := (h, c)];
      assert Keys(r) == Keys(kids) by {
        forall k | k in Keys(kids) ensures k in Keys(r) {
          var j :| 0 <= j < |kids| && kids[j].0 == k;
          assert r[j].0 == k;
        }
      }
      assert IndexOf(r, h) == i by {
        assert r[i].0 == h;
      }
      r
    else
      var r := kids + [(h, c)];
      assert IndexOf(r, h) == |kids| by {
        assert r[|kids|].0 == h;
        assert h in Keys(r);
      }
      assert Keys(r) == Keys(kids) + {h} by {
        assert r[|kids|].0 == h;
        forall k | k in Keys(kids) ensures k in Keys(r) {
          var j :| 0 <= j < |kids| && kids[j].0 == k;
          assert r[j].0 == k;
        }
      }
      r
  }

  /** Writing one key leaves every other key's entry as it was. */
  lemma PutOther<E>(kids: Children<E>, h: E, c: Trie<E>, k: E)
    requires k != h
    ensures Child(Put(kids, h, c), k) == Child(kids, k)
  {
    var i := IndexOf(kids, h);
    if i >= 0 {
      IndexOfOther(kids, i, h, c, k);
    } else {
      IndexOfAppend(kids, h, c, k);
    }
  }

  lemma IndexOfOther<E>(kids: Children<E>, i: int, h: E, c: Trie<E>, k: E)
    requires 0 <= i < |kids| && kids[i].0 == h && k != h
    ensures IndexOf(kids[i := (h, c)], k) == IndexOf(kids, k)
  {
    var r := kids[i := (h, c)];
    var a, b := IndexOf(r, k), IndexOf(kids, k);
    if a >= 0 { assert kids[a].0 == k; }
    if b >= 0 { assert r[b].0 == k; }
    if a >= 0 && b >= 0 {
    }
  }

  lemma IndexOfAppend<E>(kids: Children<E>, h: E, c: Trie<E>, k: E)
    requires k != h
    ensures IndexOf(kids + [(h, c)], k) == IndexOf(kids, k)
  {
    var r := kids + [(h, c)];
    var a, b := IndexOf(r, k), IndexOf(kids, k);
    if a >= 0 { assert a < |kids|; assert kids[a].0 == k; }
    if b >= 0 { assert r[b].0 == k; }
    if a >= 0 && b >= 0 {
    }
  }

  /** The representation invariant the source's `Dictionary` type guarantees:
      keys are distinct at every node. */
  predicate Valid<E(==)>(t: Trie<E>)
    decreases t
  {
    && DistinctKeys(t.children)
    && forall i :: 0 <= i < |t.children| ==> Valid(t.children[i].1)
  }

  /** Children of a valid node are valid. */
  lemma ChildValid<E>(kids: Children<E>, h: E)
    requires Valid(Node(false, kids)) && Child(kids, h).Some?
    ensures Valid(Child(kids, h).value)
  {
    var j :| 0 <= j < |kids| && kids[j] == (h, Child(kids, h).value);
  }

  /** Writing a valid child into a valid node keeps it valid. */
  lemma PutValid<E>(kids: Children<E>, h: E, c: Trie<E>)
    requires Valid(Node(false, kids)) && Valid(c)
    ensures Valid(Node(false, Put(kids, h, c)))
  {
    var r := Put(kids, h, c);
    forall j | 0 <= j < |r| ensures Valid(r[j].1) {
      if r[j] != (h, c) {
        var k :| 0 <= k < |kids| && kids[k] == r[j];
      }
    }
  }

  // ---------------------------------------------------------------------------
  // Abstraction: the set of member sequences
  // ---------------------------------------------------------------------------

  ghost function Prefixed<E>(h: E, S: set<seq<E>>): set<seq<E>>
  {
    set s | s in S :: [h] + s
  }

  /** The sequences spelled by the paths from `t` to nodes with `endHere` set. */
  ghost function Members<E>(t: Trie<E>): set<seq<E>>
    decreases t, 1
  {
    (if t.endHere then {[]} else {}) + MembersFrom(t, 0)
  }

  ghost function MembersFrom<E>(t: Trie<E>, i: nat): set<seq<E>>
    requires i <= |t.children|
    decreases t, 0, |t.children| - i
  {
    if i == |t.children| then {}
    else Prefixed(t.children[i].0, Members(t.children[i].1)) + MembersFrom(t, i + 1)
  }

  lemma {:induction false} MembersFromIff<E>(t: Trie<E>, i: nat, x: seq<E>)
    requires i <= |t.children|
    ensures x in MembersFrom(t, i) <==>
              x != [] && exists j :: i <= j < |t.children| && t.children[j].0 == x[0]
                                     && x[1..] in Members(t.children[j].1)
    decreases |t.children| - i
  {
    if i < |t.children| {
      MembersFromIff(t, i + 1, x);
      var h := t.children[i].0;
      if x in Prefixed(h, Members(t.children[i].1)) {
        var s :| s in Members(t.children[i].1) && x == [h] + s;
        assert x[1..] == s;
      }
      if x != [] && x[0] == h && x[1..] in Members(t.children[i].1) {
        assert x == [h] + x[1..];
      }
    }
  }

  /** Membership in the abstraction, one level at a time. */
  lemma MemberIff<E>(t: Trie<E>, x: seq<E>)
    ensures x in Members(t) <==>
              if x == [] then t.endHere
              else exists j :: 0 <= j < |t.children| && t.children[j].0 == x[0]
                               && x[1..] in Members(t.children[j].1)
  {
    MembersFromIff(t, 0, x);
  }

  // ---------------------------------------------------------------------------
  // contains (Trie.swift:156-165) and the path structure
  // ---------------------------------------------------------------------------

  /** `contains`: one element per level; a missing child answers false, an
      exhausted sequence answers the node's flag. */
  function Contains<E(==)>(t: Trie<E>, s: seq<E>): bool
    decreases |s|
  {
    if |s| == 0 then t.endHere
    else
      match Child(t.children, s[0])
      case None => false
      case Some(c) => Contains(c, s[1..])
  }

  /** The walk `contains` performs reaches a node (terminal or not). */
  function HasPath<E(==)>(t: Trie<E>, s: seq<E>): bool
    decreases |s|
  {
    if |s| == 0 then true
    else
      match Child(t.children, s[0])
      case None => false
      case Some(c) => HasPath(c, s[1..])
  }

  lemma {:induction false} ContainsIffMember<E>(t: Trie<E>, x: seq<E>)
    requires Valid(t)
    ensures Contains(t, x) <==> x in Members(t)
    decreases |x|
  {
    MemberIff(t, x);
    if x != [] {
      var i := IndexOf(t.children, x[0]);
      if i >= 0 {
        ContainsIffMember(t.children[i].1, x[1..]);
      }
      if x in Members(t) {
        var j :| 0 <= j < |t.children| && t.children[j].0 == x[0]
                 && x[1..] in Members(t.children[j].1);
        assert i == j;
      }
    }
  }

  lemma ContainsIffMemberAll<E>(t: Trie<E>)
    requires Valid(t)
    ensures forall x :: Contains(t, x) <==> x in Members(t)
  {
    forall x ensures Contains(t, x) <==> x in Members(t) {
      ContainsIffMember(t, x);
    }
  }

  /** A member's walk never falls off the tree, and the empty trie holds nothing. */
  lemma {:induction false} ContainsHasPath<E>(t: Trie<E>, x: seq<E>)
    ensures Contains(t, x) ==> HasPath(t, x)
    ensures Contains(t, []) == t.endHere
    ensures !Contains(Empty(), x)
    decreases |x|
  {
    if x != [] {
      match Child(t.children, x[0])
      case None =>
      case Some(c) => ContainsHasPath(c, x[1..]);
    }
  }

  /** Every prefix of a path in the tree is a path too: the walk to `s` passes
      through the node for `s[..k]`. */
  lemma {:induction false} HasPathPrefix<E>(t: Trie<E>, s: seq<E>, k: nat)
    requires k <= |s| && HasPath(t, s)
    ensures HasPath(t, s[..k])
    decreases k
  {
    if k > 0 {
      var c := Child(t.children, s[0]).value;
      HasPathPrefix(c, s[1..], k - 1);
      assert s[..k][1..] == s[1..][..k - 1];
    }
  }
}
