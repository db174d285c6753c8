/**
  Building and editing tries (SwiftSequence/Trie.swift, "Init" and `remove`):
  every operation consumes one element of its argument per level.
*/
module TrieUpdate {
  import opened Options
  import opened Tries

  /** `init(gen:)`, reached publicly as `init(_:)` from one sequence: a chain of
      fresh nodes, terminal at the end. */
  function Chain<E>(s: seq<E>): Trie<E>
    decreases |s|
  {
    if |s| == 0 then Node(true, [])
    else Node(false, [(s[0], Chain(s[1..]))])
  }

  /** `insert`: descend into an existing child, or hang a fresh chain for the
      rest of the sequence; an exhausted sequence sets the flag. */
  function Insert<E(==)>(t: Trie<E>, s: seq<E>): Trie<E>
    decreases |s|
  {
    if |s| == 0 then Node(true, t.children)
    else
      match Child(t.children, s[0])
      case Some(c) => Node(t.endHere, Put(t.children, s[0], Insert(c, s[1..])))
      case None => Node(t.endHere, Put(t.children, s[0], Chain(s[1..])))
  }

  /** `init(_:)` from a sequence of sequences: insert each in turn into `t`. */
  function InsertAll<E(==)>(t: Trie<E>, ss: seq<seq<E>>): Trie<E>
    decreases |ss|
  {
    if |ss| == 0 then t else InsertAll(Insert(t, ss[0]), ss[1..])
  }

  function FromSeqs<E(==)>(ss: seq<seq<E>>): Trie<E>
  {
    InsertAll(Empty(), ss)
  }

  /** `remove`: descend only into an existing child (never creating one), and
      clear the flag where the sequence ends.  Nothing is pruned. */
  function Remove<E(==)>(t: Trie<E>, s: seq<E>): Trie<E>
    decreases |s|
  {
    if |s| == 0 then Node(false, t.children)
    else
      match Child(t.children, s[0])
      case Some(c) => Node(t.endHere, Put(t.children, s[0], Remove(c, s[1..])))
      case None => t
  }

  // ---------------------------------------------------------------------------
  // Pointwise behaviour
  // ---------------------------------------------------------------------------

  lemma {:induction false} ChainContains<E>(s: seq<E>, x: seq<E>)
    ensures Contains(Chain(s), x) <==> x == s
    ensures Valid(Chain(s))
    decreases |s|
  {
    if s != [] {
      ChainContains(s[1..], if x == [] then [] else x[1..]);
      if x != [] && x[0] == s[0] {
        assert Child(Chain(s).children, x[0]) == Some(Chain(s[1..]));
        assert x == s <==> x[1..] == s[1..] by {
          if x[1..] == s[1..] { assert x == [x[0]] + x[1..]; assert s == [s[0]] + s[1..]; }
        }
      }
      if x != [] && x[0] != s[0] {
        assert x[0] !in Keys(Chain(s).children);
      }
    }
  }

  /** After `insert(s)`, `contains(s)` holds and `contains` is unchanged elsewhere. */
  lemma {:induction false} InsertContains<E>(t: Trie<E>, s: seq<E>, x: seq<E>)
    ensures Contains(Insert(t, s), x) <==> x == s || Contains(t, x)
    decreases |s|
  {
    if s == [] || x == [] {
      return;
    }
    var r := Insert(t, s);
    var h := s[0];
    if x[0] == h {
      assert x == s <==> x[1..] == s[1..] by {
        if x[1..] == s[1..] { assert x == [h] + x[1..]; assert s == [h] + s[1..]; }
      }
      match Child(t.children, h)
      case Some(c) =>
        InsertContains(c, s[1..], x[1..]);
      case None =>
        ChainContains(s[1..], x[1..]);
    } else {
      match Child(t.children, h)
      case Some(c) =>
        PutOther(t.children, h, Insert(c, s[1..]), x[0]);
      case None =>
        PutOther(t.children, h, Chain(s[1..]), x[0]);
    }
  }

  lemma {:induction false} InsertValid<E>(t: Trie<E>, s: seq<E>)
    requires Valid(t)
    ensures Valid(Insert(t, s))
    decreases |s|
  {
    if s != [] {
      var h := s[0];
      var c' := match Child(t.children, h)
                case Some(c) => Insert(c, s[1..])
                case None => Chain(s[1..]);
      match Child(t.children, h)
      case Some(c) =>
        InsertValid(c, s[1..]);
      case None =>
        ChainContains(s[1..], []);
      var r := Put(t.children, h, c');
      forall j | 0 <= j < |r| ensures Valid(r[j].1) {
        if r[j] != (h, c') {
          var k :| 0 <= k < |t.children| && t.children[k] == r[j];
        }
      }
    }
  }

  /** Inserting a member changes nothing. */
  lemma {:induction false} InsertMember<E>(t: Trie<E>, s: seq<E>)
    requires Contains(t, s)
    ensures Insert(t, s) == t
    decreases |s|
  {
    if s != [] {
      var c := Child(t.children, s[0]).value;
      InsertMember(c, s[1..]);
      var i := IndexOf(t.children, s[0]);
      assert t.children[i := (s[0], c)] == t.children;
    }
  }

  /** `insert` is idempotent: a second insertion of `s` returns the same trie. */
  lemma InsertIdempotent<E>(t: Trie<E>, s: seq<E>)
    ensures Insert(Insert(t, s), s) == Insert(t, s)
  {
    InsertContains(t, s, s);
    InsertMember(Insert(t, s), s);
  }

  /** As a set: `insert(s)` adds exactly `s`. */
  lemma InsertMembers<E(!new)>(t: Trie<E>, s: seq<E>)
    requires Valid(t)
    ensures Valid(Insert(t, s))
    ensures Members(Insert(t, s)) == Members(t) + {s}
  {
    InsertValid(t, s);
    forall x ensures x in Members(Insert(t, s)) <==> x in Members(t) + {s} {
      InsertContains(t, s, x);
      ContainsIffMember(t, x);
      ContainsIffMember(Insert(t, s), x);
    }
  }

  /** `init(_:)` from one sequence holds exactly that sequence. */
  lemma ChainMembers<E(!new)>(s: seq<E>)
    ensures Valid(Chain(s))
    ensures Members(Chain(s)) == {s}
  {
    ChainContains(s, s);
    forall x ensures x in Members(Chain(s)) <==> x in {s} {
      ChainContains(s, x);
      ContainsIffMember(Chain(s), x);
    }
  }

  lemma {:induction false} InsertAllContains<E>(t: Trie<E>, ss: seq<seq<E>>, x: seq<E>)
    ensures Contains(InsertAll(t, ss), x) <==> Contains(t, x) || x in ss
    ensures Valid(t) ==> Valid(InsertAll(t, ss))
    decreases |ss|
  {
    if ss != [] {
      assert InsertAll(t, ss) == InsertAll(Insert(t, ss[0]), ss[1..]);
      InsertContains(t, ss[0], x);
      InsertAllContains(Insert(t, ss[0]), ss[1..], x);
      assert x in ss <==> x == ss[0] || x in ss[1..] by {
        assert ss == [ss[0]] + ss[1..];
      }
    }
    if Valid(t) { InsertAllValid(t, ss); }
  }

  lemma {:induction false} InsertAllValid<E>(t: Trie<E>, ss: seq<seq<E>>)
    requires Valid(t)
    ensures Valid(InsertAll(t, ss))
    decreases |ss|
  {
    if ss != [] {
      InsertValid(t, ss[0]);
      InsertAllValid(Insert(t, ss[0]), ss[1..]);
    }
  }

  /** The trie built from a collection holds exactly the collection's sequences. */
  lemma FromSeqsMembers<E(!new)>(ss: seq<seq<E>>)
    ensures Valid(FromSeqs(ss))
    ensures Members(FromSeqs(ss)) == set x | x in ss
  {
    InsertAllContains(Empty(), ss, []);
    forall x ensures x in Members(FromSeqs(ss)) <==> x in ss {
      InsertAllContains(Empty(), ss, x);
      ContainsHasPath(Empty(), x);
      ContainsIffMember(FromSeqs(ss), x);
    }
  }

  /** After `remove(s)`, `contains(s)` fails and `contains` is unchanged elsewhere. */
  lemma {:induction false} RemoveContains<E>(t: Trie<E>, s: seq<E>, x: seq<E>)
    ensures Contains(Remove(t, s), x) <==> x != s && Contains(t, x)
    decreases |s|
  {
    if s == [] || x == [] {
      return;
    }
    var h := s[0];
    match Child(t.children, h)
    case None =>
      if x[0] == h {
        assert x != s || Child(t.children, x[0]).None?;
      }
    case Some(c) =>
      if x[0] == h {
        assert x == s <==> x[1..] == s[1..] by {
          if x[1..] == s[1..] { assert x == [h] + x[1..]; assert s == [h] + s[1..]; }
        }
        RemoveContains(c, s[1..], x[1..]);
      } else {
        PutOther(t.children, h, Remove(c, s[1..]), x[0]);
      }
  }

  /** `remove` neither creates nor prunes nodes: the walkable paths are unchanged. */
  lemma {:induction false} RemoveKeepsPaths<E>(t: Trie<E>, s: seq<E>, x: seq<E>)
    ensures HasPath(Remove(t, s), x) == HasPath(t, x)
    ensures Keys(Remove(t, s).children) == Keys(t.children)
    decreases |s|
  {
    if s == [] || x == [] {
      return;
    }
    var h := s[0];
    match Child(t.children, h)
    case None =>
    case Some(c) =>
      RemoveKeepsPaths(c, s[1..], if x[0] == h then x[1..] else []);
      if x[0] != h {
        PutOther(t.children, h, Remove(c, s[1..]), x[0]);
      }
  }

  lemma {:induction false} RemoveValid<E>(t: Trie<E>, s: seq<E>)
    requires Valid(t)
    ensures Valid(Remove(t, s))
    decreases |s|
  {
    if s != [] {
      var h := s[0];
      match Child(t.children, h)
      case None =>
      case Some(c) =>
        RemoveValid(c, s[1..]);
        var c' := Remove(c, s[1..]);
        var r := Put(t.children, h, c');
        forall j | 0 <= j < |r| ensures Valid(r[j].1) {
          if r[j] != (h, c') {
            var k :| 0 <= k < |t.children| && t.children[k] == r[j];
          }
        }
    }
  }

  /** As a set: `remove(s)` takes away exactly `s`; removing a non-member is a no-op
      on the member set. */
  lemma RemoveMembers<E(!new)>(t: Trie<E>, s: seq<E>)
    requires Valid(t)
    ensures Valid(Remove(t, s))
    ensures Members(Remove(t, s)) == Members(t) - {s}
    ensures s !in Members(t) ==> Members(Remove(t, s)) == Members(t)
  {
    RemoveValid(t, s);
    forall x ensures x in Members(Remove(t, s)) <==> x in Members(t) - {s} {
      RemoveContains(t, s, x);
      ContainsIffMember(t, x);
      ContainsIffMember(Remove(t, s), x);
    }
  }
}
