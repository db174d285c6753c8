/**
  The worked examples for the trie: the words "cat", "car" and "ca" inserted
  into an empty trie, and the empty trie itself.
*/
module TrieScenarios {
  import opened Tries
  import opened TrieUpdate
  import opened TrieQueries
  import TrieSetOps

  /** "ca" and "cat" are members, "c" is only a path, there are three members,
      `contents` lists exactly the three words, and `completions("ca")` gives
      the whole words "cat" and "car" (not the suffixes, and not "ca" itself). */
  lemma CatCarCa()
    ensures var t := FromSeqs(["cat", "car", "ca"]);
            && Contains(t, "ca") && Contains(t, "cat") && !Contains(t, "c")
            && HasPath(t, "c")
            && Count(t) == 3
            && Elems(Contents(t)) == {"cat", "car", "ca"}
            && Elems(Completions(t, "ca")) == {"cat", "car"}
  {
    FromSeqsMembers(["cat", "car", "ca"]);
    CatCarCaOf(FromSeqs(["cat", "car", "ca"]));
  }

  /** The same facts for any valid trie whose members are the three words. */
  lemma CatCarCaOf(t: Trie<char>)
    requires Valid(t) && Members(t) == {"cat", "car", "ca"}
    ensures Contains(t, "ca") && Contains(t, "cat") && !Contains(t, "c")
    ensures HasPath(t, "c")
    ensures Count(t) == 3
    ensures Elems(Contents(t)) == {"cat", "car", "ca"}
    ensures Elems(Completions(t, "ca")) == {"cat", "car"}
  {
    ContainsIffMember(t, "ca");
    ContainsIffMember(t, "cat");
    ContainsIffMember(t, "c");
    ContainsHasPath(t, "ca");
    assert "ca"[..1] == "c";
    HasPathPrefix(t, "ca", 1);
    CatCarCaCount(t);
    ContentsElems(t);
    CatCarCaCompletions(t);
  }

  lemma CatCarCaCount(t: Trie<char>)
    requires Valid(t) && Members(t) == {"cat", "car", "ca"}
    ensures Count(t) == 3
  {
    CountMembers(t);
    assert "cat" != "car" by { assert "cat"[2] != "car"[2]; }
    assert |{"cat", "car", "ca"}| == 3;
  }

  lemma CatCarCaCompletions(t: Trie<char>)
    requires Valid(t) && Members(t) == {"cat", "car", "ca"}
    ensures Elems(Completions(t, "ca")) == {"cat", "car"}
  {
    forall x ensures x in Elems(Completions(t, "ca")) <==> x in {"cat", "car"} {
      CompletionsSpec(t, "ca", x);
      ContainsIffMember(t, x);
      if x == "cat" || x == "car" {
        assert x[..2] == "ca";
      }
    }
  }

  /** The empty trie: no members, nothing to enumerate, disjoint from anything. */
  lemma EmptyScenario<E>(cs: seq<seq<E>>, x: seq<E>)
    ensures Count(Empty<E>()) == 0
    ensures Contents(Empty<E>()) == []
    ensures !Contains(Empty<E>(), x)
    ensures TrieSetOps.IsDisjointWith(Empty<E>(), cs)
  {
  }
}
