# SwiftSequence tries, predicate scans and `takeFirst`, in Dafny

This project models three files of the SwiftSequence library:

- `Trie<Element>` (SwiftSequence/Trie.swift) is a set of sequences stored as a tree. Each node has an
  `endHere` flag and one child trie per next element. The model covers building a trie (from one
  sequence or many), `insert`, `remove`, `contains`, `contents`, `completions` and `count`. It also
  covers the set operations `exclusiveOr`, `intersect`, `isDisjointWith` and `unionInPlace`, the
  transforms `map`, `filter` and both `flatMap`s, and the structural `==`.
- The predicate scans of SwiftSequence/Finding.swift: `first`, `count`, `last`, `lastIndexOf`,
  `indicesOf` and `partition`.
- The lazy `takeFirst` / `takeFirst_n` sequence of Sources/TakeFirst.swift. This is the
  `TakeFirstGen` generator with its counter `found` and its bound `take`.

Layout (one module per file):

| module | file | contents |
|---|---|---|
| `Options` | options.dfy | `Option<T>`, Swift's optional |
| `Tries` | tries.dfy | the node datatype, child lookup and update, the abstract member set `Members`, `Contains` |
| `TrieUpdate` | trie_update.dfy | `init(gen:)`, `insert`, `init` from many sequences, `remove` |
| `TrieQueries` | trie_queries.dfy | `contents`, `count`, `completions` |
| `TrieEquality` | trie_equality.dfy | the structural `==` |
| `TrieSetOps` | trie_set_ops.dfy | `exclusiveOr`, `intersect`, `isDisjointWith`, `unionInPlace` as written and corrected |
| `TrieTransforms` | trie_transforms.dfy | `map`, `flatMap` (both forms), `filter` |
| `TrieScenarios` | trie_scenarios.dfy | worked examples: "cat", "car", "ca"; the empty trie |
| `Finding` | finding.dfy | the predicate scans, over `seq` |
| `TakeFirst` | take_first.dfy | `TakeFirstSeq`, `TakeFirstGen`, `takeFirst`, `takeFirst_n`, and the corrected counter |

Representation choices:

- A node's `children: [Element: Trie<Element>]` dictionary becomes an association list
  `seq<(E, Trie<E>)>`. `Tries.Valid` requires distinct keys at every level; a Swift dictionary
  always has them. Every trie the operations build from valid tries is valid (the `…Valid`
  lemmas, and the `Valid` clauses of the `…Contains` lemmas of the transforms), so `Valid` in a
  `requires` excludes no trie the library can produce.
- Dictionary iteration order is unspecified in Swift. The model iterates in list order. Every
  property is stated so that it does not depend on that order: as a set of members, or as
  membership in the result of `contents` or `completions`.
- The recursive generator walks (`insert(gen:)`, `contains(gen:)`, …) consume one element per
  level. They become recursion on `s[0]` and `s[1..]`.
- `Tries.Members` is a ghost set with the set of sequences a trie stands for. `Tries.Contains` is
  the executable lookup. `Tries.ContainsIffMember` connects the two.
- The underlying generator of `TakeFirstGen` is a sequence plus a read position.

The model follows the code, including these behaviours the method names do not suggest:

- `completions(p)` returns whole member sequences that strictly extend `p`, not the suffixes after
  `p`. It never returns `p` itself, even when `p` is a member (`TrieQueries.CompletionsSpec`,
  `TrieScenarios.CatCarCa`).
- `contents` never lists the empty sequence, even when it is a member. So rebuilding a trie from
  its `contents` loses `[]` (`TrieTransforms.RoundTrip`). And `==` is structural, so equal member
  sets need not compare equal (`TrieEquality.EqualIsStructural`).
- `exclusiveOr` only removes the candidates. It is a set difference, not a symmetric difference
  (`TrieSetOps.ExclusiveOrMembers`).
- `unionInPlace` does not give the union of the member sets: see Findings.
- `takeFirst_n` does not stop after `take` matches: see Findings.

## Model

| member | source | states |
|---|---|---|
| Tries.Empty | SwiftSequence/Trie.swift:12-15 | the trie made by `init()` has no members |
| Tries.Child | SwiftSequence/Trie.swift:10 | dictionary lookup: absent exactly when the key is not among the children's keys, otherwise the child stored under that key |
| Tries.Put | SwiftSequence/Trie.swift:47 | assigning `children[head]`: the key now maps to the new child, the key set grows by that key only, keys stay distinct, and every entry of the result is the new one or an old one |
| Tries.PutOther | SwiftSequence/Trie.swift:47 | assigning one key leaves the lookup of every other key unchanged |
| Tries.Contains | SwiftSequence/Trie.swift:156-165 | definition; stated by `ContainsIffMember` and `ContainsHasPath`: take the next element, descend into that child (false when there is none), and answer `endHere` when the input runs out |
| Tries.ContainsIffMember | SwiftSequence/Trie.swift:156-165 | `contains(s)` is true exactly when `s` is in the set the trie stands for |
| Tries.ContainsHasPath | SwiftSequence/Trie.swift:159 | a contained sequence has a path in the tree; `contains([])` is the root's `endHere`; the empty trie contains nothing |
| TrieUpdate.Chain | SwiftSequence/Trie.swift:33-39 | definition; stated by `ChainContains` and `ChainMembers`: one fresh node per element, terminal only at the end |
| TrieUpdate.Insert | SwiftSequence/Trie.swift:43-51 | definition; stated by `InsertContains`, `InsertMembers`, `InsertValid`: descend into an existing child or attach a fresh chain; set `endHere` when the input runs out |
| TrieUpdate.InsertAll | SwiftSequence/Trie.swift:60-62 | definition; stated by `InsertAllContains`: insert the words one after another |
| TrieUpdate.FromSeqs | SwiftSequence/Trie.swift:55-63 | definition; stated by `FromSeqsMembers`: inserting every word into `Trie()` |
| TrieUpdate.Remove | SwiftSequence/Trie.swift:116-124 | definition; stated by `RemoveContains`, `RemoveMembers`, `RemoveKeepsPaths`: descend while a child exists (doing nothing otherwise) and clear `endHere` at the end |
| TrieUpdate.ChainContains | SwiftSequence/Trie.swift:33-39 | the one-sequence trie contains exactly that sequence, and is valid |
| TrieUpdate.ChainMembers | SwiftSequence/Trie.swift:33-39 | `init(gen:)` stands for the singleton set of its sequence |
| TrieUpdate.InsertContains | SwiftSequence/Trie.swift:43-51 | after `insert(s)`, `x` is contained exactly when `x == s` or it was contained before |
| TrieUpdate.InsertValid | SwiftSequence/Trie.swift:43-51 | `insert` keeps children keys distinct at every level |
| TrieUpdate.InsertMembers | SwiftSequence/Trie.swift:72-76 | `insert(s)` adds `s` and nothing else to the member set |
| TrieUpdate.InsertMember | SwiftSequence/Trie.swift:43-51 | inserting a sequence already contained returns the identical trie |
| TrieUpdate.InsertIdempotent | SwiftSequence/Trie.swift:43-51 | inserting the same sequence twice gives the same trie as inserting it once |
| TrieUpdate.InsertAllContains | SwiftSequence/Trie.swift:55-63 | inserting a list of sequences: `x` is contained exactly when it was before or is in the list; validity is kept |
| TrieUpdate.FromSeqsMembers | SwiftSequence/Trie.swift:55-63 | a trie built from a list of sequences stands for exactly the set of the list's elements |
| TrieUpdate.RemoveContains | SwiftSequence/Trie.swift:116-129 | after `remove(s)`, `x` is contained exactly when `x != s` and it was before; removing a non-member is a no-op on membership |
| TrieUpdate.RemoveKeepsPaths | SwiftSequence/Trie.swift:119-122 | `remove` only clears a flag: every path and every key set is kept, so emptied nodes stay in the tree |
| TrieUpdate.RemoveValid | SwiftSequence/Trie.swift:116-124 | `remove` keeps children keys distinct |
| TrieUpdate.RemoveMembers | SwiftSequence/Trie.swift:125-129 | `remove(s)` takes `s` and only `s` out of the member set |
| TrieQueries.Contents | SwiftSequence/Trie.swift:82-87 | definition; stated by `ContentsSpec`: for each child, its contents with the key in front, then the key alone when the child is terminal |
| TrieQueries.Count | SwiftSequence/Trie.swift:244-246 | definition; stated by `CountContents` and `CountMembers`: one for a terminal node plus the children's counts |
| TrieQueries.Completions | SwiftSequence/Trie.swift:99-108 | definition; stated by `CompletionsSpec` and `CompletionsConcat`: `contents` when the prefix runs out, nothing when the child is missing, the key put back in front at every level |
| TrieQueries.ContentsElems | SwiftSequence/Trie.swift:82-87 | the sequences listed by `contents` are the members other than `[]` |
| TrieQueries.ContentsDistinct | SwiftSequence/Trie.swift:82-87 | `contents` lists no sequence twice |
| TrieQueries.ContentsSpec | SwiftSequence/Trie.swift:82-87 | `x` is listed by `contents` exactly when `x` is non-empty and contained; `[]` is never listed; no duplicates |
| TrieQueries.CountContents | SwiftSequence/Trie.swift:244-246 | `count` is the length of `contents`, plus one when the root is terminal |
| TrieQueries.CountMembers | SwiftSequence/Trie.swift:244-246 | `count` is the number of members; the empty trie counts 0 |
| TrieQueries.CompletionsSpec | SwiftSequence/Trie.swift:99-112 | `x` is in `completions(p)` exactly when `x` strictly extends `p` and is contained; no duplicates; no results when `p` leaves the tree |
| TrieQueries.CompletionsConcat | SwiftSequence/Trie.swift:99-112 | `p + q` is in `completions(p)` exactly when `q` is non-empty and `p + q` is contained |
| TrieEquality.Equal | SwiftSequence/Trie.swift:24-26 | definition; stated by `EqualContains`, `EqualMembers`, `EqualIsStructural`: equal flags, and dictionary equality of the children (same size, every key of one maps to an `==` child in the other) |
| TrieEquality.EqualReflexive | SwiftSequence/Trie.swift:24-26 | every valid trie is `==` to itself |
| TrieEquality.EqualKeys | SwiftSequence/Trie.swift:25 | `==` tries have the same child keys at the root |
| TrieEquality.EqualContains | SwiftSequence/Trie.swift:24-26 | `==` tries agree on `contains` for every sequence |
| TrieEquality.EqualMembers | SwiftSequence/Trie.swift:24-26 | `==` tries stand for the same set |
| TrieEquality.InsertTwiceEqual | SwiftSequence/Trie.swift:24-26 | inserting twice is `==` to inserting once |
| TrieEquality.EqualIsStructural | SwiftSequence/Trie.swift:24-26 | removing the only member of `[e]` leaves a trie with no members that is still not `==` to `Trie()`, because the emptied child remains |
| TrieSetOps.ExclusiveOr | SwiftSequence/Trie.swift:167-183 | definition; stated by `ExclusiveOrContains` and `ExclusiveOrMembers`: `remove` each candidate in turn |
| TrieSetOps.Intersect | SwiftSequence/Trie.swift:185-199 | definition; stated by `IntersectContains` and `IntersectMembers`: a new trie from the candidates `contains` accepts |
| TrieSetOps.ExclusiveOrContains | SwiftSequence/Trie.swift:167-183 | after `exclusiveOr(cs)`, `x` is contained exactly when it was contained and is not among `cs`; validity is kept |
| TrieSetOps.ExclusiveOrMembers | SwiftSequence/Trie.swift:167-183 | `exclusiveOr(cs)` stands for the members minus the set of `cs` |
| TrieSetOps.IntersectContains | SwiftSequence/Trie.swift:185-199 | `intersect(cs)` contains `x` exactly when `x` is among `cs` and was contained; valid |
| TrieSetOps.IntersectMembers | SwiftSequence/Trie.swift:185-199 | `intersect(cs)` stands for the set of `cs` intersected with the members |
| TrieSetOps.IsDisjointWith | SwiftSequence/Trie.swift:201-205 | true exactly when no candidate sequence is contained |
| TrieSetOps.DisjointWithContents | SwiftSequence/Trie.swift:201-205 | `a.isDisjointWith(b.contents)` holds exactly when `a` and `b` share no member other than `[]` |
| TrieSetOps.Union | SwiftSequence/Trie.swift:207-211 | definition; stated by `UnionContains`, `UnionMembers`, `UnionValid`: the receiver's flag kept, the other trie's children merged in |
| TrieSetOps.MergeFrom | SwiftSequence/Trie.swift:208-210 | definition; stated by `MergeFromContains` and `MergeFromValid`: the `for (head, child)` loop, merging into an existing child or adopting the other child |
| TrieSetOps.UnionContains | SwiftSequence/Trie.swift:207-211 | after `unionInPlace(w)`, `x` is contained exactly when it was before, or it is in `w` and was not already a path in the receiver |
| TrieSetOps.UnionValid | SwiftSequence/Trie.swift:207-211 | `unionInPlace` keeps children keys distinct |
| TrieSetOps.UnionMembers | SwiftSequence/Trie.swift:207-211 | the result's members are the receiver's plus those of `w` that were not paths of the receiver; the receiver's members are kept; a `w` with no children leaves the receiver unchanged |
| TrieSetOps.UnionDropsTerminal | SwiftSequence/Trie.swift:207-211 | the union of {"ab"} with {"a"} does not contain "a" |
| TrieSetOps.UnionFixed | SwiftSequence/Trie.swift:207-211 | corrected definition, with `endHere` OR-ed; stated by `UnionFixedContains` and `UnionFixedMembers` |
| TrieSetOps.MergeFixedFrom | SwiftSequence/Trie.swift:208-210 | corrected child merge; stated by `MergeFixedFromContains` and `MergeFixedFromValid` |
| TrieSetOps.UnionFixedContains | SwiftSequence/Trie.swift:207-211 | corrected union: `x` is contained exactly when it is in either operand |
| TrieSetOps.UnionFixedValid | SwiftSequence/Trie.swift:207-211 | corrected union keeps children keys distinct |
| TrieSetOps.UnionFixedMembers | SwiftSequence/Trie.swift:207-211 | corrected union stands for the union of the member sets |
| TrieTransforms.Map | SwiftSequence/Trie.swift:217-219 | definition; stated by `MapMembers`: a new trie from the transformed `contents` |
| TrieTransforms.FlatMapSeqs | SwiftSequence/Trie.swift:223-227 | definition; stated by `FlatMapSeqsMembers`: insert the present transforms of `contents` into `Trie()` |
| TrieTransforms.UnionAll | SwiftSequence/Trie.swift:229-231 | definition; stated by `UnionAllContains` and `UnionAllValid`: `unionInPlace` each trie in turn |
| TrieTransforms.FlatMapTries | SwiftSequence/Trie.swift:228-232 | definition; stated by `FlatMapTriesContains`: fold the transforms of `contents` into `Trie()` |
| TrieTransforms.Filter | SwiftSequence/Trie.swift:236-240 | definition; stated by `FilterMembers`: insert the members of `contents` the predicate accepts |
| TrieTransforms.UnionAllFixed | SwiftSequence/Trie.swift:229-231 | the fold with the corrected union; stated by `UnionAllFixedContains` and `UnionAllFixedValid` |
| TrieTransforms.FlatMapTriesFixed | SwiftSequence/Trie.swift:228-232 | the trie-valued `flatMap` with the corrected union; stated by `FlatMapTriesFixedContains` |
| TrieTransforms.RoundTrip | SwiftSequence/Trie.swift:82-87 | rebuilding a trie from its `contents` gives its members without `[]` |
| TrieTransforms.MapMembers | SwiftSequence/Trie.swift:217-219 | `map(f)` stands for the image under `f` of the non-empty members |
| TrieTransforms.SomesElems | SwiftSequence/Trie.swift:225 | the `case let seq?` loop keeps exactly the present results |
| TrieTransforms.FlatMapSeqsMembers | SwiftSequence/Trie.swift:223-227 | the optional `flatMap(f)` stands for the present results of `f` on the non-empty members |
| TrieTransforms.UnionAllContains | SwiftSequence/Trie.swift:230 | folding `unionInPlace` over tries: `x` is contained exactly when it is in the start trie or one fold step added it |
| TrieTransforms.UnionAllValid | SwiftSequence/Trie.swift:229-231 | folding `unionInPlace` over valid tries into a valid trie gives a valid trie |
| TrieTransforms.FlatMapTriesContains | SwiftSequence/Trie.swift:228-232 | the trie-valued `flatMap(f)` is valid, never contains `[]`, and contains `x` exactly when some fold step over the images of the non-empty members added it |
| TrieTransforms.UnionAllFixedContains | SwiftSequence/Trie.swift:230 | with the corrected union the fold contains exactly the start trie's members and those of every trie folded in |
| TrieTransforms.UnionAllFixedValid | SwiftSequence/Trie.swift:229-231 | folding the corrected union over valid tries into a valid trie gives a valid trie |
| TrieTransforms.FlatMapTriesFixedContains | SwiftSequence/Trie.swift:228-232 | with the corrected union the trie-valued `flatMap(f)` is valid and contains `x` exactly when `x` is in `f(m)` for some non-empty member `m` |
| TrieTransforms.FilterMembers | SwiftSequence/Trie.swift:236-240 | `filter(p)` stands for the non-empty members satisfying `p` |
| TrieScenarios.CatCarCa | SwiftSequence/Trie.swift:55-63 | built from "cat", "car" and "ca": "ca" and "cat" are members, "c" is only a path, `count` is 3, `contents` lists the three words, and `completions("ca")` gives "cat" and "car" |
| TrieScenarios.CatCarCaOf | SwiftSequence/Trie.swift:99-112 | the same facts for any valid trie whose members are the three words |
| TrieScenarios.EmptyScenario | SwiftSequence/Trie.swift:12-15 | the empty trie: `count` 0, `contents` empty, contains nothing, disjoint from any candidates |
| Finding.Filter | SwiftSequence/Trie.swift:190 | reference definition of an order-preserving `filter`, used by `intersect`, `filter` and `partition`; stated by `FilterSpec` and `FilterAppend` |
| Finding.FilterSpec | SwiftSequence/Finding.swift:65-67 | the matching and non-matching parts hold exactly the satisfying and the failing elements, with lengths and multisets adding up to the input's |
| Finding.First | SwiftSequence/Finding.swift:6-9 | `nil` exactly when nothing satisfies; otherwise the element at the least satisfying index |
| Finding.Count | SwiftSequence/Finding.swift:13-17 | the number of satisfying indices, which is the length of the filtered sequence |
| Finding.Last | SwiftSequence/Finding.swift:26-33 | `nil` exactly when nothing satisfies; otherwise the element at the greatest satisfying index |
| Finding.LastIndexOf | SwiftSequence/Finding.swift:40-45 | `nil` exactly when nothing satisfies; otherwise the greatest satisfying index |
| Finding.IndicesOf | SwiftSequence/Finding.swift:53-55 | exactly the satisfying indices, in increasing order |
| Finding.Partition | SwiftSequence/Finding.swift:59-69 | the pair is (order-preserving filter by `p`, filter by not `p`): a permutation of the input split by the predicate |
| TakeFirst.Init | Sources/TakeFirst.swift:25-30 | definition, with `found` at 0 and the read position inside the input; stated by `TakeFirstNYieldsAll`, which needs that starting counter |
| TakeFirst.Generate | Sources/TakeFirst.swift:12-14 | definition; stated by `TakeFirstNYieldsAll`: a fresh generator over the stored sequence with the stored `take` |
| TakeFirst.Drain | Sources/TakeFirst.swift:33-49 | definition; stated by `DrainPrefix` and `DrainAllMatches`: the elements `next()` returns until its first `nil` |
| TakeFirst.TakeFirstN | Sources/TakeFirst.swift:76-78 | definition; stated by `TakeFirstNYieldsAll` and `ShippedTests`: iterating the lazy sequence `takeFirst_n` returns |
| TakeFirst.Scan | Sources/TakeFirst.swift:41-47 | the `while let` loop stops just after the first satisfying element at or after the position, having skipped only failing ones, or at the end when there is none |
| TakeFirst.Next | Sources/TakeFirst.swift:33-49 | `nil` without consuming once `found == take`; a counter of 0 stays 0; a yielded element advances the position |
| TakeFirst.TakeFirst | Sources/TakeFirst.swift:63-66 | `takeFirst` is `nil` exactly when nothing satisfies, otherwise the first satisfying element |
| TakeFirst.NextHeadOfMatches | Sources/TakeFirst.swift:33-49 | the element `next()` yields is the head of the remaining matches, and the rest are the matches after the new position |
| TakeFirst.DrainPrefix | Sources/TakeFirst.swift:33-49 | whatever its counter, a generator yields a prefix of the remaining satisfying elements, in order |
| TakeFirst.DrainAllMatches | Sources/TakeFirst.swift:44 | with `found` at 0 and `take` non-zero, the generator yields every remaining satisfying element |
| TakeFirst.TakeFirstNYieldsAll | Sources/TakeFirst.swift:76-78 | `takeFirst_n(p, take: 0)` is empty; for any other `take` it is the whole filtered input |
| TakeFirst.ShippedTests | Tests/TakeFirstTests.swift:15-25 | on 1...7 with `> 4`: `takeFirst` is 5 and `takeFirst_n(take: 2)` yields 5, 6, 7 |
| TakeFirst.NextFixed | Sources/TakeFirst.swift:33-49 | corrected `next()`: each yielded element adds one to `found` |
| TakeFirst.DrainFixed | Sources/TakeFirst.swift:33-49 | corrected iteration, with `found += 1`; stated by `DrainFixedTakesAtMost` |
| TakeFirst.TakeFirstNFixed | Sources/TakeFirst.swift:76-78 | corrected `takeFirst_n`; stated by `FixedTakesTwo` |
| TakeFirst.DrainFixedTakesAtMost | Sources/TakeFirst.swift:71-78 | with the corrected counter, a generator yields the first `take - found` remaining matches, or all of them if there are fewer |
| TakeFirst.FixedTakesTwo | Sources/TakeFirst.swift:71-73 | with the corrected counter, `takeFirst_n({ $0 > 4 }, take: 2)` on 1...7 yields 5, 6 |

## Left out

- `debugDescription` (SwiftSequence/Trie.swift:18-22) is diagnostic text rendering, with no contract worth stating.
- The `SequenceType` conformance (SwiftSequence/Trie.swift:90-94) only iterates `contents`. `contents` is modelled.
- The block comment listing the set methods (SwiftSequence/Trie.swift:134-153) names methods the file does not implement. Only the implemented ones are modelled.
- `exclusiveOrInPlace` and `intersectInPlace` are the non-mutating forms assigned back to `self`. Each pair is one function here, because values are immutable.
- Copy-on-write and value semantics need no modelling, since Dafny datatypes are immutable values.
- `throws`/`rethrows` predicates in Finding.swift are modelled as total functions. A predicate that throws just propagates the error out of the scan.
- `lastIndexOf` and `indicesOf` (SwiftSequence/Finding.swift:40-55) return the collection's own `Index`, which for a slice need not start at 0. The model returns 0-based offsets into a `seq`.
- `underestimateCount` and `reserveCapacity` in `partition` (SwiftSequence/Finding.swift:62-64) are capacity hints with no observable effect.
- The generic `Hashable` element type and dictionary hashing are replaced by equality on `E`. Iteration order is list order.
- `count` (SwiftSequence/Trie.swift:244-246) sums on unbounded integers. Swift's 64-bit `Int` overflow trap is not modelled, because a trie with 2^63 members cannot be built.
- `TakeFirstGen` over an arbitrary, possibly infinite, generator is modelled over a finite sequence. So `Drain` always terminates, where an infinite source with too few matches would make the Swift loop spin.
- The `.lazy` wrapper and `LazySequenceType` conformance are modelled as the generator itself.
- TakeFirst.Next: `found += found` is modelled exactly, but its contract only states the case `found == 0`, the only value the counter ever takes from `init`.
- TrieTransforms.FlatMapTriesContains: the as-written trie `flatMap` is characterised step by step through the fold (which step added a sequence), not as a closed-form set. That set depends on the order of `contents`, which Swift leaves unspecified.

## Findings

| source | as written | input that shows it | evidently intended | confidence | as-written member | corrected member |
|---|---|---|---|---|---|---|
| SwiftSequence/Trie.swift:207-211 | `unionInPlace` only merges children. It never copies `with.endHere`, so a member of `with` that is already a path in the receiver is lost (including `[]` at the root) | receiver built from "ab", `with` built from "a": the union does not contain "a" | the member set of the result is the union of both member sets (`endHere` OR-ed at every node) | not executed | TrieSetOps.UnionDropsTerminal | TrieSetOps.UnionFixedMembers |
| Sources/TakeFirst.swift:44 | `found += found` starts from 0 and so stays 0. The `found != take` guard then never stops a generator with `take > 0`, and `takeFirst_n` yields every match. The shipped test expects exactly that | `[1, 2, 3, 4, 5, 6, 7].lazy.takeFirst_n({ $0 > 4 }, take: 2)` yields 5, 6, 7 | `found += 1`: yield at most `take` matches, 5, 6 here, as the doc comment at lines 71-73 shows | not executed | TakeFirst.ShippedTests | TakeFirst.DrainFixedTakesAtMost |
