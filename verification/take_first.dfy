/**
  The lazy "take the first n matching" generator of Sources/TakeFirst.swift.
  The underlying generator is a position in a sequence.  The counter update is
  modelled as written, `found += found`, which keeps `found` at 0, so the `take`
  bound only ever stops a generator whose `take` is 0; `NextFixed` is the
  evidently intended `found += 1`.
*/
module TakeFirst {
  import opened Options
  import Finding

  /** `TakeFirstSeq`: the lazy sequence `takeFirst_n` returns. */
  datatype TakeFirstSeq<!T> = TakeFirstSeq(pred: T -> bool, xs: seq<T>, take: int)

  /** `TakeFirstGen`: predicate, underlying generator (`xs` read from `pos`),
      the bound `take` and the counter `found`. */
  datatype TakeFirstGen<!T> = TakeFirstGen(pred: T -> bool, xs: seq<T>, pos: nat, take: int, found: int)
  {
    ghost predicate Valid() { pos <= |xs| }
  }

  /** `TakeFirstGen.init`: the counter starts at 0. */
  function Init<T>(pred: T -> bool, xs: seq<T>, take: int): (g: TakeFirstGen<T>)
    ensures g.Valid()
  {
    TakeFirstGen(pred, xs, 0, take, 0)
  }

  /** `TakeFirstSeq.generate`. */
  function Generate<T>(s: TakeFirstSeq<T>): TakeFirstGen<T>
  {
    Init(s.pred, s.xs, s.take)
  }

  /** The `while let next = g.next()` loop: skip elements failing `pred` and stop
      after the first that satisfies it, or at the end of the input. */
  function Scan<T>(pred: T -> bool, xs: seq<T>, pos: nat): (r: (nat, Option<T>))
    requires pos <= |xs|
    ensures pos <= r.0 <= |xs|
    ensures r.1.None? ==> r.0 == |xs| && forall j :: pos <= j < |xs| ==> !pred(xs[j])
    ensures r.1.Some? ==> pos < r.0 && r.1.value == xs[r.0 - 1] && pred(xs[r.0 - 1])
                          && forall j :: pos <= j < r.0 - 1 ==> !pred(xs[j])
    decreases |xs| - pos
  {
    if pos == |xs| then (pos, None)
    else if pred(xs[pos]) then (pos + 1, Some(xs[pos]))
    else Scan(pred, xs, pos + 1)
  }

  /** `next()`: nothing once `found == take`; otherwise scan, and on a hit apply
      the counter update as written, `found += found`. */
  function Next<T>(g: TakeFirstGen<T>): (r: (TakeFirstGen<T>, Option<T>))
    requires g.Valid()
    ensures r.0.Valid() && r.0.pred == g.pred && r.0.xs == g.xs && r.0.take == g.take
    ensures g.found == g.take ==> r == (g, None)
    ensures g.found == 0 ==> r.0.found == 0
    ensures r.1.Some? ==> g.pos < r.0.pos
  {
    if g.found == g.take then (g, None)
    else
      var (p, e) := Scan(g.pred, g.xs, g.pos);
      (g.(pos := p, found := if e.Some? then g.found + g.found else g.found), e)
  }

  /** The elements a generator yields until its first `nil`: iterating the lazy
      sequence. */
  function Drain<T>(g: TakeFirstGen<T>): seq<T>
    requires g.Valid()
    decreases |g.xs| - g.pos
  {
    var (g', e) := Next(g);
    if e.None? then [] else [e.value] + Drain(g')
  }

  /** `takeFirst_n`: the elements of the lazy sequence it returns. */
  function TakeFirstN<T>(xs: seq<T>, pred: T -> bool, take: int): seq<T>
  {
    Drain(Generate(TakeFirstSeq(pred, xs, take)))
  }

  /** `takeFirst`: one `next()` of a generator with `take: 1`. */
  function TakeFirst<T>(xs: seq<T>, pred: T -> bool): (r: Option<T>)
    ensures r.None? <==> forall i :: 0 <= i < |xs| ==> !pred(xs[i])
    ensures r.Some? ==> exists i :: 0 <= i < |xs| && xs[i] == r.value && pred(xs[i])
                                    && forall j :: 0 <= j < i ==> !pred(xs[j])
  {
    Next(Generate(TakeFirstSeq(pred, xs, 1))).1
  }

  // ---------------------------------------------------------------------------

  predicate IsPrefix<T(==)>(a: seq<T>, b: seq<T>)
  {
    |a| <= |b| && a == b[..|a|]
  }

  lemma FilterSkip<T>(xs: seq<T>, pred: T -> bool, pos: nat, q: nat)
    requires pos <= q <= |xs|
    requires forall j :: pos <= j < q ==> !pred(xs[j])
    ensures Finding.Filter(xs[pos..], pred) == Finding.Filter(xs[q..], pred)
    decreases q - pos
  {
    if pos < q {
      FilterSkip(xs, pred, pos + 1, q);
      assert xs[pos..][1..] == xs[pos + 1..];
    }
  }

  /** What `next()` finds is the head of the remaining matches. */
  lemma NextHeadOfMatches<T>(g: TakeFirstGen<T>)
    requires g.Valid() && g.found != g.take
    ensures var (g', e) := Next(g);
            var rest := Finding.Filter(g.xs[g.pos..], g.pred);
            if e.None? then rest == []
            else rest == [e.value] + Finding.Filter(g.xs[g'.pos..], g.pred)
  {
    var (g', e) := Next(g);
    var xs, pred := g.xs, g.pred;
    if e.None? {
      FilterSkip(xs, pred, g.pos, |xs|);
    } else {
      var q := g'.pos - 1;
      FilterSkip(xs, pred, g.pos, q);
      assert xs[q..][1..] == xs[q + 1..];
    }
  }

  /** Whatever the counter, a generator yields a prefix of the matching elements
      after its position: an order-preserving selection of the input, every
      element satisfying the predicate. */
  lemma {:induction false} DrainPrefix<T>(g: TakeFirstGen<T>)
    requires g.Valid()
    ensures IsPrefix(Drain(g), Finding.Filter(g.xs[g.pos..], g.pred))
    decreases |g.xs| - g.pos
  {
    var (g', e) := Next(g);
    if e.Some? {
      NextHeadOfMatches(g);
      DrainPrefix(g');
    }
  }

  /** With the counter stuck at 0 and a non-zero bound, the generator yields every
      remaining matching element. */
  lemma {:induction false} DrainAllMatches<T>(g: TakeFirstGen<T>)
    requires g.Valid() && g.found == 0 && g.take != 0
    ensures Drain(g) == Finding.Filter(g.xs[g.pos..], g.pred)
    decreases |g.xs| - g.pos
  {
    var (g', e) := Next(g);
    NextHeadOfMatches(g);
    if e.Some? {
      DrainAllMatches(g');
    }
  }

  /** `takeFirst_n` as written: `take: 0` yields nothing, and any other bound is
      ignored, so every matching element comes out, in order. */
  lemma TakeFirstNYieldsAll<T>(xs: seq<T>, pred: T -> bool, take: int)
    ensures take == 0 ==> TakeFirstN(xs, pred, take) == []
    ensures take != 0 ==> TakeFirstN(xs, pred, take) == Finding.Filter(xs, pred)
  {
    if take != 0 {
      DrainAllMatches(Generate(TakeFirstSeq(pred, xs, take)));
      assert xs[0..] == xs;
    }
  }

  /** The shipped tests: `takeFirst { $0 > 4 }` on 1...7 is 5, and
      `takeFirst_n({ $0 > 4 }, take: 2)` yields 5, 6, 7. */
  lemma ShippedTests()
    ensures TakeFirst([1, 2, 3, 4, 5, 6, 7], x => x > 4) == Some(5)
    ensures TakeFirstN([1, 2, 3, 4, 5, 6, 7], x => x > 4, 2) == [5, 6, 7]
  {
  }

  // ---------------------------------------------------------------------------
  // The evidently intended counter, `found += 1`
  // ---------------------------------------------------------------------------

  function NextFixed<T>(g: TakeFirstGen<T>): (r: (TakeFirstGen<T>, Option<T>))
    requires g.Valid()
    ensures r.0.Valid() && r.0.pred == g.pred && r.0.xs == g.xs && r.0.take == g.take
    ensures g.found == g.take ==> r == (g, None)
    ensures r.1.Some? ==> g.pos < r.0.pos && r.0.found == g.found + 1
    ensures r.1.None? ==> r.0.found == g.found
  {
    if g.found == g.take then (g, None)
    else
      var (p, e) := Scan(g.pred, g.xs, g.pos);
      (g.(pos := p, found := if e.Some? then g.found + 1 else g.found), e)
  }

  function DrainFixed<T>(g: TakeFirstGen<T>): seq<T>
    requires g.Valid()
    decreases |g.xs| - g.pos
  {
    var (g', e) := NextFixed(g);
    if e.None? then [] else [e.value] + DrainFixed(g')
  }

  function TakeFirstNFixed<T>(xs: seq<T>, pred: T -> bool, take: int): seq<T>
  {
    DrainFixed(Generate(TakeFirstSeq(pred, xs, take)))
  }

  function Min(a: int, b: int): int { if a <= b then a else b }

  /** With `found += 1` the generator yields the first `take - found` remaining
      matches (or all of them, if there are fewer). */
  lemma {:induction false} DrainFixedTakesAtMost<T>(g: TakeFirstGen<T>)
    requires g.Valid() && 0 <= g.found <= g.take
    ensures var rest := Finding.Filter(g.xs[g.pos..], g.pred);
            DrainFixed(g) == rest[..Min(g.take - g.found, |rest|)]
    decreases |g.xs| - g.pos
  {
    var (g', e) := NextFixed(g);
    var rest := Finding.Filter(g.xs[g.pos..], g.pred);
    if g.found != g.take {
      NextHeadOfMatches(g);
      assert Next(g).1 == e && Next(g).0.pos == g'.pos;
      if e.Some? {
        DrainFixedTakesAtMost(g');
      }
    }
  }

  /** `takeFirst_n` with the corrected counter honours its bound: 5 and 6 only. */
  lemma FixedTakesTwo()
    ensures TakeFirstNFixed([1, 2, 3, 4, 5, 6, 7], x => x > 4, 2) == [5, 6]
  {
  }
}
