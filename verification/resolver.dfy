/** The overlap resolver (lines 185-199): sort the comparisons by similarity, highest
    first, then keep each one whose file-1 section meets none of those kept before it. */
module Resolver {
  import opened Matcher
  import opened Seqs

  predicate NonIncreasing(cs: seq<TextComparison>) {
    forall i, j :: 0 <= i < j < |cs| ==> cs[i].similarity >= cs[j].similarity
  }

  /** The comparisons of similarity `v`, in their order in `cs`. */
  function WithSimilarity(cs: seq<TextComparison>, v: nat): seq<TextComparison>
    decreases |cs|
  {
    if |cs| == 0 then []
    else (if cs[0].similarity == v then [cs[0]] else []) + WithSimilarity(cs[1..], v)
  }

  /** Put `c` in front of the first element of `sorted` whose similarity does not exceed
      its own. */
  function Insert(c: TextComparison, sorted: seq<TextComparison>): (r: seq<TextComparison>)
    requires NonIncreasing(sorted)
    ensures NonIncreasing(r)
    ensures multiset(r) == multiset(sorted) + multiset{c}
    ensures |r| == |sorted| + 1
    decreases |sorted|
  {
    if |sorted| == 0 || c.similarity >= sorted[0].similarity then
      [c] + sorted
    else
      var rest := Insert(c, sorted[1..]);
      assert sorted == [sorted[0]] + sorted[1..];
      InsertBelowHead(sorted[0], c, sorted[1..], rest);
      [sorted[0]] + rest
  }

  lemma InsertBelowHead(h: TextComparison, c: TextComparison, tail: seq<TextComparison>, rest: seq<TextComparison>)
    requires NonIncreasing([h] + tail) && NonIncreasing(rest)
    requires c.similarity < h.similarity
    requires multiset(rest) == multiset(tail) + multiset{c}
    ensures NonIncreasing([h] + rest)
  {
    forall x | x in rest
      ensures x.similarity <= h.similarity
    {
      assert x in multiset(rest);
      if x != c {
        assert x in multiset(tail);
        assert x in tail;
        var k :| 0 <= k < |tail| && tail[k] == x;
        assert ([h] + tail)[0] == h && ([h] + tail)[k + 1] == x;
      }
    }
    var r := [h] + rest;
    forall i, j | 0 <= i < j < |r|
      ensures r[i].similarity >= r[j].similarity
    {
      if i == 0 {
        assert r[j] == rest[j - 1];
      } else {
        assert r[i] == rest[i - 1] && r[j] == rest[j - 1];
      }
    }
  }

  lemma WithSimilarityCons(x: TextComparison, s: seq<TextComparison>, v: nat)
    ensures WithSimilarity([x] + s, v) == (if x.similarity == v then [x] else []) + WithSimilarity(s, v)
  {
    assert ([x] + s)[1..] == s;
  }

  /** Insertion puts `c` after every element of higher similarity and before those of equal
      similarity, so among the comparisons of any one similarity it comes first. */
  lemma {:induction false} InsertStable(c: TextComparison, sorted: seq<TextComparison>, v: nat)
    requires NonIncreasing(sorted)
    ensures WithSimilarity(Insert(c, sorted), v) == (if c.similarity == v then [c] else []) + WithSimilarity(sorted, v)
    decreases |sorted|
  {
    if |sorted| == 0 || c.similarity >= sorted[0].similarity {
      WithSimilarityCons(c, sorted, v);
    } else {
      InsertStable(c, sorted[1..], v);
      WithSimilarityCons(sorted[0], Insert(c, sorted[1..]), v);
      WithSimilarityCons(sorted[0], sorted[1..], v);
      assert sorted == [sorted[0]] + sorted[1..];
    }
  }

  /** Line 185, Python's `sort(key=similarity, reverse=True)`: a permutation of `cs` in
      non-increasing similarity. */
  function SortBySimilarity(cs: seq<TextComparison>): (r: seq<TextComparison>)
    ensures NonIncreasing(r)
    ensures multiset(r) == multiset(cs)
    ensures |r| == |cs|
    decreases |cs|
  {
    if |cs| == 0 then []
    else
      assert cs == [cs[0]] + cs[1..];
      Insert(cs[0], SortBySimilarity(cs[1..]))
  }

  /** Sorting keeps the length and the members. */
  lemma SortMembers(cs: seq<TextComparison>)
    ensures |SortBySimilarity(cs)| == |cs|
    ensures forall c :: c in SortBySimilarity(cs) <==> c in cs
  {
    var s := SortBySimilarity(cs);
    assert |s| == |multiset(s)| == |multiset(cs)| == |cs|;
    assert forall c :: c in s <==> c in multiset(s);
    assert forall c :: c in cs <==> c in multiset(cs);
  }

  /** Python's sort is stable: comparisons of equal similarity keep their relative order. */
  lemma {:induction false} SortIsStable(cs: seq<TextComparison>, v: nat)
    ensures WithSimilarity(SortBySimilarity(cs), v) == WithSimilarity(cs, v)
    decreases |cs|
  {
    if |cs| > 0 {
      SortIsStable(cs[1..], v);
      InsertStable(cs[0], SortBySimilarity(cs[1..]), v);
    }
  }

  /** Sorting a list that is already in non-increasing similarity changes nothing. */
  lemma {:induction false} SortKeepsSorted(cs: seq<TextComparison>)
    requires NonIncreasing(cs)
    ensures SortBySimilarity(cs) == cs
    decreases |cs|
  {
    if |cs| > 0 {
      SortKeepsSorted(cs[1..]);
      assert cs == [cs[0]] + cs[1..];
    }
  }

  /** Line 195: two file-1 sections meet when each starts no later than the other ends.
      An empty section never reaches this test in the source (it would fail to index it). */
  predicate Intersects(a: Bounds, b: Bounds) {
    a.Bounds? && b.Bounds? && a.first <= b.last && a.last >= b.first
  }

  /** Two sections, each running forward, meet exactly when some character index lies in
      both; meeting is symmetric. */
  lemma IntersectsIff(a: Bounds, b: Bounds)
    requires a.Bounds? && b.Bounds? && a.first <= a.last && b.first <= b.last
    ensures Intersects(a, b) <==> exists x :: Covers(a, x) && Covers(b, x)
    ensures Intersects(a, b) == Intersects(b, a)
  {
    if Intersects(a, b) {
      var x := if a.first <= b.first then b.first else a.first;
      assert Covers(a, x) && Covers(b, x);
    }
  }

  /** Character index `x` lies in section `b`. */
  predicate Covers(b: Bounds, x: int) {
    b.Bounds? && b.first <= x <= b.last
  }

  predicate AllBounded(cs: seq<TextComparison>) {
    forall c :: c in cs ==> c.index1.Bounds?
  }

  /** The resolver indexes every file-1 section it compares: with two or more comparisons,
      each must have one. */
  predicate Resolvable(cs: seq<TextComparison>) {
    |cs| <= 1 || AllBounded(cs)
  }

  /** No two comparisons' file-1 sections meet. */
  predicate Disjoint(cs: seq<TextComparison>) {
    forall i, j :: 0 <= i < j < |cs| ==> !Intersects(cs[i].index1, cs[j].index1)
  }

  /** Every comparison of `cs` is in `r` or meets the file-1 section of one that is. */
  predicate Covered(cs: seq<TextComparison>, r: seq<TextComparison>) {
    forall c :: c in cs ==> c in r || exists u :: u in r && Intersects(c.index1, u.index1)
  }

  /** Every comparison of `r` comes from `a` or from `b`. */
  predicate DrawnFrom(r: seq<TextComparison>, a: seq<TextComparison>, b: seq<TextComparison>) {
    forall u :: u in r ==> u in a || u in b
  }

  /** Lines 193-197: whether `c`'s file-1 section meets that of some accepted comparison. */
  function OverlapsAccepted(c: TextComparison, accepted: seq<TextComparison>): (b: bool)
    requires |accepted| == 0 || (c.index1.Bounds? && AllBounded(accepted))
    ensures b <==> exists u :: u in accepted && Intersects(c.index1, u.index1)
    decreases |accepted|
  {
    if |accepted| == 0 then false
    else
      assert forall u :: u in accepted <==> u == accepted[0] || u in accepted[1..];
      Intersects(c.index1, accepted[0].index1) || OverlapsAccepted(c, accepted[1..])
  }

  /** Lines 191-199 for one comparison: keep it unless it meets an accepted one. */
  function Step(accepted: seq<TextComparison>, c: TextComparison): seq<TextComparison>
    requires |accepted| == 0 || (c.index1.Bounds? && AllBounded(accepted))
  {
    if OverlapsAccepted(c, accepted) then accepted else accepted + [c]
  }

  /** One step either keeps the accepted list or appends the candidate, and it appends
      exactly when the candidate's file-1 section meets no accepted one. */
  lemma StepAppendsIffApart(accepted: seq<TextComparison>, c: TextComparison)
    requires |accepted| == 0 || (c.index1.Bounds? && AllBounded(accepted))
    ensures Step(accepted, c) == accepted || Step(accepted, c) == accepted + [c]
    ensures Step(accepted, c) == accepted + [c] <==>
      forall u :: u in accepted ==> !Intersects(c.index1, u.index1)
  {
    if Step(accepted, c) == accepted + [c] {
      assert |Step(accepted, c)| != |accepted|;
    }
  }

  /** Lines 189-199: fold `Step` over `cs` starting from `accepted`. The accepted list only
      grows at its end, what it gains is a subsequence of `cs`, it stays pairwise disjoint,
      and every comparison of `cs` ends up kept or meeting a kept one. */
  function Greedy(cs: seq<TextComparison>, accepted: seq<TextComparison>): (r: seq<TextComparison>)
    requires |accepted| + |cs| <= 1 || (AllBounded(cs) && AllBounded(accepted))
    ensures |r| >= |accepted| && r[..|accepted|] == accepted
    ensures IsSubsequence(r[|accepted|..], cs)
    ensures Disjoint(accepted) ==> Disjoint(r)
    ensures Covered(cs, r)
    ensures DrawnFrom(r, accepted, cs)
    decreases |cs|
  {
    if |cs| == 0 then accepted
    else
      assert forall c :: c in cs[1..] ==> c in cs;
      var next := Step(accepted, cs[0]);
      StepKeepsDisjoint(accepted, cs[0]);
      var r := Greedy(cs[1..], next);
      GreedyTail(cs, accepted, next, r);
      r
  }

  lemma StepKeepsDisjoint(accepted: seq<TextComparison>, c: TextComparison)
    requires |accepted| == 0 || (c.index1.Bounds? && AllBounded(accepted))
    ensures Disjoint(accepted) ==> Disjoint(Step(accepted, c))
  {
    if Disjoint(accepted) && !OverlapsAccepted(c, accepted) {
      var r := accepted + [c];
      forall i, j | 0 <= i < j < |r|
        ensures !Intersects(r[i].index1, r[j].index1)
      {
        if j == |accepted| {
          assert r[i] in accepted;
        }
      }
    }
  }

  lemma GreedyTail(cs: seq<TextComparison>, accepted: seq<TextComparison>,
                   next: seq<TextComparison>, r: seq<TextComparison>)
    requires |cs| > 0
    requires |accepted| == 0 || (cs[0].index1.Bounds? && AllBounded(accepted))
    requires next == Step(accepted, cs[0])
    requires |r| >= |next| && r[..|next|] == next
    requires IsSubsequence(r[|next|..], cs[1..])
    requires Covered(cs[1..], r)
    requires DrawnFrom(r, next, cs[1..])
    ensures |r| >= |accepted| && r[..|accepted|] == accepted
    ensures IsSubsequence(r[|accepted|..], cs)
    ensures Covered(cs, r)
    ensures DrawnFrom(r, accepted, cs)
  {
    assert r[..|accepted|] == next[..|accepted|];
    if next == accepted {
      var u :| u in accepted && Intersects(cs[0].index1, u.index1);
      assert u in r;
      assert r[|accepted|..] == r[|next|..];
    } else {
      assert r[|accepted|] == cs[0];
      assert r[|accepted|..][1..] == r[|next|..];
      assert cs[0] in r;
    }
    assert forall c :: c in cs ==> c == cs[0] || c in cs[1..];
  }

  /** Lines 185-199: the comparisons kept from the stably sorted list. They come in
      non-increasing similarity, their file-1 sections are pairwise disjoint (all present
      when two or more are kept), and every comparison not kept meets a kept one. File-2
      sections are never compared. */
  function Resolve(cs: seq<TextComparison>): (r: seq<TextComparison>)
    requires Resolvable(cs)
    ensures IsSubsequence(r, SortBySimilarity(cs))
    ensures NonIncreasing(r)
    ensures Disjoint(r)
    ensures |r| <= |cs|
    ensures Resolvable(r)
    ensures forall u :: u in r ==> u in cs
    ensures Covered(cs, r)
  {
    var sorted := SortBySimilarity(cs);
    SortMembers(cs);
    var r := Greedy(sorted, []);
    assert r[0..] == r;
    SubsequencePairwise(r, sorted, (a: TextComparison, b: TextComparison) => a.similarity >= b.similarity);
    SubsequenceMembers(r, sorted);
    SubsequenceLength(r, sorted);
    r
  }

  /** Folding over two lists in turn is folding over their concatenation. */
  lemma {:induction false} GreedyAppend(xs: seq<TextComparison>, ys: seq<TextComparison>, accepted: seq<TextComparison>)
    requires |accepted| + |xs| + |ys| <= 1 || (AllBounded(xs) && AllBounded(ys) && AllBounded(accepted))
    ensures Greedy(xs + ys, accepted) == Greedy(ys, Greedy(xs, accepted))
    decreases |xs|
  {
    if |xs| > 0 {
      assert (xs + ys)[0] == xs[0] && (xs + ys)[1..] == xs[1..] + ys;
      assert forall c :: c in xs[1..] ==> c in xs;
      GreedyAppend(xs[1..], ys, Step(accepted, xs[0]));
    } else {
      assert xs + ys == ys;
    }
  }

  /** What the resolver has kept after the first `k` comparisons of the sorted list. */
  function KeptBefore(cs: seq<TextComparison>, k: nat): seq<TextComparison>
    requires Resolvable(cs) && k <= |cs|
  {
    var s := SortBySimilarity(cs);
    SortMembers(cs);
    assert forall c :: c in s[..k] ==> c in s;
    Greedy(s[..k], [])
  }

  /** Each comparison of the sorted list, in turn, is kept exactly when its file-1 section
      meets none of those kept before it. */
  lemma ResolveDecides(cs: seq<TextComparison>, k: nat)
    requires Resolvable(cs) && k < |cs|
    ensures var c := SortBySimilarity(cs)[k];
            KeptBefore(cs, k + 1) ==
              if exists u :: u in KeptBefore(cs, k) && Intersects(c.index1, u.index1)
              then KeptBefore(cs, k) else KeptBefore(cs, k) + [c]
  {
    var s := SortBySimilarity(cs);
    SortMembers(cs);
    TakeOneMore(s, k);
    assert KeptBefore(cs, k + 1) == Greedy(s[..k] + [s[k]], []);
    assert KeptBefore(cs, k) == Greedy(s[..k], []);
    if |cs| > 1 {
      assert s[k] in s;
      assert forall c :: c in s[..k] ==> c in s;
      assert AllBounded(s[..k]) && s[k].index1.Bounds?;
    }
    GreedySnoc(s[..k], s[k], []);
  }

  lemma GreedySnoc(xs: seq<TextComparison>, y: TextComparison, accepted: seq<TextComparison>)
    requires |accepted| + |xs| == 0 || (AllBounded(xs) && y.index1.Bounds? && AllBounded(accepted))
    ensures var before := Greedy(xs, accepted);
            Greedy(xs + [y], accepted) ==
              if exists u :: u in before && Intersects(y.index1, u.index1) then before else before + [y]
  {
    GreedyAppend(xs, [y], accepted);
    var before := Greedy(xs, accepted);
    assert Greedy([y], before) == Greedy([], Step(before, y));
  }

  /** What is kept up to any point is a prefix of the final result. */
  lemma KeptBeforeIsPrefix(cs: seq<TextComparison>, k: nat)
    requires Resolvable(cs) && k <= |cs|
    ensures var r := Resolve(cs);
            |KeptBefore(cs, k)| <= |r| && r[..|KeptBefore(cs, k)|] == KeptBefore(cs, k)
  {
    var s := SortBySimilarity(cs);
    SortMembers(cs);
    assert s == s[..k] + s[k..];
    assert forall c :: c in s[..k] ==> c in s;
    assert forall c :: c in s[k..] ==> c in s;
    GreedyAppend(s[..k], s[k..], []);
  }

  /** Everything kept before a comparison has at least its similarity. */
  lemma KeptBeforeRanksHigher(cs: seq<TextComparison>, k: nat)
    requires Resolvable(cs) && k < |cs|
    ensures forall u :: u in KeptBefore(cs, k) ==> u.similarity >= SortBySimilarity(cs)[k].similarity
  {
    var s := SortBySimilarity(cs);
    SortMembers(cs);
    forall u | u in KeptBefore(cs, k)
      ensures u.similarity >= s[k].similarity
    {
      assert u in s[..k];
      var i :| 0 <= i < k && s[..k][i] == u;
      assert s[i] == u;
    }
  }

  /** With no two file-1 sections meeting, every comparison is kept. */
  lemma {:induction false} GreedyOfDisjoint(cs: seq<TextComparison>, accepted: seq<TextComparison>)
    requires |accepted| + |cs| <= 1 || (AllBounded(cs) && AllBounded(accepted))
    requires Disjoint(accepted + cs)
    ensures Greedy(cs, accepted) == accepted + cs
    decreases |cs|
  {
    if |cs| > 0 {
      var all := accepted + cs;
      forall u | u in accepted
        ensures !Intersects(cs[0].index1, u.index1)
      {
        var i :| 0 <= i < |accepted| && accepted[i] == u;
        assert all[i] == u && all[|accepted|] == cs[0];
      }
      assert Step(accepted, cs[0]) == accepted + [cs[0]];
      assert (accepted + [cs[0]]) + cs[1..] == all;
      assert forall c :: c in cs[1..] ==> c in cs;
      GreedyOfDisjoint(cs[1..], accepted + [cs[0]]);
    } else {
      assert accepted + cs == accepted;
    }
  }

  /** Resolving an already resolved list changes nothing. */
  lemma ResolveIdempotent(cs: seq<TextComparison>)
    requires Resolvable(cs)
    ensures Resolvable(Resolve(cs))
    ensures Resolve(Resolve(cs)) == Resolve(cs)
  {
    var r := Resolve(cs);
    SortKeepsSorted(r);
    assert [] + r == r;
    GreedyOfDisjoint(r, []);
  }

  /** Only file-1 sections are compared: two comparisons that cover the same file-2 section
      are both kept when their file-1 sections are apart. */
  lemma FileTwoOverlapKept()
    ensures var a := TextComparison(Bounds(0, 4), Bounds(0, 9), 3);
            var b := TextComparison(Bounds(6, 9), Bounds(0, 9), 2);
            Resolve([a, b]) == [a, b]
  {
    var a := TextComparison(Bounds(0, 4), Bounds(0, 9), 3);
    var b := TextComparison(Bounds(6, 9), Bounds(0, 9), 2);
    assert [a, b][1..] == [b];
    assert SortBySimilarity([b]) == [b];
    assert SortBySimilarity([a, b]) == [a, b];
    assert Greedy([a, b], []) == Greedy([b], [a]);
    assert !OverlapsAccepted(b, [a]);
  }
}
