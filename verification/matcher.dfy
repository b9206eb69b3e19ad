/** The matcher (lines 163-182): for every word of file 1, the same-text word of file 2
    whose neighbourhood shares the most texts with its own, kept when the share clears
    the cutoff. */
module Matcher {
  import opened Results
  import opened Tokenizer
  import opened Nearby

  /** A Python list that is either empty or holds the indices of a section's first and
      last characters. */
  datatype Bounds = NoBounds | Bounds(first: nat, last: nat)

  /** A candidate pair of sections: `index1` in file 1, `index2` in file 2, and the number
      of neighbour texts they share. */
  datatype TextComparison = TextComparison(index1: Bounds, index2: Bounds, similarity: nat)

  /** A denominator: Python's `/` fails on zero, so a cutoff never has one. */
  type Positive = n: nat | 0 < n witness 1

  /** `percentCutoff` as the exact fraction `num / den`. */
  datatype Cutoff = Cutoff(num: nat, den: Positive)

  /** Line 181, `(similarity + 1) / (2 * r + 1) >= num / den`, cross-multiplied. */
  predicate PassesCutoff(similarity: nat, r: nat, cutoff: Cutoff) {
    (similarity + 1) * cutoff.den >= cutoff.num * (2 * r + 1)
  }

  /** Line 181 read over the reals: the cross-multiplied test is the ratio test. */
  lemma CutoffIsRatio(similarity: nat, r: nat, cutoff: Cutoff)
    ensures PassesCutoff(similarity, r, cutoff) <==>
      (similarity + 1) as real / (2 * r + 1) as real >= cutoff.num as real / cutoff.den as real
  {
    var x, y := (similarity + 1) as real, (2 * r + 1) as real;
    var p, q := cutoff.num as real, cutoff.den as real;
    assert x / y - p / q == (x * q - p * y) / (y * q);
    assert (x * q - p * y >= 0.0) <==> (x * q - p * y) / (y * q) >= 0.0;
  }

  /** Line 172: the number of neighbour texts two neighbourhoods share. */
  function Overlap(a: Neighbourhood, b: Neighbourhood): (o: nat)
    ensures o <= |a.nearbyWords| && o <= |b.nearbyWords|
  {
    SubsetCount(a.nearbyWords * b.nearbyWords, a.nearbyWords);
    SubsetCount(a.nearbyWords * b.nearbyWords, b.nearbyWords);
    |a.nearbyWords * b.nearbyWords|
  }

  function SpanOf(nb: Neighbourhood): Bounds {
    Bounds(nb.nearbyStart, nb.nearbyEnd)
  }

  predicate ValidMatches(matches: seq<nat>, nbs2: seq<Neighbourhood>) {
    forall j :: 0 <= j < |matches| ==> matches[j] < |nbs2|
  }

  lemma {:induction false} SubsetCount<T>(a: set<T>, b: set<T>)
    requires a <= b
    ensures |a| <= |b|
    decreases |a|
  {
    if a != {} {
      var x :| x in a;
      SubsetCount(a - {x}, b - {x});
    }
  }

  /** Reference: the largest overlap of `nb` with the listed file-2 neighbourhoods, or 0. */
  function MaxOverlap(nb: Neighbourhood, nbs2: seq<Neighbourhood>, matches: seq<nat>): (m: nat)
    requires ValidMatches(matches, nbs2)
    ensures forall j :: 0 <= j < |matches| ==> Overlap(nb, nbs2[matches[j]]) <= m
    ensures m == 0 || exists j :: 0 <= j < |matches| && Overlap(nb, nbs2[matches[j]]) == m
    decreases |matches|
  {
    if |matches| == 0 then 0
    else
      var n := |matches| - 1;
      var prev := MaxOverlap(nb, nbs2, matches[..n]);
      var o := Overlap(nb, nbs2[matches[n]]);
      assert forall j :: 0 <= j < n ==> matches[..n][j] == matches[j];
      if o > prev then o else prev
  }

  /** Reference: the first position in `matches` whose overlap reaches `v`, or `|matches|`. */
  function FirstReaching(nb: Neighbourhood, nbs2: seq<Neighbourhood>, matches: seq<nat>, v: nat): (j: nat)
    requires ValidMatches(matches, nbs2)
    ensures j <= |matches|
    ensures j < |matches| ==> Overlap(nb, nbs2[matches[j]]) >= v
    ensures forall k :: 0 <= k < j ==> Overlap(nb, nbs2[matches[k]]) < v
    decreases |matches|
  {
    if |matches| == 0 then 0
    else if Overlap(nb, nbs2[matches[0]]) >= v then 0
    else
      var rest := FirstReaching(nb, nbs2, matches[1..], v);
      assert forall k :: 1 <= k < |matches| ==> matches[1..][k - 1] == matches[k];
      1 + rest
  }

  /** Lines 170-178 from position `j` on: the best overlap so far and the position in
      `matches` that set it are replaced only by a strictly larger overlap, so the result
      bounds every later overlap and, if it changed, was set by the first position reaching it. */
  function ScanMatches(nb: Neighbourhood, nbs2: seq<Neighbourhood>, matches: seq<nat>,
                       j: nat, similarity: nat, best: Option<nat>): (r: (nat, Option<nat>))
    requires j <= |matches| && ValidMatches(matches, nbs2)
    ensures r.0 >= similarity
    ensures forall k :: j <= k < |matches| ==> Overlap(nb, nbs2[matches[k]]) <= r.0
    ensures || r == (similarity, best)
            || (&& r.1.Some? && j <= r.1.value < |matches|
                && Overlap(nb, nbs2[matches[r.1.value]]) == r.0 > similarity
                && forall k :: j <= k < r.1.value ==> Overlap(nb, nbs2[matches[k]]) < r.0)
    decreases |matches| - j
  {
    if j == |matches| then (similarity, best)
    else
      var o := Overlap(nb, nbs2[matches[j]]);
      if similarity < o then ScanMatches(nb, nbs2, matches, j + 1, o, Some(j))
      else ScanMatches(nb, nbs2, matches, j + 1, similarity, best)
  }

  lemma ScanFindsFirstMax(nb: Neighbourhood, nbs2: seq<Neighbourhood>, matches: seq<nat>)
    requires ValidMatches(matches, nbs2)
    ensures var r := ScanMatches(nb, nbs2, matches, 0, 0, None);
      && r.0 == MaxOverlap(nb, nbs2, matches)
      && (r.1.None? ==> r.0 == 0)
      && (r.1.Some? ==> r.0 > 0 && r.1.value == FirstReaching(nb, nbs2, matches, r.0))
  {
    var r := ScanMatches(nb, nbs2, matches, 0, 0, None);
    var m := MaxOverlap(nb, nbs2, matches);
    if m > 0 {
      var j :| 0 <= j < |matches| && Overlap(nb, nbs2[matches[j]]) == m;
      assert m <= r.0;
    }
    if r.1.Some? {
      var w := r.1.value;
      var f := FirstReaching(nb, nbs2, matches, r.0);
      assert Overlap(nb, nbs2[matches[w]]) <= m;
    }
  }

  /** Lines 166-182 for one word of file 1 with neighbourhood `nb` and the positions
      `matches` of its text in file 2. A comparison is emitted exactly when the largest
      overlap clears the cutoff; it records that overlap and, when it is positive, the
      sections of the word and of the first file-2 word reaching it; with overlap 0 both
      sections stay empty lists. */
  function BestMatch(nb: Neighbourhood, nbs2: seq<Neighbourhood>, matches: seq<nat>,
                     r: nat, cutoff: Cutoff): (c: Option<TextComparison>)
    requires ValidMatches(matches, nbs2)
    ensures c.Some? <==> PassesCutoff(MaxOverlap(nb, nbs2, matches), r, cutoff)
    ensures c.Some? ==> c.value.similarity == MaxOverlap(nb, nbs2, matches)
    ensures c.Some? && c.value.similarity > 0 ==>
      var j := FirstReaching(nb, nbs2, matches, c.value.similarity);
      && j < |matches|
      && c.value.index1 == SpanOf(nb)
      && c.value.index2 == SpanOf(nbs2[matches[j]])
    ensures c.Some? && c.value.similarity == 0 ==>
      c.value.index1 == NoBounds && c.value.index2 == NoBounds
    ensures c.Some? ==> c.value.similarity <= |nb.nearbyWords|
  {
    ScanFindsFirstMax(nb, nbs2, matches);
    var (similarity, best) := ScanMatches(nb, nbs2, matches, 0, 0, None);
    if PassesCutoff(similarity, r, cutoff) then
      if best.Some? then
        Some(TextComparison(SpanOf(nb), SpanOf(nbs2[matches[best.value]]), similarity))
      else
        Some(TextComparison(NoBounds, NoBounds, similarity))
    else None
  }

  /** What the matcher reads: the filtered file-1 words with their neighbourhoods, the
      file-2 neighbourhoods, and file 2's vocabulary index, which holds every file-1 text. */
  predicate MatcherInputs(words1: seq<Word>, nbs1: seq<Neighbourhood>, nbs2: seq<Neighbourhood>,
                          index2: map<string, seq<nat>>) {
    && |nbs1| == |words1|
    && (forall q :: 0 <= q < |words1| ==> words1[q].text in index2)
    && (forall t :: t in index2 ==> ValidMatches(index2[t], nbs2))
  }

  /** The comparison emitted for the file-1 word at position `q`, if any. */
  function MatchAt(words1: seq<Word>, nbs1: seq<Neighbourhood>, nbs2: seq<Neighbourhood>,
                   index2: map<string, seq<nat>>, r: nat, cutoff: Cutoff, q: nat): (m: Option<TextComparison>)
    requires MatcherInputs(words1, nbs1, nbs2, index2) && q < |words1|
    ensures m.Some? <==> PassesCutoff(MaxOverlap(nbs1[q], nbs2, index2[words1[q].text]), r, cutoff)
    ensures m.Some? ==> m.value.similarity == MaxOverlap(nbs1[q], nbs2, index2[words1[q].text])
    ensures m.Some? ==> m.value.similarity <= |nbs1[q].nearbyWords|
  {
    BestMatch(nbs1[q], nbs2, index2[words1[q].text], r, cutoff)
  }

  /** The values of the `Some` entries of `opts` from position `k` on, in order. */
  function Present(opts: seq<Option<TextComparison>>, k: nat): (vs: seq<TextComparison>)
    requires k <= |opts|
    ensures |vs| <= |opts| - k
    ensures forall v :: v in vs <==> exists q :: k <= q < |opts| && opts[q] == Some(v)
    decreases |opts| - k
  {
    if k == |opts| then []
    else (if opts[k].Some? then [opts[k].value] else []) + Present(opts, k + 1)
  }

  /** The positions of the `Some` entries of `opts` from position `k` on, ascending. */
  function PresentAt(opts: seq<Option<TextComparison>>, k: nat): (qs: seq<nat>)
    requires k <= |opts|
    ensures forall j :: 0 <= j < |qs| ==> k <= qs[j] < |opts|
    ensures forall i, j :: 0 <= i < j < |qs| ==> qs[i] < qs[j]
    ensures forall q :: k <= q < |opts| ==> (q in qs <==> opts[q].Some?)
    decreases |opts| - k
  {
    if k == |opts| then []
    else if opts[k].Some? then [k] + PresentAt(opts, k + 1)
    else PresentAt(opts, k + 1)
  }

  /** `vs[j]` is the value of the `Some` entry at position `qs[j]`, for every `j`. */
  predicate FollowsPositions(opts: seq<Option<TextComparison>>, vs: seq<TextComparison>, qs: seq<nat>) {
    && |vs| == |qs|
    && forall j :: 0 <= j < |qs| ==> qs[j] < |opts| && opts[qs[j]] == Some(vs[j])
  }

  /** `Present` keeps one value per `Some` entry, in order: its `j`-th value is the entry
      at the `j`-th position of `PresentAt`. */
  lemma {:induction false} PresentFollowsPositions(opts: seq<Option<TextComparison>>, k: nat)
    requires k <= |opts|
    ensures FollowsPositions(opts, Present(opts, k), PresentAt(opts, k))
    decreases |opts| - k
  {
    if k == |opts| {
      assert Present(opts, k) == [] && PresentAt(opts, k) == [];
    } else {
      PresentFollowsPositions(opts, k + 1);
      var vs, qs := Present(opts, k + 1), PresentAt(opts, k + 1);
      if opts[k].Some? {
        PresentStep(opts, k);
        ConsFollows(opts, k, vs, qs);
      } else {
        PresentSkip(opts, k);
      }
    }
  }

  /** A `Some` entry at `k` heads both lists. */
  lemma PresentStep(opts: seq<Option<TextComparison>>, k: nat)
    requires k < |opts| && opts[k].Some?
    ensures Present(opts, k) == [opts[k].value] + Present(opts, k + 1)
    ensures PresentAt(opts, k) == [k] + PresentAt(opts, k + 1)
  {
  }

  /** A `None` entry at `k` adds nothing to either list. */
  lemma PresentSkip(opts: seq<Option<TextComparison>>, k: nat)
    requires k < |opts| && opts[k].None?
    ensures Present(opts, k) == Present(opts, k + 1)
    ensures PresentAt(opts, k) == PresentAt(opts, k + 1)
  {
    assert [] + Present(opts, k + 1) == Present(opts, k + 1);
  }

  lemma ConsFollows(opts: seq<Option<TextComparison>>, k: nat, vs: seq<TextComparison>, qs: seq<nat>)
    requires k < |opts| && opts[k].Some?
    requires FollowsPositions(opts, vs, qs)
    ensures FollowsPositions(opts, [opts[k].value] + vs, [k] + qs)
  {
    forall j | 0 <= j < |qs| + 1
      ensures ([k] + qs)[j] < |opts| && opts[([k] + qs)[j]] == Some(([opts[k].value] + vs)[j])
    {
      if j > 0 {
        assert ([k] + qs)[j] == qs[j - 1];
        assert ([opts[k].value] + vs)[j] == vs[j - 1];
      }
    }
  }

  /** The comparison each file-1 word emits, if any, in file-1 order. */
  function MatchList(words1: seq<Word>, nbs1: seq<Neighbourhood>, nbs2: seq<Neighbourhood>,
                     index2: map<string, seq<nat>>, r: nat, cutoff: Cutoff): (opts: seq<Option<TextComparison>>)
    requires MatcherInputs(words1, nbs1, nbs2, index2)
    ensures |opts| == |words1|
    ensures forall q :: 0 <= q < |words1| ==> opts[q] == MatchAt(words1, nbs1, nbs2, index2, r, cutoff, q)
  {
    seq(|words1|, q requires 0 <= q < |words1| => MatchAt(words1, nbs1, nbs2, index2, r, cutoff, q))
  }

  /** No neighbourhood holds more than `2 * r` texts. */
  predicate SmallNeighbourhoods(nbs: seq<Neighbourhood>, r: nat) {
    forall q :: 0 <= q < |nbs| ==> |nbs[q].nearbyWords| <= 2 * r
  }

  /** Lines 163-182: the comparisons of all file-1 words, at most one per word and in
      file-1 order (`PresentFollowsPositions`). Every comparison clears the cutoff, has empty
      sections exactly when its similarity is 0, and has similarity at most `2 * r` when
      every neighbourhood of file 1 has at most `2 * r` texts. */
  function Matches(words1: seq<Word>, nbs1: seq<Neighbourhood>, nbs2: seq<Neighbourhood>,
                   index2: map<string, seq<nat>>, r: nat, cutoff: Cutoff): (cs: seq<TextComparison>)
    requires MatcherInputs(words1, nbs1, nbs2, index2)
    ensures |cs| <= |words1|
    ensures forall c :: c in cs ==> PassesCutoff(c.similarity, r, cutoff)
    ensures forall c :: c in cs ==> (c.similarity == 0 <==> c.index1.NoBounds?)
    ensures forall c :: c in cs ==> (c.similarity == 0 <==> c.index2.NoBounds?)
    ensures SmallNeighbourhoods(nbs1, r) ==> forall c :: c in cs ==> c.similarity <= 2 * r
  {
    var opts := MatchList(words1, nbs1, nbs2, index2, r, cutoff);
    Present(opts, 0)
  }

  /** Every section a non-empty comparison reports is the section of a neighbourhood: of
      some file-1 word for `index1` and of some file-2 word for `index2`. */
  lemma MatchesSections(words1: seq<Word>, nbs1: seq<Neighbourhood>, nbs2: seq<Neighbourhood>,
                        index2: map<string, seq<nat>>, r: nat, cutoff: Cutoff)
    requires MatcherInputs(words1, nbs1, nbs2, index2)
    ensures forall c :: c in Matches(words1, nbs1, nbs2, index2, r, cutoff) && c.similarity > 0 ==>
      && (exists q :: 0 <= q < |nbs1| && c.index1 == SpanOf(nbs1[q]))
      && (exists j :: 0 <= j < |nbs2| && c.index2 == SpanOf(nbs2[j]))
  {
    var opts := MatchList(words1, nbs1, nbs2, index2, r, cutoff);
    forall c | c in Matches(words1, nbs1, nbs2, index2, r, cutoff) && c.similarity > 0
      ensures exists q :: 0 <= q < |nbs1| && c.index1 == SpanOf(nbs1[q])
      ensures exists j :: 0 <= j < |nbs2| && c.index2 == SpanOf(nbs2[j])
    {
      var q :| 0 <= q < |opts| && opts[q] == Some(c);
      var matches := index2[words1[q].text];
      var j := FirstReaching(nbs1[q], nbs2, matches, c.similarity);
      assert c.index1 == SpanOf(nbs1[q]);
      assert c.index2 == SpanOf(nbs2[matches[j]]);
    }
  }
}
