/** `Word.findNearbyWords` (lines 45-72): the window of word indices around a token and the
    neighbours found by walking the filtered list outwards from it. */
module Nearby {
  import opened Seqs
  import opened Tokenizer
  import opened Vocabulary

  /** A token's section: the set of its neighbours' texts (`nearbyWords`) and the indices
      of the first and last characters the section covers (`nearbyIndex`). */
  datatype Neighbourhood = Neighbourhood(nearbyWords: set<string>, nearbyStart: nat, nearbyEnd: nat)

  /** Lines 50-55: the range `[searchMin, searchMax]` of word indices searched around
      `wordIndex`. It always spans `2 * r + 1` indices; it is centred on `wordIndex` when that
      fits, and otherwise shifted (not cut) to stay inside the document. */
  function Window(wordIndex: int, numOfWords: int, r: nat): (w: (int, int))
    ensures w.1 - w.0 == 2 * r
    ensures r <= wordIndex <= numOfWords - r - 1 ==> w.0 == wordIndex - r
    ensures wordIndex < r ==> w.0 == 0
    ensures r <= wordIndex && wordIndex > numOfWords - r - 1 ==> w.1 == numOfWords - 1
    ensures numOfWords > 2 * r && 0 <= wordIndex < numOfWords ==>
      0 <= w.0 <= wordIndex <= w.1 <= numOfWords - 1
  {
    var searchMin :=
      if wordIndex < r then 0
      else if wordIndex > numOfWords - r - 1 then numOfWords - r * 2 - 1
      else wordIndex - r;
    (searchMin, searchMin + r * 2)
  }

  /** Lines 58-64: from position `j` downwards, the first position that is before the list
      or whose word index is below `searchMin`. */
  function WalkBack(words: seq<Word>, j: int, searchMin: int): (stop: int)
    requires -1 <= j < |words|
    ensures -1 <= stop <= j
    ensures forall k :: stop < k <= j ==> words[k].wordIndex >= searchMin
    ensures stop >= 0 ==> words[stop].wordIndex < searchMin
    decreases j + 1
  {
    if j < 0 || words[j].wordIndex < searchMin then j else WalkBack(words, j - 1, searchMin)
  }

  /** Lines 66-72: from position `j` upwards, the first position that is past the list
      or whose word index is above `searchMax`. */
  function WalkForward(words: seq<Word>, j: int, searchMax: int): (stop: int)
    requires 0 <= j <= |words|
    ensures j <= stop <= |words|
    ensures forall k :: j <= k < stop ==> words[k].wordIndex <= searchMax
    ensures stop < |words| ==> words[stop].wordIndex > searchMax
    decreases |words| - j
  {
    if j == |words| || words[j].wordIndex > searchMax then j else WalkForward(words, j + 1, searchMax)
  }

  /** The texts of the words at positions `a` to `c - 1`, position `i` excepted. */
  function TextsBetween(words: seq<Word>, a: int, c: int, i: int): (ts: set<string>)
    requires 0 <= a && c <= |words|
    decreases c - a
  {
    if c <= a then {}
    else TextsBetween(words, a, c - 1, i) + (if c - 1 == i then {} else {words[c - 1].text})
  }

  lemma {:induction false} TextsBetweenMembers(words: seq<Word>, a: int, c: int, i: int)
    requires 0 <= a && c <= |words|
    ensures forall t :: t in TextsBetween(words, a, c, i) <==>
      exists k :: a <= k < c && k != i && words[k].text == t
    decreases c - a
  {
    if c > a {
      TextsBetweenMembers(words, a, c - 1, i);
    }
  }

  /** Lines 45-72 for the token at list position `i`: its neighbours are the words reached
      by walking backwards while their word index is at least `searchMin` and forwards while
      it is at most `searchMax`. Every text collected belongs to another word of the list
      reached that way; when word indices ascend and the document is long enough, the texts
      collected are exactly those of the other words inside the window. */
  function FindNearbyWords(words: seq<Word>, i: nat, numOfWords: int, r: nat): (nb: Neighbourhood)
    requires i < |words|
    ensures var (searchMin, searchMax) := Window(words[i].wordIndex, numOfWords, r);
      forall t :: t in nb.nearbyWords ==>
        exists k :: 0 <= k < |words| && k != i && words[k].text == t
                    && (k < i ==> words[k].wordIndex >= searchMin)
                    && (k > i ==> words[k].wordIndex <= searchMax)
    ensures var (searchMin, searchMax) := Window(words[i].wordIndex, numOfWords, r);
      Ascending(words) && numOfWords > 2 * r && words[i].wordIndex < numOfWords ==>
        forall t :: t in nb.nearbyWords <==>
          exists k :: 0 <= k < |words| && k != i && words[k].text == t
                      && searchMin <= words[k].wordIndex <= searchMax
  {
    var w := words[i];
    var (searchMin, searchMax) := Window(w.wordIndex, numOfWords, r);
    var b := WalkBack(words, i - 1, searchMin);
    var f := WalkForward(words, i + 1, searchMax);
    TextsBetweenMembers(words, b + 1, f, i);
    InWindowIsReached(words, i, numOfWords, r);
    Section(words, i, b, f)
  }

  /** Lines 57-72: the section of the word at position `i` once the walks have stopped at
      `b` and `f`. */
  function Section(words: seq<Word>, i: nat, b: int, f: int): Neighbourhood
    requires -1 <= b < i < f <= |words|
  {
    Neighbourhood(
      TextsBetween(words, b + 1, f, i),
      if b + 1 < i then words[b + 1].startIndex else words[i].startIndex,
      if f - 1 > i then words[f - 1].endIndex else words[i].endIndex)
  }

  /** A section starts where some word of the list starts and ends where some word ends. */
  lemma SpanFromWords(words: seq<Word>, i: nat, numOfWords: int, r: nat)
    requires i < |words|
    ensures var nb := FindNearbyWords(words, i, numOfWords, r);
            && (exists k :: 0 <= k < |words| && nb.nearbyStart == words[k].startIndex)
            && (exists k :: 0 <= k < |words| && nb.nearbyEnd == words[k].endIndex)
  {
    var (searchMin, searchMax) := Window(words[i].wordIndex, numOfWords, r);
    var b := WalkBack(words, i - 1, searchMin);
    var f := WalkForward(words, i + 1, searchMax);
    var nb := FindNearbyWords(words, i, numOfWords, r);
    var ks := if b + 1 < i then b + 1 else i;
    var ke := if f - 1 > i then f - 1 else i;
    assert nb.nearbyStart == words[ks].startIndex;
    assert nb.nearbyEnd == words[ke].endIndex;
  }

  /** When word indices ascend, the two walks from `i` reach exactly the positions whose
      word index lies inside the window (for a long enough document). */
  lemma InWindowIsReached(words: seq<Word>, i: nat, numOfWords: int, r: nat)
    requires i < |words|
    ensures var (searchMin, searchMax) := Window(words[i].wordIndex, numOfWords, r);
      var b := WalkBack(words, i - 1, searchMin);
      var f := WalkForward(words, i + 1, searchMax);
      Ascending(words) && numOfWords > 2 * r && words[i].wordIndex < numOfWords ==>
        forall k :: 0 <= k < |words| ==>
          (b < k < f <==> searchMin <= words[k].wordIndex <= searchMax)
  {
    var (searchMin, searchMax) := Window(words[i].wordIndex, numOfWords, r);
    var b := WalkBack(words, i - 1, searchMin);
    var f := WalkForward(words, i + 1, searchMax);
    if Ascending(words) && numOfWords > 2 * r && words[i].wordIndex < numOfWords {
      forall k | 0 <= k < |words|
        ensures b < k < f <==> searchMin <= words[k].wordIndex <= searchMax
      {
        ReachedAt(words, i, searchMin, searchMax, b, f, k);
      }
    }
  }

  lemma ReachedAt(words: seq<Word>, i: nat, searchMin: int, searchMax: int, b: int, f: int, k: nat)
    requires i < |words| && k < |words|
    requires Ascending(words)
    requires searchMin <= words[i].wordIndex <= searchMax
    requires b == WalkBack(words, i - 1, searchMin)
    requires f == WalkForward(words, i + 1, searchMax)
    ensures b < k < f <==> searchMin <= words[k].wordIndex <= searchMax
  {
    if k <= b {
      assert words[k].wordIndex <= words[b].wordIndex;
    } else if k >= f {
      assert words[f].wordIndex <= words[k].wordIndex;
    } else if k < i {
      assert words[k].wordIndex < words[i].wordIndex;
    } else if k > i {
      assert words[i].wordIndex < words[k].wordIndex;
    }
  }

  /** Lines 157-160: the neighbourhood of every token of a filtered list. */
  function Neighbourhoods(words: seq<Word>, numOfWords: int, r: nat): (nbs: seq<Neighbourhood>)
    ensures |nbs| == |words|
    ensures forall k :: 0 <= k < |words| ==> nbs[k] == FindNearbyWords(words, k, numOfWords, r)
  {
    seq(|words|, k requires 0 <= k < |words| => FindNearbyWords(words, k, numOfWords, r))
  }

  lemma {:induction false} Spread(words: seq<Word>, p: nat, q: nat)
    requires Ascending(words)
    requires p <= q < |words|
    ensures words[q].wordIndex - words[p].wordIndex >= q - p
    decreases q - p
  {
    if p < q {
      Spread(words, p, q - 1);
    }
  }

  lemma {:induction false} TextsBetweenCount(words: seq<Word>, a: nat, c: nat, i: int)
    requires a <= c <= |words|
    ensures |TextsBetween(words, a, c, i)| <= c - a - (if a <= i < c then 1 else 0)
    decreases c - a
  {
    if a < c {
      TextsBetweenCount(words, a, c - 1, i);
      var prev := TextsBetween(words, a, c - 1, i);
      if c - 1 != i {
        var x := words[c - 1].text;
        assert TextsBetween(words, a, c, i) == prev + {x};
        assert |prev + {x}| <= |prev| + 1;
      } else {
        assert TextsBetween(words, a, c, i) == prev;
      }
    }
  }

  /** In a list with ascending word indices, a token of a long enough document has at most
      `2 * r` distinct neighbour texts. */
  lemma {:induction false} NearbyCount(words: seq<Word>, i: nat, numOfWords: int, r: nat)
    requires i < |words|
    requires Ascending(words)
    requires numOfWords > 2 * r && words[i].wordIndex < numOfWords
    ensures |FindNearbyWords(words, i, numOfWords, r).nearbyWords| <= 2 * r
  {
    var win := Window(words[i].wordIndex, numOfWords, r);
    var b := WalkBack(words, i - 1, win.0);
    var f := WalkForward(words, i + 1, win.1);
    assert win.0 <= words[i].wordIndex <= win.0 + 2 * r;
    WalkedCount(words, i, b, f, win.0, r);
    NearbyWordsWalked(words, i, numOfWords, r, b, f);
  }

  /** A section's neighbour texts are the texts between the two walks' stopping points. */
  lemma NearbyWordsWalked(words: seq<Word>, i: nat, numOfWords: int, r: nat, b: int, f: int)
    requires i < |words|
    requires b == WalkBack(words, i - 1, Window(words[i].wordIndex, numOfWords, r).0)
    requires f == WalkForward(words, i + 1, Window(words[i].wordIndex, numOfWords, r).1)
    ensures FindNearbyWords(words, i, numOfWords, r).nearbyWords == TextsBetween(words, b + 1, f, i)
  {
    assert FindNearbyWords(words, i, numOfWords, r) == Section(words, i, b, f);
  }

  /** The walks from `i` inside a window of `2 * r + 1` ascending word indices pass at most
      `2 * r` other words. */
  lemma WalkedCount(words: seq<Word>, i: nat, b: int, f: int, searchMin: int, r: nat)
    requires i < |words| && Ascending(words)
    requires searchMin <= words[i].wordIndex <= searchMin + 2 * r
    requires b == WalkBack(words, i - 1, searchMin)
    requires f == WalkForward(words, i + 1, searchMin + 2 * r)
    ensures |TextsBetween(words, b + 1, f, i)| <= 2 * r
  {
    assert b + 1 <= i < f;
    assert words[b + 1].wordIndex >= searchMin by {
      if b + 1 < i {
        assert words[b + 1].wordIndex >= searchMin;
      }
    }
    assert words[f - 1].wordIndex <= searchMin + 2 * r by {
      if f - 1 > i {
        assert words[f - 1].wordIndex <= searchMin + 2 * r;
      }
    }
    Spread(words, b + 1, f - 1);
    assert f - b - 2 <= 2 * r;
    TextsBetweenCount(words, b + 1, f, i);
    assert |TextsBetween(words, b + 1, f, i)| <= f - b - 2;
  }

  /** Start and end offsets never decrease along the list. */
  predicate OffsetsAscending(words: seq<Word>) {
    forall k, l :: 0 <= k < l < |words| ==>
      words[k].startIndex <= words[l].startIndex && words[k].endIndex <= words[l].endIndex
  }

  /** Tokenizer offsets never decrease along the list unless the first token is empty: an
      empty first token ends at the last kept character (`charIndex[-1]`, line 93). */
  lemma TokenOffsetsAscend(words: seq<Word>)
    requires OffsetsIncrease(words)
    requires |words| == 0 || words[0].text != ""
    ensures OffsetsAscending(words)
  {
  }

  /** A sublist of a list with non-decreasing offsets has non-decreasing offsets. */
  lemma KeptOffsetsAscend(kept: seq<Word>, words: seq<Word>)
    requires IsSubsequence(kept, words) && OffsetsAscending(words)
    ensures OffsetsAscending(kept)
  {
    SubsequencePairwise(kept, words, (a: Word, b: Word) =>
      a.startIndex <= b.startIndex && a.endIndex <= b.endIndex);
  }

  /** Start offsets strictly increase along the list. */
  predicate StartsIncrease(words: seq<Word>) {
    forall k, l :: 0 <= k < l < |words| ==> words[k].startIndex < words[l].startIndex
  }

  /** A token other than an empty first token: its end offset is ordered with the others. */
  predicate EndOrdered(w: Word) {
    w.wordIndex > 0 || w.text != ""
  }

  /** End offsets strictly increase along the list, from every token but an empty first one. */
  predicate EndsIncrease(words: seq<Word>) {
    forall k, l :: 0 <= k < l < |words| && EndOrdered(words[k]) ==> words[k].endIndex < words[l].endIndex
  }

  /** Tokenizer output has increasing starts, and increasing ends from every token but an
      empty first one; so does every sublist of it. */
  lemma KeptOffsetsIncrease(kept: seq<Word>, words: seq<Word>)
    requires IndexedByPosition(words) && OffsetsIncrease(words)
    requires IsSubsequence(kept, words)
    ensures StartsIncrease(kept) && EndsIncrease(kept)
  {
    assert EndsIncrease(words);
    SubsequencePairwise(kept, words, (a: Word, b: Word) => a.startIndex < b.startIndex);
    SubsequencePairwise(kept, words, (a: Word, b: Word) => EndOrdered(a) ==> a.endIndex < b.endIndex);
  }

  /** The exception: `"- a b c"` tokenizes to these words, the first one empty and ending
      at the last kept character. With radius 1 its section ends with the word `b`, before
      the empty token's own end. */
  lemma EmptyFirstTokenOutsideSection(words: seq<Word>)
    requires words == [Word("", 1, 6, 0), Word("a", 2, 2, 1), Word("b", 4, 4, 2), Word("c", 6, 6, 3)]
    ensures FindNearbyWords(words, 0, 4, 1).nearbyEnd == 4 < words[0].endIndex
  {
    assert Window(0, 4, 1) == (0, 2);
    assert WalkForward(words, 1, 2) == 3 by {
      assert WalkForward(words, 3, 2) == 3;
      assert WalkForward(words, 2, 2) == 3;
    }
  }

  /** When word indices ascend and offsets never decrease, the section of a token of a long
      enough document covers the token and every word of the list inside its window. */
  lemma NearbySpan(words: seq<Word>, i: nat, numOfWords: int, r: nat)
    requires i < |words|
    requires Ascending(words) && OffsetsAscending(words)
    requires numOfWords > 2 * r && words[i].wordIndex < numOfWords
    ensures var nb := FindNearbyWords(words, i, numOfWords, r);
      nb.nearbyStart <= words[i].startIndex && words[i].endIndex <= nb.nearbyEnd
    ensures var nb := FindNearbyWords(words, i, numOfWords, r);
      var (searchMin, searchMax) := Window(words[i].wordIndex, numOfWords, r);
      forall k :: 0 <= k < |words| && searchMin <= words[k].wordIndex <= searchMax ==>
        nb.nearbyStart <= words[k].startIndex && words[k].endIndex <= nb.nearbyEnd
  {
    var nb := FindNearbyWords(words, i, numOfWords, r);
    var (searchMin, searchMax) := Window(words[i].wordIndex, numOfWords, r);
    var b := WalkBack(words, i - 1, searchMin);
    var f := WalkForward(words, i + 1, searchMax);
    InWindowIsReached(words, i, numOfWords, r);
    SpanStart(words, i, numOfWords, r, b);
    SpanEnd(words, i, numOfWords, r, f);
    SpanCovers(words, i, b, f, nb.nearbyStart, nb.nearbyEnd, i);
    forall k | 0 <= k < |words| && searchMin <= words[k].wordIndex <= searchMax
      ensures nb.nearbyStart <= words[k].startIndex && words[k].endIndex <= nb.nearbyEnd
    {
      SpanCovers(words, i, b, f, nb.nearbyStart, nb.nearbyEnd, k);
    }
  }

  /** The section starts at the first word walked back to, or at the word itself. */
  lemma SpanStart(words: seq<Word>, i: nat, numOfWords: int, r: nat, b: int)
    requires i < |words|
    requires b == WalkBack(words, i - 1, Window(words[i].wordIndex, numOfWords, r).0)
    ensures FindNearbyWords(words, i, numOfWords, r).nearbyStart ==
      if b + 1 < i then words[b + 1].startIndex else words[i].startIndex
  {
    var nb := FindNearbyWords(words, i, numOfWords, r);
    if b + 1 < i {
      assert nb.nearbyStart == words[b + 1].startIndex;
    } else {
      assert nb.nearbyStart == words[i].startIndex;
    }
  }

  /** The section ends at the last word walked forward to, or at the word itself. */
  lemma SpanEnd(words: seq<Word>, i: nat, numOfWords: int, r: nat, f: int)
    requires i < |words|
    requires f == WalkForward(words, i + 1, Window(words[i].wordIndex, numOfWords, r).1)
    ensures FindNearbyWords(words, i, numOfWords, r).nearbyEnd ==
      if f - 1 > i then words[f - 1].endIndex else words[i].endIndex
  {
    var nb := FindNearbyWords(words, i, numOfWords, r);
    if f - 1 > i {
      assert nb.nearbyEnd == words[f - 1].endIndex;
    } else {
      assert nb.nearbyEnd == words[i].endIndex;
    }
  }

  /** The section of any word covers the start of every word of the list inside its
      window, the word itself included, and the end of each of those words other than an
      empty first token. */
  lemma TokenSpan(words: seq<Word>, i: nat, numOfWords: int, r: nat)
    requires i < |words|
    requires Ascending(words) && StartsIncrease(words) && EndsIncrease(words)
    requires numOfWords > 2 * r && words[i].wordIndex < numOfWords
    ensures var nb := FindNearbyWords(words, i, numOfWords, r);
      nb.nearbyStart <= words[i].startIndex && (EndOrdered(words[i]) ==> words[i].endIndex <= nb.nearbyEnd)
    ensures var nb := FindNearbyWords(words, i, numOfWords, r);
      var (searchMin, searchMax) := Window(words[i].wordIndex, numOfWords, r);
      forall k :: 0 <= k < |words| && searchMin <= words[k].wordIndex <= searchMax ==>
        nb.nearbyStart <= words[k].startIndex && (EndOrdered(words[k]) ==> words[k].endIndex <= nb.nearbyEnd)
  {
    var nb := FindNearbyWords(words, i, numOfWords, r);
    var (searchMin, searchMax) := Window(words[i].wordIndex, numOfWords, r);
    var b := WalkBack(words, i - 1, searchMin);
    var f := WalkForward(words, i + 1, searchMax);
    InWindowIsReached(words, i, numOfWords, r);
    SpanStart(words, i, numOfWords, r, b);
    SpanEnd(words, i, numOfWords, r, f);
    TokenSpanCovers(words, i, b, f, nb.nearbyStart, nb.nearbyEnd, i);
    forall k | 0 <= k < |words| && searchMin <= words[k].wordIndex <= searchMax
      ensures nb.nearbyStart <= words[k].startIndex && (EndOrdered(words[k]) ==> words[k].endIndex <= nb.nearbyEnd)
    {
      TokenSpanCovers(words, i, b, f, nb.nearbyStart, nb.nearbyEnd, k);
    }
  }

  /** The span from the first to the last walked word covers each walked word's start,
      and its end unless it is an empty first token. */
  lemma TokenSpanCovers(words: seq<Word>, i: nat, b: int, f: int, start: nat, end: nat, k: nat)
    requires -1 <= b < i < f <= |words| && StartsIncrease(words) && EndsIncrease(words)
    requires start == (if b + 1 < i then words[b + 1].startIndex else words[i].startIndex)
    requires end == (if f - 1 > i then words[f - 1].endIndex else words[i].endIndex)
    requires b < k < f
    ensures start <= words[k].startIndex
    ensures EndOrdered(words[k]) ==> words[k].endIndex <= end
  {
    if b + 1 < k {
      assert words[b + 1].startIndex < words[k].startIndex;
    }
    if i < k {
      assert words[i].startIndex < words[k].startIndex;
    }
    if EndOrdered(words[k]) {
      if k < f - 1 {
        assert words[k].endIndex < words[f - 1].endIndex;
      }
      if k < i {
        assert words[k].endIndex < words[i].endIndex;
      }
    }
  }

  /** The span from the first to the last walked word covers each walked word. */
  lemma SpanCovers(words: seq<Word>, i: nat, b: int, f: int, start: nat, end: nat, k: nat)
    requires -1 <= b < i < f <= |words| && OffsetsAscending(words)
    requires start == (if b + 1 < i then words[b + 1].startIndex else words[i].startIndex)
    requires end == (if f - 1 > i then words[f - 1].endIndex else words[i].endIndex)
    requires b < k < f
    ensures start <= words[k].startIndex && words[k].endIndex <= end
  {
    if b + 1 < k {
      assert words[b + 1].startIndex <= words[k].startIndex;
    }
    if k < f - 1 {
      assert words[k].endIndex <= words[f - 1].endIndex;
    }
    if k < i {
      assert words[k].startIndex <= words[i].startIndex;
    }
    if i < k {
      assert words[i].endIndex <= words[k].endIndex;
    }
  }

  /** Nothing keeps a token's own text out of its neighbourhood: here the first "a" finds
      the second "a" inside its window. */
  lemma OwnTextCanBeNearby()
    ensures var words := [Word("a", 0, 0, 0), Word("a", 2, 2, 1), Word("b", 4, 4, 2)];
      "a" in FindNearbyWords(words, 0, 3, 1).nearbyWords
  {
    var words := [Word("a", 0, 0, 0), Word("a", 2, 2, 1), Word("b", 4, 4, 2)];
    assert Window(0, 3, 1) == (0, 2);
    assert WalkForward(words, 1, 2) == 3;
    assert words[1].text == "a";
  }
}
