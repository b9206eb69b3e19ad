/** The common-vocabulary filter (lines 137-151) and the vocabulary index `findWordIndex`
    (lines 100-107). */
module Vocabulary {
  import opened Tokenizer
  import opened Seqs

  /** The texts that occur in a token list. */
  function TextSet(words: seq<Word>): set<string> {
    set w | w in words :: w.text
  }

  /** The tokens of `words` whose text is in `keep`, in their original order. */
  function KeepTexts(words: seq<Word>, keep: set<string>): (r: seq<Word>)
    ensures IsSubsequence(r, words)
    ensures forall w :: w in r <==> w in words && w.text in keep
    decreases |words|
  {
    if |words| == 0 then []
    else
      var rest := KeepTexts(words[1..], keep);
      assert forall w :: w in words <==> w == words[0] || w in words[1..];
      if words[0].text in keep then [words[0]] + rest else rest
  }

  /** Lines 137-151: drop from each list every token whose text does not occur in the
      other document. Each list keeps its order and its tokens keep their `wordIndex`. */
  function KeepShared(words1: seq<Word>, words2: seq<Word>): (r: (seq<Word>, seq<Word>))
    ensures IsSubsequence(r.0, words1) && IsSubsequence(r.1, words2)
    ensures forall w :: w in r.0 <==> w in words1 && exists v :: v in words2 && v.text == w.text
    ensures forall w :: w in r.1 <==> w in words2 && exists v :: v in words1 && v.text == w.text
  {
    var common := TextSet(words1) * TextSet(words2);
    (KeepTexts(words1, common), KeepTexts(words2, common))
  }

  /** Token `wordIndex` values strictly increase along the list. */
  predicate Ascending(words: seq<Word>) {
    forall k, l :: 0 <= k < l < |words| ==> words[k].wordIndex < words[l].wordIndex
  }

  /** A sublist of a tokenizer result keeps strictly increasing `wordIndex` values,
      all below the tokenizer's word count. */
  lemma {:induction false} SharedStaysAscending(words: seq<Word>, kept: seq<Word>)
    requires IndexedByPosition(words)
    requires IsSubsequence(kept, words)
    ensures Ascending(kept)
    ensures forall k :: 0 <= k < |kept| ==> kept[k].wordIndex < |words|
  {
    SubsequencePairwise(kept, words, (a: Word, b: Word) => a.wordIndex < b.wordIndex);
    SubsequenceMembers(kept, words);
    forall k | 0 <= k < |kept|
      ensures kept[k].wordIndex < |words|
    {
      assert kept[k] in words;
    }
  }

  predicate StrictlyIncreasing(xs: seq<nat>) {
    forall i, j :: 0 <= i < j < |xs| ==> xs[i] < xs[j]
  }

  lemma AppendIncreasing(xs: seq<nat>, n: nat)
    requires StrictlyIncreasing(xs)
    requires forall i :: 0 <= i < |xs| ==> xs[i] < n
    ensures StrictlyIncreasing(xs + [n])
  {
  }

  /** Reference: the ascending list of the positions in `words` whose text is `t`. */
  function Positions(words: seq<Word>, t: string): (ps: seq<nat>)
    ensures StrictlyIncreasing(ps)
    ensures forall k :: 0 <= k < |ps| ==> ps[k] < |words|
    ensures forall i :: i in ps <==> 0 <= i < |words| && words[i].text == t
    decreases |words|
  {
    if |words| == 0 then []
    else
      var n := |words| - 1;
      var prev := Positions(words[..n], t);
      AppendIncreasing(prev, n);
      assert forall i :: 0 <= i < n ==> words[..n][i] == words[i];
      prev + (if words[n].text == t then [n] else [])
  }

  lemma TextSetAppend(words: seq<Word>)
    requires |words| > 0
    ensures TextSet(words) == TextSet(words[..|words| - 1]) + {words[|words| - 1].text}
  {
    var n := |words| - 1;
    assert forall w :: w in words <==> w in words[..n] || w == words[n];
  }

  /** A text that does not occur has no positions. */
  lemma PositionsOfAbsent(words: seq<Word>, t: string)
    requires t !in TextSet(words)
    ensures Positions(words, t) == []
  {
  }

  /** Lines 100-107: map each text to the positions in `words` that carry it. Keys are
      exactly the texts present, and each list is `Positions`: the strictly ascending
      list of all positions holding that text. */
  function FindWordIndex(words: seq<Word>): (m: map<string, seq<nat>>)
    ensures m.Keys == TextSet(words)
    ensures forall t :: t in m ==> m[t] == Positions(words, t)
    decreases |words|
  {
    if |words| == 0 then map[]
    else
      var n := |words| - 1;
      var prev := FindWordIndex(words[..n]);
      var t := words[n].text;
      TextSetAppend(words);
      if t !in prev then PositionsOfAbsent(words[..n], t); prev[t := [n]]
      else prev[t := prev[t] + [n]]
  }
}
