/** The tokenizer `extractWords`: strip and lower-case the text, keep letters, digits and
    spaces while remembering where each kept character was, and cut the kept text at
    every single space. */
module Tokenizer {
  import opened Text

  /** A token: its text, the indices of its first and last characters in the stripped,
      lower-cased text, and its position among all tokens of its document. */
  datatype Word = Word(text: string, startIndex: nat, endIndex: nat, wordIndex: nat)

  function Texts(words: seq<Word>): (ts: seq<string>)
    ensures |ts| == |words|
    ensures forall k :: 0 <= k < |words| ==> ts[k] == words[k].text
  {
    seq(|words|, k requires 0 <= k < |words| => words[k].text)
  }

  /** The characters the filter keeps. */
  predicate Kept(c: char) {
    IsAlnum(c) || c == ' '
  }

  /** The filtered text and `charIndex`: the kept characters of `s` in order, and for
      each of them its index in `s`. An index is listed exactly when its character is kept. */
  function FilterChars(s: string): (r: (string, seq<nat>))
    ensures |r.0| == |r.1|
    ensures forall k :: 0 <= k < |r.1| ==> r.1[k] < |s| && s[r.1[k]] == r.0[k]
    ensures forall k, l :: 0 <= k < l < |r.1| ==> r.1[k] < r.1[l]
    ensures forall i :: 0 <= i < |s| ==> (Kept(s[i]) <==> i in r.1)
  {
    if |s| == 0 then ("", [])
    else
      var prev := FilterChars(s[..|s| - 1]);
      var c := s[|s| - 1];
      if Kept(c) then (prev.0 + [c], prev.1 + [|s| - 1]) else prev
  }

  /** The text all offsets refer to: stripped, then lower-cased. */
  function Normalize(text: string): string {
    Lower(Strip(text))
  }

  /** The normalized text has the stripped text's length and, position by position, its
      alphanumerics as lower-case letters or digits and its spaces in place. */
  lemma NormalizeKeepsKinds(text: string)
    ensures |Normalize(text)| == |Strip(text)|
    ensures forall i :: 0 <= i < |Normalize(text)| ==>
      && !IsUpper(Normalize(text)[i])
      && (IsAlnum(Strip(text)[i]) <==> IsWordChar(Normalize(text)[i]))
      && (Strip(text)[i] == ' ' <==> Normalize(text)[i] == ' ')
  {
  }

  /** The tokenizer indexes `charIndex` within range: the filtered text is not empty and
      does not end with a space. Otherwise the last token's start or end is out of range. */
  predicate Tokenizable(text: string) {
    var ft := FilterChars(Normalize(text)).0;
    |ft| > 0 && ft[|ft| - 1] != ' '
  }

  /** Python's `xs[k]`, where a negative `k` counts from the end. */
  function PyIndex(xs: seq<nat>, k: int): nat
    requires -|xs| <= k < |xs|
  {
    if k < 0 then xs[|xs| + k] else xs[k]
  }

  /** Python indexing is indexing modulo the length. */
  lemma PyIndexIsModular(xs: seq<nat>, k: int)
    requires -|xs| <= k < |xs|
    ensures PyIndex(xs, k) == xs[(k + |xs|) % |xs|]
  {
  }

  /** What the character filter hands to the splitting loop. */
  predicate Filtering(s: string, ft: string, ci: seq<nat>) {
    && |ft| == |ci|
    && (forall k :: 0 <= k < |ci| ==> ci[k] < |s| && s[ci[k]] == ft[k])
    && (forall k, l :: 0 <= k < l < |ci| ==> ci[k] < ci[l])
    && (forall k :: 0 <= k < |ft| ==> IsWordChar(ft[k]) || ft[k] == ' ')
    && |ft| > 0 && ft[|ft| - 1] != ' '
  }

  /** Every token's `wordIndex` is its position in the list. */
  predicate IndexedByPosition(words: seq<Word>) {
    forall k :: 0 <= k < |words| ==> words[k].wordIndex == k
  }

  /** Token texts hold only lower-case letters and digits. */
  predicate LowercaseAlnum(words: seq<Word>) {
    forall k, j :: 0 <= k < |words| && 0 <= j < |words[k].text| ==> IsWordChar(words[k].text[j])
  }

  /** Offsets lie inside `s`; those of a non-empty token are ordered and point at
      the token's first and last characters. */
  predicate OffsetsPointAt(s: string, words: seq<Word>) {
    forall k :: 0 <= k < |words| ==>
      && words[k].startIndex < |s|
      && words[k].endIndex < |s|
      && (|words[k].text| > 0 ==>
            && words[k].startIndex <= words[k].endIndex
            && s[words[k].startIndex] == words[k].text[0]
            && s[words[k].endIndex] == words[k].text[|words[k].text| - 1])
  }

  /** Start offsets strictly increase; a non-empty token ends before any later token
      starts; end offsets strictly increase, except from an empty first token. */
  predicate OffsetsIncrease(words: seq<Word>) {
    && (forall k, l :: 0 <= k < l < |words| ==> words[k].startIndex < words[l].startIndex)
    && (forall k, l :: 0 <= k < l < |words| && words[k].text != "" ==>
          words[k].endIndex < words[l].startIndex)
    && (forall k, l :: 0 <= k < l < |words| && (k > 0 || words[k].text != "") ==>
          words[k].endIndex < words[l].endIndex)
  }

  /** An empty token after the first sits between two adjacent spaces and ends before it
      starts; an empty first token (the filtered text starts with a space) reads
      `charIndex[-1]` and so ends at the last kept character. */
  predicate EmptyTokenOffsets(ci: seq<nat>, words: seq<Word>) {
    && (forall k :: 0 < k < |words| && words[k].text == "" ==> words[k].endIndex < words[k].startIndex)
    && (|words| > 0 && words[0].text == "" && |ci| > 0 ==> words[0].endIndex == ci[|ci| - 1])
  }

  /** The position in the filtered text where token `k` begins: every earlier token and
      the space after it come first. */
  function TokenStart(words: seq<Word>, k: nat): nat
    requires k <= |words|
  {
    if k == 0 then 0 else TokenStart(words, k - 1) + |words[k - 1].text| + 1
  }

  lemma {:induction false} TokenStartAppend(words: seq<Word>, w: Word, k: nat)
    requires k <= |words|
    ensures TokenStart(words + [w], k) == TokenStart(words, k)
    decreases k
  {
    if k > 0 {
      TokenStartAppend(words, w, k - 1);
      assert (words + [w])[k - 1] == words[k - 1];
    }
  }

  /** Token `w` is the filtered text from position `p` on, and its offsets are the
      recorded indices (`charIndex`) of its own first and last characters there. */
  predicate PlacedAt(ft: string, ci: seq<nat>, w: Word, p: nat) {
    && |ft| == |ci| && p < |ft| && p + |w.text| <= |ft|
    && ft[p..p + |w.text|] == w.text
    && w.startIndex == ci[p]
    && (|w.text| > 0 ==> w.endIndex == ci[p + |w.text| - 1])
  }

  /** Token `k` of `words` sits at its own position in the filtered text. */
  predicate AnchoredAt(ft: string, ci: seq<nat>, words: seq<Word>, k: nat)
    requires k < |words|
  {
    PlacedAt(ft, ci, words[k], TokenStart(words, k))
  }

  /** Every token sits at its own position in the filtered text. */
  predicate Anchored(ft: string, ci: seq<nat>, words: seq<Word>) {
    forall k :: 0 <= k < |words| ==> AnchoredAt(ft, ci, words, k)
  }

  predicate TokenProperties(s: string, ci: seq<nat>, words: seq<Word>) {
    && IndexedByPosition(words)
    && LowercaseAlnum(words)
    && OffsetsPointAt(s, words)
    && OffsetsIncrease(words)
    && EmptyTokenOffsets(ci, words)
  }

  /** The state of the splitting loop before it looks at `ft[i]`: `words` holds the
      tokens before position `start`, and `ft[start..i]` has no space. */
  predicate Scanned(s: string, ft: string, ci: seq<nat>, i: nat, start: nat, words: seq<Word>)
    requires Filtering(s, ft, ci)
  {
    && start <= i <= |ft|
    && start < |ft|
    && (forall j :: start <= j < i ==> ft[j] != ' ')
    && (start == 0 ==> |words| == 0)
    && (start > 0 ==> |words| > 0 && ft[start - 1] == ' ' && Join(Texts(words)) == ft[..start - 1])
    && TokenProperties(s, ci, words)
    && (forall k :: 0 <= k < |words| ==> words[k].startIndex < ci[start])
    && (start > 0 ==> forall k :: 0 <= k < |words| && (k > 0 || words[k].text != "") ==>
          words[k].endIndex < ci[start - 1])
  }

  /** The token cut at a space at `i` (or at the end, `i == |ft|`): the text from `start`
      to `i`, offsets `charIndex[start]` and `charIndex[i-1]`. */
  function Cut(ft: string, ci: seq<nat>, start: nat, i: nat, n: nat): Word
    requires |ft| == |ci| && start <= i <= |ft| && start < |ft|
  {
    Word(ft[start..i], ci[start], PyIndex(ci, i - 1), n)
  }

  /** A cut token ends at the index of the character before the cut; a cut at position 0
      takes Python's `charIndex[-1]`, the index of the last kept character. */
  lemma CutOffsets(ft: string, ci: seq<nat>, start: nat, i: nat, n: nat)
    requires |ft| == |ci| && start <= i <= |ft| && start < |ft|
    ensures var w := Cut(ft, ci, start, i, n);
      && w.text == ft[start..i] && w.wordIndex == n
      && w.startIndex == ci[start]
      && (0 < i ==> w.endIndex == ci[i - 1])
      && (i == 0 ==> w.endIndex == ci[|ci| - 1])
  {
  }

  lemma EmitJoins(s: string, ft: string, ci: seq<nat>, i: nat, start: nat, words: seq<Word>)
    requires Filtering(s, ft, ci)
    requires Scanned(s, ft, ci, i, start, words)
    requires i == |ft| || ft[i] == ' '
    ensures Join(Texts(words + [Cut(ft, ci, start, i, |words|)])) == ft[..i]
  {
    var w := Cut(ft, ci, start, i, |words|);
    var words' := words + [w];
    assert Texts(words') == Texts(words) + [w.text];
    if start > 0 {
      assert ft[..i] == ft[..start - 1] + " " + ft[start..i];
      assert Texts(words')[..|words'| - 1] == Texts(words);
    } else {
      assert Texts(words') == [ft[..i]];
    }
  }

  lemma EmitText(s: string, ft: string, ci: seq<nat>, i: nat, start: nat, words: seq<Word>)
    requires Filtering(s, ft, ci)
    requires Scanned(s, ft, ci, i, start, words)
    requires i == |ft| || ft[i] == ' '
    ensures var words' := words + [Cut(ft, ci, start, i, |words|)];
      IndexedByPosition(words') && LowercaseAlnum(words')
  {
    var words' := words + [Cut(ft, ci, start, i, |words|)];
    forall k, j | 0 <= k < |words'| && 0 <= j < |words'[k].text|
      ensures IsWordChar(words'[k].text[j])
    {
      if k == |words| {
        assert words'[k].text[j] == ft[start + j];
      } else {
        assert words'[k] == words[k];
      }
    }
  }

  lemma EmitPointAt(s: string, ft: string, ci: seq<nat>, i: nat, start: nat, words: seq<Word>)
    requires Filtering(s, ft, ci)
    requires Scanned(s, ft, ci, i, start, words)
    requires i == |ft| || ft[i] == ' '
    ensures OffsetsPointAt(s, words + [Cut(ft, ci, start, i, |words|)])
  {
    var w := Cut(ft, ci, start, i, |words|);
    if start < i {
      assert w.text[0] == ft[start] && w.text[|w.text| - 1] == ft[i - 1];
    }
  }

  lemma EmitIncrease(s: string, ft: string, ci: seq<nat>, i: nat, start: nat, words: seq<Word>)
    requires Filtering(s, ft, ci)
    requires Scanned(s, ft, ci, i, start, words)
    requires i == |ft| || ft[i] == ' '
    ensures OffsetsIncrease(words + [Cut(ft, ci, start, i, |words|)])
  {
    var w := Cut(ft, ci, start, i, |words|);
    assert forall k :: 0 <= k < |words| ==> words[k].startIndex < w.startIndex;
    forall k | 0 <= k < |words| && (k > 0 || words[k].text != "")
      ensures words[k].endIndex < w.startIndex && words[k].endIndex < w.endIndex
    {
      assert start > 0;
      assert ci[start - 1] < ci[start];
      assert ci[start - 1] <= ci[i - 1];
    }
    AppendIncrease(words, w);
  }

  /** Appending a token that starts after every token so far, and ends after every
      token's end that is ordered, keeps the offsets increasing. */
  lemma AppendIncrease(words: seq<Word>, w: Word)
    requires OffsetsIncrease(words)
    requires forall k :: 0 <= k < |words| ==> words[k].startIndex < w.startIndex
    requires forall k :: 0 <= k < |words| && (k > 0 || words[k].text != "") ==>
      words[k].endIndex < w.startIndex && words[k].endIndex < w.endIndex
    ensures OffsetsIncrease(words + [w])
  {
    var words' := words + [w];
    assert forall k :: 0 <= k < |words| ==> words'[k] == words[k];
    assert words'[|words|] == w;
  }

  lemma EmitEmpty(s: string, ft: string, ci: seq<nat>, i: nat, start: nat, words: seq<Word>)
    requires Filtering(s, ft, ci)
    requires Scanned(s, ft, ci, i, start, words)
    requires i == |ft| || ft[i] == ' '
    ensures EmptyTokenOffsets(ci, words + [Cut(ft, ci, start, i, |words|)])
  {
  }

  lemma EmitOffsets(s: string, ft: string, ci: seq<nat>, i: nat, start: nat, words: seq<Word>)
    requires Filtering(s, ft, ci)
    requires Scanned(s, ft, ci, i, start, words)
    requires i == |ft| || ft[i] == ' '
    ensures var words' := words + [Cut(ft, ci, start, i, |words|)];
      && OffsetsPointAt(s, words')
      && OffsetsIncrease(words')
      && EmptyTokenOffsets(ci, words')
  {
    EmitPointAt(s, ft, ci, i, start, words);
    EmitIncrease(s, ft, ci, i, start, words);
    EmitEmpty(s, ft, ci, i, start, words);
  }

  lemma EmitScanned(s: string, ft: string, ci: seq<nat>, i: nat, start: nat, words: seq<Word>)
    requires Filtering(s, ft, ci)
    requires Scanned(s, ft, ci, i, start, words)
    requires i < |ft| && ft[i] == ' '
    ensures Scanned(s, ft, ci, i + 1, i + 1, words + [Cut(ft, ci, start, i, |words|)])
  {
    assert i + 1 < |ft|;
    EmitJoins(s, ft, ci, i, start, words);
    EmitText(s, ft, ci, i, start, words);
    EmitOffsets(s, ft, ci, i, start, words);
  }

  /** What the splitting loop delivers for the filtered text `ft`. */
  predicate Tokenization(s: string, ft: string, ci: seq<nat>, words: seq<Word>) {
    && |words| > 0
    && Join(Texts(words)) == ft
    && TokenProperties(s, ci, words)
  }

  lemma EmitLast(s: string, ft: string, ci: seq<nat>, i: nat, start: nat, words: seq<Word>)
    requires Filtering(s, ft, ci)
    requires Scanned(s, ft, ci, i, start, words)
    requires i == |ft|
    ensures Tokenization(s, ft, ci, words + [Cut(ft, ci, start, i, |words|)])
  {
    EmitJoins(s, ft, ci, i, start, words);
    EmitText(s, ft, ci, i, start, words);
    EmitOffsets(s, ft, ci, i, start, words);
  }

  lemma AdvanceScanned(s: string, ft: string, ci: seq<nat>, i: nat, start: nat, words: seq<Word>)
    requires Filtering(s, ft, ci)
    requires Scanned(s, ft, ci, i, start, words)
    requires i < |ft| && ft[i] != ' '
    ensures Scanned(s, ft, ci, i + 1, start, words)
  {
  }

  /** Lines 88-95: walk the filtered text; at every space emit the token since the last
      cut, and emit the remainder at the end. */
  function SplitLoop(ft: string, ci: seq<nat>, i: nat, start: nat, words: seq<Word>): (r: seq<Word>)
    requires LoopBounds(ft, ci, i, start)
    ensures |r| > |words|
    decreases |ft| - i
  {
    if i == |ft| then
      words + [Cut(ft, ci, start, i, |words|)]
    else if ft[i] == ' ' then
      SplitLoop(ft, ci, i + 1, i + 1, words + [Cut(ft, ci, start, i, |words|)])
    else
      SplitLoop(ft, ci, i + 1, start, words)
  }

  /** The loop keeps its invariant `Scanned` at every step, so what it delivers joins back
      to the filtered text and has the token properties. */
  lemma {:induction false} SplitLoopTokenizes(s: string, ft: string, ci: seq<nat>, i: nat, start: nat, words: seq<Word>)
    requires Filtering(s, ft, ci)
    requires Scanned(s, ft, ci, i, start, words)
    ensures Tokenization(s, ft, ci, SplitLoop(ft, ci, i, start, words))
    decreases |ft| - i, 1
  {
    if i == |ft| {
      EmitLast(s, ft, ci, i, start, words);
      LastStep(s, ft, ci, i, start, words);
    } else if ft[i] == ' ' {
      EmitScanned(s, ft, ci, i, start, words);
      SpaceTokenizes(s, ft, ci, i, start, words);
    } else {
      AdvanceScanned(s, ft, ci, i, start, words);
      CharTokenizes(s, ft, ci, i, start, words);
    }
  }

  /** At a space the loop emits a token and goes on from the next character. */
  lemma {:induction false} SpaceTokenizes(s: string, ft: string, ci: seq<nat>, i: nat, start: nat, words: seq<Word>)
    requires Filtering(s, ft, ci)
    requires LoopBounds(ft, ci, i, start) && i < |ft| && ft[i] == ' '
    requires Scanned(s, ft, ci, i + 1, i + 1, words + [Cut(ft, ci, start, i, |words|)])
    ensures Tokenization(s, ft, ci, SplitLoop(ft, ci, i, start, words))
    decreases |ft| - i, 0
  {
    SplitLoopTokenizes(s, ft, ci, i + 1, i + 1, words + [Cut(ft, ci, start, i, |words|)]);
    SpaceStep(s, ft, ci, i, start, words);
  }

  /** At any other character the loop only moves on. */
  lemma {:induction false} CharTokenizes(s: string, ft: string, ci: seq<nat>, i: nat, start: nat, words: seq<Word>)
    requires Filtering(s, ft, ci)
    requires LoopBounds(ft, ci, i, start) && i < |ft| && ft[i] != ' '
    requires Scanned(s, ft, ci, i + 1, start, words)
    ensures Tokenization(s, ft, ci, SplitLoop(ft, ci, i, start, words))
    decreases |ft| - i, 0
  {
    SplitLoopTokenizes(s, ft, ci, i + 1, start, words);
    CharStep(s, ft, ci, i, start, words);
  }

  /** A cut keeps every token at its own position, and the next token starts just past
      the cut. */
  lemma CutAnchored(ft: string, ci: seq<nat>, i: nat, start: nat, words: seq<Word>)
    requires |ft| == |ci| && start <= i <= |ft| && start < |ft|
    requires TokenStart(words, |words|) == start && Anchored(ft, ci, words)
    ensures var words' := words + [Cut(ft, ci, start, i, |words|)];
      Anchored(ft, ci, words') && TokenStart(words', |words'|) == i + 1
  {
    var w := Cut(ft, ci, start, i, |words|);
    var words' := words + [w];
    forall k | 0 <= k < |words'|
      ensures AnchoredAt(ft, ci, words', k)
    {
      if k < |words| {
        PlacedKept(ft, ci, words, w, k);
      } else {
        TokenStartAppend(words, w, k);
        PlacedCut(ft, ci, i, start, |words|);
      }
    }
    TokenStartAppend(words, w, |words|);
  }

  lemma PlacedKept(ft: string, ci: seq<nat>, words: seq<Word>, w: Word, k: nat)
    requires k < |words| && Anchored(ft, ci, words)
    ensures AnchoredAt(ft, ci, words + [w], k)
  {
    TokenStartAppend(words, w, k);
    assert (words + [w])[k] == words[k];
    assert AnchoredAt(ft, ci, words, k);
  }

  lemma PlacedCut(ft: string, ci: seq<nat>, i: nat, start: nat, n: nat)
    requires |ft| == |ci| && start <= i <= |ft| && start < |ft|
    ensures PlacedAt(ft, ci, Cut(ft, ci, start, i, n), start)
  {
    CutOffsets(ft, ci, start, i, n);
  }

  /** Lines 88-95 place every token at its own position: each token is the filtered
      text there, and its offsets are `charIndex` at its first and last characters. */
  lemma {:induction false} SplitLoopAnchored(ft: string, ci: seq<nat>, i: nat, start: nat, words: seq<Word>)
    requires LoopBounds(ft, ci, i, start)
    requires TokenStart(words, |words|) == start && Anchored(ft, ci, words)
    ensures Anchored(ft, ci, SplitLoop(ft, ci, i, start, words))
    decreases |ft| - i
  {
    var r := SplitLoop(ft, ci, i, start, words);
    if i == |ft| {
      CutAnchored(ft, ci, i, start, words);
      assert r == words + [Cut(ft, ci, start, i, |words|)];
    } else if ft[i] == ' ' {
      var words' := words + [Cut(ft, ci, start, i, |words|)];
      CutAnchored(ft, ci, i, start, words);
      SpaceLoop(ft, ci, i, start, words);
      SplitLoopAnchored(ft, ci, i + 1, i + 1, words');
    } else {
      CharLoop(ft, ci, i, start, words);
      SplitLoopAnchored(ft, ci, i + 1, start, words);
    }
  }

  /** At a space the loop goes on after cutting a token. */
  lemma SpaceLoop(ft: string, ci: seq<nat>, i: nat, start: nat, words: seq<Word>)
    requires LoopBounds(ft, ci, i, start) && i < |ft| && ft[i] == ' '
    ensures LoopBounds(ft, ci, i + 1, i + 1)
    ensures SplitLoop(ft, ci, i, start, words) ==
      SplitLoop(ft, ci, i + 1, i + 1, words + [Cut(ft, ci, start, i, |words|)])
  {
  }

  /** At any other character the loop goes on with the same tokens. */
  lemma CharLoop(ft: string, ci: seq<nat>, i: nat, start: nat, words: seq<Word>)
    requires LoopBounds(ft, ci, i, start) && i < |ft| && ft[i] != ' '
    ensures LoopBounds(ft, ci, i + 1, start)
    ensures SplitLoop(ft, ci, i, start, words) == SplitLoop(ft, ci, i + 1, start, words)
  {
  }

  /** The arguments the splitting loop accepts. */
  predicate LoopBounds(ft: string, ci: seq<nat>, i: nat, start: nat) {
    |ft| == |ci| && start <= i <= |ft| && start < |ft| && ft[|ft| - 1] != ' '
  }

  lemma LastStep(s: string, ft: string, ci: seq<nat>, i: nat, start: nat, words: seq<Word>)
    requires LoopBounds(ft, ci, i, start) && i == |ft|
    requires Tokenization(s, ft, ci, words + [Cut(ft, ci, start, i, |words|)])
    ensures Tokenization(s, ft, ci, SplitLoop(ft, ci, i, start, words))
  {
  }

  lemma SpaceStep(s: string, ft: string, ci: seq<nat>, i: nat, start: nat, words: seq<Word>)
    requires LoopBounds(ft, ci, i, start) && i < |ft| && ft[i] == ' '
    requires Tokenization(s, ft, ci, SplitLoop(ft, ci, i + 1, i + 1, words + [Cut(ft, ci, start, i, |words|)]))
    ensures Tokenization(s, ft, ci, SplitLoop(ft, ci, i, start, words))
  {
  }

  lemma CharStep(s: string, ft: string, ci: seq<nat>, i: nat, start: nat, words: seq<Word>)
    requires LoopBounds(ft, ci, i, start) && i < |ft| && ft[i] != ' '
    requires Tokenization(s, ft, ci, SplitLoop(ft, ci, i + 1, start, words))
    ensures Tokenization(s, ft, ci, SplitLoop(ft, ci, i, start, words))
  {
  }

  lemma FilteringOfTokenizable(text: string)
    requires Tokenizable(text)
    ensures var f := FilterChars(Normalize(text)); Filtering(Normalize(text), f.0, f.1)
  {
    var s := Normalize(text);
    var f := FilterChars(s);
    var ft, ci := f.0, f.1;
    assert |ft| > 0 && ft[|ft| - 1] != ' ';
    KeptAreWordChars(Strip(text), s, ft, ci);
    assert Filtering(s, ft, ci);
  }

  /** Every kept character of a lower-cased text is a lower-case letter, a digit or a
      space. */
  lemma KeptAreWordChars(stripped: string, s: string, ft: string, ci: seq<nat>)
    requires s == Lower(stripped)
    requires |ft| == |ci|
    requires forall k :: 0 <= k < |ci| ==> ci[k] < |s| && s[ci[k]] == ft[k]
    requires forall i :: 0 <= i < |s| ==> (Kept(s[i]) <==> i in ci)
    ensures forall k :: 0 <= k < |ft| ==> IsWordChar(ft[k]) || ft[k] == ' '
  {
    forall k | 0 <= k < |ft|
      ensures IsWordChar(ft[k]) || ft[k] == ' '
    {
      var j := ci[k];
      assert j in ci;
      KeptLowered(stripped[j], s[j]);
    }
  }

  /** A kept lower-cased character is a lower-case letter, a digit or a space. */
  lemma KeptLowered(c: char, d: char)
    requires d == LowerChar(c) && Kept(d)
    ensures IsWordChar(d) || d == ' '
  {
  }

  /** `extractWords` (lines 75-97) on a text it does not crash on. */
  function ExtractWords(text: string): (r: seq<Word>)
    requires Tokenizable(text)
    ensures |r| > 0
    ensures Join(Texts(r)) == FilterChars(Normalize(text)).0
    ensures IndexedByPosition(r)
    ensures LowercaseAlnum(r)
    ensures OffsetsPointAt(Normalize(text), r)
    ensures OffsetsIncrease(r)
    ensures EmptyTokenOffsets(FilterChars(Normalize(text)).1, r)
    ensures var f := FilterChars(Normalize(text)); Anchored(f.0, f.1, r)
  {
    var s := Normalize(text);
    var f := FilterChars(s);
    FilteringOfTokenizable(text);
    SplitLoopTokenizes(s, f.0, f.1, 0, 0, []);
    SplitLoopAnchored(f.0, f.1, 0, 0, []);
    SplitLoop(f.0, f.1, 0, 0, [])
  }

  /** The token texts are the pieces of `filteredText.split(" ")`: lines 88-95 cut the
      filtered text at every single space. */
  lemma ExtractWordsIsSplit(text: string)
    requires Tokenizable(text)
    ensures Texts(ExtractWords(text)) == Split(FilterChars(Normalize(text)).0)
  {
    var words := ExtractWords(text);
    var ts := Texts(words);
    forall p | p in ts
      ensures ' ' !in p
    {
      var k :| 0 <= k < |ts| && ts[k] == p;
    }
    SplitJoin(ts);
  }

  /** The first token is empty exactly when the filtered text starts with a space (a
      character the filter dropped was followed by a space). */
  lemma FirstTokenEmpty(text: string)
    requires Tokenizable(text)
    ensures ExtractWords(text)[0].text == "" <==> FilterChars(Normalize(text)).0[0] == ' '
  {
    var words := ExtractWords(text);
    var ts := Texts(words);
    JoinStartsWithFirst(ts);
    if |ts| == 1 {
      assert Join(ts) == ts[0];
    }
    if |ts[0]| > 0 {
      assert IsWordChar(words[0].text[0]);
    }
  }

  /** The tokenizer accepts a text exactly when its normalized form has an alphanumeric
      character with no space after it: the last character the filter keeps must not be a
      space (line 95). */
  lemma TokenizableIff(text: string)
    ensures Tokenizable(text) <==> EndsWithAlnum(Normalize(text))
  {
    FilterEndsAlnum(Normalize(text));
  }

  /** Some alphanumeric character of `n` has no space after it. */
  predicate EndsWithAlnum(n: string) {
    exists j :: 0 <= j < |n| && IsAlnum(n[j]) && forall k :: j < k < |n| ==> n[k] != ' '
  }

  /** The filtered text is non-empty and does not end in a space exactly when some
      alphanumeric character has no space after it. */
  lemma FilterEndsAlnum(n: string)
    ensures var ft := FilterChars(n).0;
      |ft| > 0 && ft[|ft| - 1] != ' ' <==> EndsWithAlnum(n)
  {
    var f := FilterChars(n);
    if |f.0| > 0 && f.0[|f.0| - 1] != ' ' {
      FilterEndsInAlnum(n, f.0, f.1);
    }
    if EndsWithAlnum(n) {
      AlnumEndsFilter(n, f.0, f.1);
    }
  }

  lemma FilterEndsInAlnum(n: string, ft: string, ci: seq<nat>)
    requires (ft, ci) == FilterChars(n)
    requires |ft| > 0 && ft[|ft| - 1] != ' '
    ensures EndsWithAlnum(n)
  {
    assert Kept(n[ci[|ci| - 1]]);
    TokenizableHasLastAlnum(n, ft, ci);
  }

  lemma AlnumEndsFilter(n: string, ft: string, ci: seq<nat>)
    requires (ft, ci) == FilterChars(n)
    requires EndsWithAlnum(n)
    ensures |ft| > 0 && ft[|ft| - 1] != ' '
  {
    var j :| 0 <= j < |n| && IsAlnum(n[j]) && forall k :: j < k < |n| ==> n[k] != ' ';
    assert j in ci;
    LastAlnumTokenizable(n, ft, ci, j);
  }

  lemma TokenizableHasLastAlnum(n: string, ft: string, ci: seq<nat>)
    requires |ft| == |ci| > 0 && IsAlnum(ft[|ft| - 1])
    requires forall k :: 0 <= k < |ci| ==> ci[k] < |n| && n[ci[k]] == ft[k]
    requires forall a, b :: 0 <= a < b < |ci| ==> ci[a] < ci[b]
    requires forall i :: 0 <= i < |n| && n[i] == ' ' ==> i in ci
    ensures EndsWithAlnum(n)
  {
    var m := ci[|ci| - 1];
    assert n[m] == ft[|ft| - 1] && IsAlnum(n[m]);
    forall k | m < k < |n|
      ensures n[k] != ' '
    {
      if n[k] == ' ' {
        AtMostLast(ci, k);
      }
    }
  }

  lemma LastAlnumTokenizable(n: string, ft: string, ci: seq<nat>, j: nat)
    requires |ft| == |ci|
    requires forall k :: 0 <= k < |ci| ==> ci[k] < |n| && n[ci[k]] == ft[k]
    requires forall a, b :: 0 <= a < b < |ci| ==> ci[a] < ci[b]
    requires j < |n| && j in ci && IsAlnum(n[j]) && forall k :: j < k < |n| ==> n[k] != ' '
    ensures |ft| > 0 && ft[|ft| - 1] != ' '
  {
    AtMostLast(ci, j);
    assert ft[|ft| - 1] == n[ci[|ci| - 1]];
  }

  /** A member of a strictly increasing list is at most its last element. */
  lemma AtMostLast(ci: seq<nat>, k: nat)
    requires k in ci
    requires forall a, b :: 0 <= a < b < |ci| ==> ci[a] < ci[b]
    ensures k <= ci[|ci| - 1]
  {
    var l :| 0 <= l < |ci| && ci[l] == k;
    assert l < |ci| - 1 ==> ci[l] < ci[|ci| - 1];
  }

  /** The filter on one more character of `t`: it is appended, with its index, exactly
      when it is kept (lines 81-85). */
  lemma FilterPrefix(t: string, k: nat)
    requires k < |t|
    ensures FilterChars(t[..k + 1]) ==
      if Kept(t[k]) then (FilterChars(t[..k]).0 + [t[k]], FilterChars(t[..k]).1 + [k])
      else FilterChars(t[..k])
  {
    assert t[..k + 1][..k] == t[..k];
  }

  /** The filter on a prefix of a text whose first character is dropped and whose other
      characters are all kept: everything but the first character, with its index. */
  lemma {:induction false} FilterDropsFirst(t: string, k: nat)
    requires 0 < k <= |t| && !Kept(t[0])
    requires forall j :: 0 < j < |t| ==> Kept(t[j])
    ensures FilterChars(t[..k]) == (t[1..k], seq(k - 1, j => j + 1))
    decreases k
  {
    FilterPrefix(t, k - 1);
    if k == 1 {
      assert t[..0] == [];
      assert FilterChars(t[..0]) == ("", []);
      assert t[1..k] == "" && seq(k - 1, j => j + 1) == [];
    } else {
      FilterDropsFirst(t, k - 1);
      var p := t[1..k - 1];
      var q := seq(k - 2, j => j + 1);
      assert FilterChars(t[..k]) == (p + [t[k - 1]], q + [k - 1]);
      SliceSnoc(t, 1, k);
      SuccessorsSnoc(k - 1);
    }
  }

  lemma SliceSnoc(t: string, i: nat, k: nat)
    requires i < k <= |t|
    ensures t[i..k - 1] + [t[k - 1]] == t[i..k]
  {
  }

  lemma SuccessorsSnoc(n: nat)
    requires n > 0
    ensures seq(n - 1, j => j + 1) + [n] == seq(n, j => j + 1)
  {
  }

  /** The filter drops the leading `-` of `"- a b c"`, so the filtered text starts with
      a space. */
  lemma FilterDashABC(t: string)
    requires t == "- a b c"
    ensures FilterChars(t) == (" a b c", [1, 2, 3, 4, 5, 6])
  {
    FilterDropsFirst(t, 7);
    assert t[..7] == t;
    assert t[1..7] == " a b c";
    SuccessorsToSix();
  }

  lemma SuccessorsToSix()
    ensures seq(6, j => j + 1) == [1, 2, 3, 4, 5, 6]
  {
  }

  /** The loop on `" a b c"` emits an empty first token that ends at `charIndex[-1]`,
      then `a`, `b` and `c`. */
  lemma SplitDashABC(ft: string, ci: seq<nat>)
    requires ft == " a b c" && ci == [1, 2, 3, 4, 5, 6]
    ensures LoopBounds(ft, ci, 0, 0)
    ensures SplitLoop(ft, ci, 0, 0, []) ==
      [Word("", 1, 6, 0), Word("a", 2, 2, 1), Word("b", 4, 4, 2), Word("c", 6, 6, 3)]
  {
    var w0 := Word("", 1, 6, 0);
    var w1 := Word("a", 2, 2, 1);
    var w2 := Word("b", 4, 4, 2);
    var w3 := Word("c", 6, 6, 3);
    assert Cut(ft, ci, 0, 0, 0) == w0 by { assert ft[0..0] == ""; }
    assert Cut(ft, ci, 1, 2, 1) == w1 by { assert ft[1..2] == "a"; }
    assert Cut(ft, ci, 3, 4, 2) == w2 by { assert ft[3..4] == "b"; }
    assert Cut(ft, ci, 5, 6, 3) == w3 by { assert ft[5..6] == "c"; }
    assert [w0] == [] + [w0];
    assert [w0, w1] == [w0] + [w1];
    assert [w0, w1, w2] == [w0, w1] + [w2];
    assert [w0, w1, w2, w3] == [w0, w1, w2] + [w3];
    assert SplitLoop(ft, ci, 6, 5, [w0, w1, w2]) == [w0, w1, w2, w3];
    assert SplitLoop(ft, ci, 5, 5, [w0, w1, w2]) == [w0, w1, w2, w3];
    assert SplitLoop(ft, ci, 4, 3, [w0, w1]) == [w0, w1, w2, w3];
    assert SplitLoop(ft, ci, 3, 3, [w0, w1]) == [w0, w1, w2, w3];
    assert SplitLoop(ft, ci, 2, 1, [w0]) == [w0, w1, w2, w3];
    assert SplitLoop(ft, ci, 1, 1, [w0]) == [w0, w1, w2, w3];
  }

  /** `"- a b c"` has four tokens; the first is empty, starts at the space after `-` and
      ends at the last kept character, `c`. */
  lemma TokensOfDashABC(text: string)
    requires text == "- a b c"
    ensures Tokenizable(text)
    ensures ExtractWords(text) ==
      [Word("", 1, 6, 0), Word("a", 2, 2, 1), Word("b", 4, 4, 2), Word("c", 6, 6, 3)]
  {
    assert Leading(text) == 0;
    assert Trailing(text) == 0;
    assert Strip(text) == text;
    assert Normalize(text) == text;
    FilterDashABC(Normalize(text));
    SplitDashABC(FilterChars(Normalize(text)).0, FilterChars(Normalize(text)).1);
  }
}
