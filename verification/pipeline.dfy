/** The whole run of the checker on two texts (lines 115-199): tokenize both, stop when
    either is too short, keep the shared words, build neighbourhoods and the vocabulary
    index of file 2, match, sort and resolve overlaps. */
module Pipeline {
  import opened Results
  import opened Seqs
  import opened Text
  import opened Tokenizer
  import opened Vocabulary
  import opened Nearby
  import opened Matcher
  import opened Resolver

  /** The settings the program ships with (lines 15-16): a search radius of 8 words and a
      cutoff of 40 / 100. */
  const SearchRadius: nat := 8
  const PercentCutoff: Cutoff := Cutoff(40, 100)

  datatype File = File1 | File2

  /** The ways a run ends without a list of comparisons: the tokenizer fails on a text
      (line 95), a file has too few words (lines 129-134), or a comparison with no
      sections is emitted, which the resolver or the report then fails to index. */
  datatype Error = TokenizeCrash(file: File) | TooShort(file: File) | EmptySection


  /** Lines 137-182 on two tokenizer results: the comparisons the matcher emits. Each
      clears the cutoff, has at most `2 * r` shared neighbour texts, and has empty
      sections exactly when it shares none. */
  function Candidates(words1: seq<Word>, words2: seq<Word>, r: nat, cutoff: Cutoff): (cs: seq<TextComparison>)
    requires IndexedByPosition(words1) && IndexedByPosition(words2)
    requires |words1| > 2 * r
    ensures |cs| <= |words1|
    ensures forall c :: c in cs ==> PassesCutoff(c.similarity, r, cutoff)
    ensures forall c :: c in cs ==> c.similarity <= 2 * r
    ensures forall c :: c in cs ==> (c.similarity == 0 <==> c.index1.NoBounds?)
    ensures forall c :: c in cs ==> (c.similarity == 0 <==> c.index2.NoBounds?)
  {
    var kept := KeepShared(words1, words2);
    var index2 := FindWordIndex(kept.1);
    var nbs1 := Neighbourhoods(kept.0, |words1|, r);
    var nbs2 := Neighbourhoods(kept.1, |words2|, r);
    CandidateInputs(words1, words2, r);
    SubsequenceLength(kept.0, words1);
    Matches(kept.0, nbs1, nbs2, index2, r, cutoff)
  }

  /** The shared words of two tokenizer results, with their neighbourhoods and file 2's
      vocabulary index, are what the matcher reads, and no file-1 neighbourhood holds more
      than `2 * r` texts. */
  lemma CandidateInputs(words1: seq<Word>, words2: seq<Word>, r: nat)
    requires IndexedByPosition(words1) && IndexedByPosition(words2)
    requires |words1| > 2 * r
    ensures var kept := KeepShared(words1, words2);
            var nbs1 := Neighbourhoods(kept.0, |words1|, r);
            && MatcherInputs(kept.0, nbs1, Neighbourhoods(kept.1, |words2|, r), FindWordIndex(kept.1))
            && SmallNeighbourhoods(nbs1, r)
  {
    var kept := KeepShared(words1, words2);
    var kept1, kept2 := kept.0, kept.1;
    var nbs1 := Neighbourhoods(kept1, |words1|, r);
    SharedKeysPresent(words1, words2);
    SharedPositionsValid(kept2, |words2|, r);
    SharedStaysAscending(words1, kept1);
    forall q | 0 <= q < |kept1|
      ensures |nbs1[q].nearbyWords| <= 2 * r
    {
      NearbyCount(kept1, q, |words1|, r);
    }
    assert MatcherInputs(kept1, nbs1, Neighbourhoods(kept2, |words2|, r), FindWordIndex(kept2));
    assert SmallNeighbourhoods(nbs1, r);
  }

  lemma SharedKeysPresent(words1: seq<Word>, words2: seq<Word>)
    ensures var kept := KeepShared(words1, words2);
            forall q :: 0 <= q < |kept.0| ==> kept.0[q].text in FindWordIndex(kept.1)
  {
    var (kept1, kept2) := KeepShared(words1, words2);
    forall q | 0 <= q < |kept1|
      ensures kept1[q].text in TextSet(kept2)
    {
      var w := kept1[q];
      assert w in kept1;
      var v :| v in words2 && v.text == w.text;
      assert v in kept2;
    }
  }

  lemma SharedPositionsValid(kept2: seq<Word>, numOfWords: int, r: nat)
    ensures var index2 := FindWordIndex(kept2);
            forall t :: t in index2 ==> ValidMatches(index2[t], Neighbourhoods(kept2, numOfWords, r))
  {
  }

  /** Some comparison has similarity 0, and so empty sections, which line 195 or line 208
      fails to index. */
  predicate HasEmptySection(cs: seq<TextComparison>) {
    exists c :: c in cs && c.similarity == 0
  }

  /** Lines 115-199. The texts are those after line breaks became spaces. */
  function Run(text1: string, text2: string, r: nat, cutoff: Cutoff): (res: Result<seq<TextComparison>, Error>)
    ensures res.Success? ==>
      && NonIncreasing(res.value)
      && Disjoint(res.value)
      && AllBounded(res.value)
      && (forall c :: c in res.value ==> PassesCutoff(c.similarity, r, cutoff) && 0 < c.similarity <= 2 * r)
    ensures res == Failure(EmptySection) ==> PassesCutoff(0, r, cutoff)
  {
    if !Tokenizable(text1) then Failure(TokenizeCrash(File1))
    else if !Tokenizable(text2) then Failure(TokenizeCrash(File2))
    else
      var words1 := ExtractWords(text1);
      var words2 := ExtractWords(text2);
      if |words1| <= 2 * r then Failure(TooShort(File1))
      else if |words2| <= 2 * r then Failure(TooShort(File2))
      else
        var cs := Candidates(words1, words2, r, cutoff);
        if HasEmptySection(cs) then Failure(EmptySection)
        else
          var kept := Resolve(cs);
          assert forall c :: c in kept ==> c in cs;
          Success(kept)
  }

  /** Every word's offsets lie below `n`. */
  predicate OffsetsBelow(words: seq<Word>, n: nat) {
    forall k :: 0 <= k < |words| ==> words[k].startIndex < n && words[k].endIndex < n
  }

  /** A non-empty section whose first and last indices lie below `n`. */
  predicate SectionBelow(b: Bounds, n: nat) {
    b.Bounds? && b.first < n && b.last < n
  }

  lemma KeptOffsetsBelow(words: seq<Word>, kept: seq<Word>, n: nat)
    requires IsSubsequence(kept, words) && OffsetsBelow(words, n)
    ensures OffsetsBelow(kept, n)
  {
    SubsequenceMembers(kept, words);
    forall k | 0 <= k < |kept|
      ensures kept[k].startIndex < n && kept[k].endIndex < n
    {
      assert kept[k] in words;
      var m :| 0 <= m < |words| && words[m] == kept[k];
    }
  }

  lemma SectionsOfWordsBelow(words: seq<Word>, numOfWords: int, r: nat, n: nat)
    requires OffsetsBelow(words, n)
    ensures var nbs := Neighbourhoods(words, numOfWords, r);
            forall q :: 0 <= q < |nbs| ==> SectionBelow(SpanOf(nbs[q]), n)
  {
    var nbs := Neighbourhoods(words, numOfWords, r);
    forall q | 0 <= q < |nbs|
      ensures SectionBelow(SpanOf(nbs[q]), n)
    {
      SpanFromWords(words, q, numOfWords, r);
    }
  }

  /** The sections of the comparisons the matcher emits lie within the offsets of the words
      it was given. */
  lemma CandidateSections(words1: seq<Word>, words2: seq<Word>, r: nat, cutoff: Cutoff, n1: nat, n2: nat)
    requires IndexedByPosition(words1) && IndexedByPosition(words2)
    requires |words1| > 2 * r
    requires OffsetsBelow(words1, n1) && OffsetsBelow(words2, n2)
    ensures forall c :: c in Candidates(words1, words2, r, cutoff) && c.similarity > 0 ==>
      SectionBelow(c.index1, n1) && SectionBelow(c.index2, n2)
  {
    var kept := KeepShared(words1, words2);
    var index2 := FindWordIndex(kept.1);
    var nbs1 := Neighbourhoods(kept.0, |words1|, r);
    var nbs2 := Neighbourhoods(kept.1, |words2|, r);
    CandidateInputs(words1, words2, r);
    MatchesSections(kept.0, nbs1, nbs2, index2, r, cutoff);
    KeptOffsetsBelow(words1, kept.0, n1);
    KeptOffsetsBelow(words2, kept.1, n2);
    SectionsOfWordsBelow(kept.0, |words1|, r, n1);
    SectionsOfWordsBelow(kept.1, |words2|, r, n2);
  }

  /** Every section of a successful run lies inside the stripped text it was taken from. */
  lemma RunSections(text1: string, text2: string, r: nat, cutoff: Cutoff)
    ensures var res := Run(text1, text2, r, cutoff);
            res.Success? ==> forall c :: c in res.value ==>
              SectionBelow(c.index1, |Strip(text1)|) && SectionBelow(c.index2, |Strip(text2)|)
  {
    if Run(text1, text2, r, cutoff).Success? {
      RunSucceeds(text1, text2, r, cutoff);
      TokenOffsetsBelow(text1);
      TokenOffsetsBelow(text2);
      ResolvedSections(ExtractWords(text1), ExtractWords(text2), r, cutoff, |Strip(text1)|, |Strip(text2)|);
    }
  }

  /** A successful run resolved the candidates of two long enough token lists, none of them
      with empty sections. */
  lemma RunSucceeds(text1: string, text2: string, r: nat, cutoff: Cutoff)
    requires Run(text1, text2, r, cutoff).Success?
    ensures Tokenizable(text1) && Tokenizable(text2)
    ensures |ExtractWords(text1)| > 2 * r && |ExtractWords(text2)| > 2 * r
    ensures var cs := Candidates(ExtractWords(text1), ExtractWords(text2), r, cutoff);
            && (forall c :: c in cs ==> c.similarity > 0)
            && Run(text1, text2, r, cutoff).value == Resolve(cs)
  {
  }

  /** The comparisons resolved from candidates with non-empty sections keep sections within
      the offsets of the words. */
  lemma ResolvedSections(words1: seq<Word>, words2: seq<Word>, r: nat, cutoff: Cutoff, n1: nat, n2: nat)
    requires IndexedByPosition(words1) && IndexedByPosition(words2)
    requires |words1| > 2 * r
    requires OffsetsBelow(words1, n1) && OffsetsBelow(words2, n2)
    requires forall c :: c in Candidates(words1, words2, r, cutoff) ==> c.similarity > 0
    ensures Resolvable(Candidates(words1, words2, r, cutoff))
    ensures forall c :: c in Resolve(Candidates(words1, words2, r, cutoff)) ==>
      SectionBelow(c.index1, n1) && SectionBelow(c.index2, n2)
  {
    var cs := Candidates(words1, words2, r, cutoff);
    CandidateSections(words1, words2, r, cutoff, n1, n2);
    assert AllBounded(cs);
  }

  /** The tokenizer's offsets lie inside the stripped text. */
  lemma TokenOffsetsBelow(text: string)
    requires Tokenizable(text)
    ensures OffsetsBelow(ExtractWords(text), |Strip(text)|)
  {
    assert |Normalize(text)| == |Strip(text)|;
  }

  /** Unless the filtered text starts with a space, token offsets never decrease along
      the list and the first token is not empty. */
  lemma TokensAscend(text: string)
    requires Tokenizable(text)
    requires FilterChars(Normalize(text)).0[0] != ' '
    ensures ExtractWords(text)[0].text != ""
    ensures OffsetsAscending(ExtractWords(text))
  {
    FirstTokenEmpty(text);
    TokenOffsetsAscend(ExtractWords(text));
  }

  /** Word `w` lies in the search window of word `center` (lines 147-150). */
  predicate InWindow(w: Word, center: Word, numOfWords: int, r: nat) {
    var (searchMin, searchMax) := Window(center.wordIndex, numOfWords, r);
    searchMin <= w.wordIndex <= searchMax
  }

  /** Lines 146-160 on the shared words of a token list whose first token is not empty:
      the section of each shared word covers that word and every shared word inside its
      window. */
  lemma SharedSectionsCover(words: seq<Word>, kept: seq<Word>, r: nat)
    requires IndexedByPosition(words) && OffsetsIncrease(words)
    requires |words| > 2 * r && words[0].text != ""
    requires IsSubsequence(kept, words)
    ensures var nbs := Neighbourhoods(kept, |words|, r);
      forall q :: 0 <= q < |kept| ==>
        nbs[q].nearbyStart <= kept[q].startIndex && kept[q].endIndex <= nbs[q].nearbyEnd
    ensures var nbs := Neighbourhoods(kept, |words|, r);
      forall q, k :: 0 <= q < |kept| && 0 <= k < |kept| && InWindow(kept[k], kept[q], |words|, r) ==>
        nbs[q].nearbyStart <= kept[k].startIndex && kept[k].endIndex <= nbs[q].nearbyEnd
  {
    TokenOffsetsAscend(words);
    KeptOffsetsAscend(kept, words);
    SharedStaysAscending(words, kept);
    forall q | 0 <= q < |kept|
      ensures var nb := FindNearbyWords(kept, q, |words|, r);
        && nb.nearbyStart <= kept[q].startIndex && kept[q].endIndex <= nb.nearbyEnd
        && forall k :: 0 <= k < |kept| && InWindow(kept[k], kept[q], |words|, r) ==>
             nb.nearbyStart <= kept[k].startIndex && kept[k].endIndex <= nb.nearbyEnd
    {
      NearbySpan(kept, q, |words|, r);
    }
  }

  /** Lines 146-160 on the shared words of any token list: the section of each shared word
      covers that word's start and the start of every shared word inside its window, and the
      end of each of them but an empty first token (the case `SpaceFirstSectionMissesToken`
      exhibits). */
  lemma TokenSectionsCover(words: seq<Word>, kept: seq<Word>, r: nat)
    requires IndexedByPosition(words) && OffsetsIncrease(words)
    requires |words| > 2 * r
    requires IsSubsequence(kept, words)
    ensures var nbs := Neighbourhoods(kept, |words|, r);
      forall q :: 0 <= q < |kept| ==>
        nbs[q].nearbyStart <= kept[q].startIndex
        && (EndOrdered(kept[q]) ==> kept[q].endIndex <= nbs[q].nearbyEnd)
    ensures var nbs := Neighbourhoods(kept, |words|, r);
      forall q, k :: 0 <= q < |kept| && 0 <= k < |kept| && InWindow(kept[k], kept[q], |words|, r) ==>
        nbs[q].nearbyStart <= kept[k].startIndex
        && (EndOrdered(kept[k]) ==> kept[k].endIndex <= nbs[q].nearbyEnd)
  {
    KeptOffsetsIncrease(kept, words);
    SharedStaysAscending(words, kept);
    forall q | 0 <= q < |kept|
      ensures var nb := FindNearbyWords(kept, q, |words|, r);
        && nb.nearbyStart <= kept[q].startIndex
        && (EndOrdered(kept[q]) ==> kept[q].endIndex <= nb.nearbyEnd)
        && forall k :: 0 <= k < |kept| && InWindow(kept[k], kept[q], |words|, r) ==>
             nb.nearbyStart <= kept[k].startIndex
             && (EndOrdered(kept[k]) ==> kept[k].endIndex <= nb.nearbyEnd)
    {
      TokenSpan(kept, q, |words|, r);
    }
  }

  /** When the filtered text starts with a space the first token is empty, and its section
      can end before the token does: `"- a b c"` filters to `" a b c"`, whose first token
      is `("", 1, 6)`, and with a radius of 1 its section ends at offset 4. */
  lemma SpaceFirstSectionMissesToken(text: string)
    requires text == "- a b c"
    ensures Tokenizable(text)
    ensures var words := ExtractWords(text);
      && |words| > 2 && words[0].text == ""
      && FindNearbyWords(words, 0, |words|, 1).nearbyEnd < words[0].endIndex
  {
    TokensOfDashABC(text);
    EmptyFirstTokenOutsideSection(ExtractWords(text));
  }

  /** The run reads each text only after `strip()` (line 76), so a space in front of file
      1 changes nothing. */
  lemma LeadingSpaceIgnored(text1: string, text2: string, r: nat, cutoff: Cutoff)
    ensures Run(" " + text1, text2, r, cutoff) == Run(text1, text2, r, cutoff)
  {
    StripLeadingSpace(text1);
    SameTokens(" " + text1, text1);
  }

  /** The tokenizer sees a text only through its normalized form. */
  lemma SameTokens(a: string, b: string)
    requires Normalize(a) == Normalize(b)
    ensures Tokenizable(a) == Tokenizable(b)
    ensures Tokenizable(a) ==> ExtractWords(a) == ExtractWords(b)
  {
  }

  /** Lines 115-134: the run stops at the first text the tokenizer fails on, then at the
      first file with at most `2 * r` words. */
  lemma RunStopsEarly(text1: string, text2: string, r: nat, cutoff: Cutoff)
    ensures Run(text1, text2, r, cutoff) == Failure(TokenizeCrash(File1)) <==> !Tokenizable(text1)
    ensures Run(text1, text2, r, cutoff) == Failure(TokenizeCrash(File2)) <==>
      Tokenizable(text1) && !Tokenizable(text2)
    ensures Run(text1, text2, r, cutoff) == Failure(TooShort(File1)) <==>
      Tokenizable(text1) && Tokenizable(text2) && |ExtractWords(text1)| <= 2 * r
    ensures Run(text1, text2, r, cutoff) == Failure(TooShort(File2)) <==>
      Tokenizable(text1) && Tokenizable(text2) && |ExtractWords(text1)| > 2 * r && |ExtractWords(text2)| <= 2 * r
  {
    var res := Run(text1, text2, r, cutoff);
    if !Tokenizable(text1) {
      assert res == Failure(TokenizeCrash(File1));
    } else if !Tokenizable(text2) {
      assert res == Failure(TokenizeCrash(File2));
    } else if |ExtractWords(text1)| <= 2 * r {
      assert res == Failure(TooShort(File1));
    } else if |ExtractWords(text2)| <= 2 * r {
      assert res == Failure(TooShort(File2));
    } else {
      assert res.Success? || res == Failure(EmptySection);
    }
  }

  /** Two long enough texts with no word text in common give no comparisons. */
  lemma NothingShared(text1: string, text2: string, r: nat, cutoff: Cutoff)
    requires Tokenizable(text1) && Tokenizable(text2)
    requires |ExtractWords(text1)| > 2 * r && |ExtractWords(text2)| > 2 * r
    requires TextSet(ExtractWords(text1)) * TextSet(ExtractWords(text2)) == {}
    ensures Run(text1, text2, r, cutoff) == Success([])
  {
    var words1 := ExtractWords(text1);
    var words2 := ExtractWords(text2);
    var cs := Candidates(words1, words2, r, cutoff);
    assert |cs| == 0;
    assert SortBySimilarity(cs) == [];
  }

  /** With the shipped settings a comparison needs at least 6 shared neighbour texts
      (`(6 + 1) / 17 >= 0.4`, `(5 + 1) / 17 < 0.4`), so no empty section is ever emitted. */
  lemma ShippedSettings(text1: string, text2: string)
    ensures forall s: nat :: PassesCutoff(s, SearchRadius, PercentCutoff) <==> s >= 6
    ensures Run(text1, text2, SearchRadius, PercentCutoff) != Failure(EmptySection)
  {
  }
}
