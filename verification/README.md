# Plagiarism checker, modelled in Dafny

This project models the matching pipeline of `program-files/plagiarism_checker.py`. The
program reads two texts and finds sections of text that appear in both. It:

1. tokenizes each text (`extractWords`);
2. stops when either text has at most `2 * searchRadius` words;
3. drops every word whose text does not occur in both texts;
4. indexes file 2's words by text (`findWordIndex`);
5. gives every remaining word a neighbourhood (`Word.findNearbyWords`). A neighbourhood is
   the set of texts of the words whose original word index lies in a window of
   `2 * searchRadius + 1` indices around the word, together with the character span those
   words cover;
6. pairs each file-1 word with the same-text file-2 word whose neighbourhood shares the
   most texts with its own. The pair is kept when that share clears the cutoff;
7. sorts the pairs by that share (stably, highest first) and greedily keeps those whose
   file-1 span meets no span kept before;
8. reports the kept pairs.

The model works on immutable datatypes and pure functions, one module per stage:

- `Text`: ASCII characters, `strip`, `lower`, `split(" ")`
- `Tokenizer`
- `Vocabulary`: the common-word filter and the index
- `Nearby`
- `Matcher`
- `Resolver`
- `Pipeline`: the run from two texts to the kept comparisons
- `Reporting`: the report's excerpts

`Seqs` and `Results` hold the generic pieces.

Parameters and conventions:

- The search radius `r` is a parameter. The cutoff is an exact fraction `Cutoff(num, den)` with a positive denominator,
  compared by cross-multiplication. `Pipeline.SearchRadius` and `Pipeline.PercentCutoff`
  are the shipped values, 8 and 40/100.
- Python's failures become values:
  - an input the tokenizer fails on gives `Failure(TokenizeCrash(file))`;
  - a text that is too short gives `Failure(TooShort(file))`;
  - a comparison with empty sections, which the resolver or the report would fail to
    index, gives `Failure(EmptySection)`.
- An empty Python list in `nearbyIndex`/`similarIndex` is `Bounds.NoBounds`.
- `charIndex[-1]` (line 93 when the filtered text starts with a space) is modelled by
  `Tokenizer.PyIndex`.

Where the code and its documentation differ, the model follows the code:

- **Offsets are relative to the stripped text.** `Word`'s docstring (lines 30-31, 34)
  says they are relative to the original file, but `charIndex` indexes the stripped text
  (line 76).
- **A word's own text can be in its neighbourhood.** This happens when the text repeats
  inside the window, because nothing excludes it at lines 62 and 70
  (`Nearby.OwnTextCanBeNearby`).
- **Empty tokens carry odd offsets.** Consecutive spaces give empty tokens whose end
  offset is below their start. An empty first token takes the last kept character's index
  as its end (`Tokenizer.EmptyTokenOffsets`).
- **A section can miss its own token.** `Word`'s docstring (lines 30-34) describes a
  word's section as the text around it. When the filtered text starts with a space, the
  empty first token ends at the last kept character. For `"- a b c"` with radius 1 its
  section ends before that (`Pipeline.SpaceFirstSectionMissesToken`). That is the only
  gap: for any text, every section covers the start of its token and of every token in
  its window, and the end of each of them but an empty first token
  (`Pipeline.TokenSectionsCover`). When the first token is non-empty, offsets ascend and
  every section covers its word and its window whole (`Pipeline.SharedSectionsCover`).

## Model

| member | source | states |
|---|---|---|
| Text.LowerChar | program-files/plagiarism_checker.py:76 | lower-casing leaves no upper-case letter, maps alphanumerics exactly onto lower-case letters and digits, and keeps whitespace and the space |
| Text.Lower | program-files/plagiarism_checker.py:76 | `lower()` keeps the length and lower-cases each character in place |
| Text.Leading | program-files/plagiarism_checker.py:76 | the count of leading whitespace: every counted character is whitespace, the next is not |
| Text.Trailing | program-files/plagiarism_checker.py:76 | the count of trailing whitespace: every counted character is whitespace, the one before is not |
| Text.Strip | program-files/plagiarism_checker.py:76 | `strip()` returns a contiguous slice of the input that starts after exactly the leading whitespace; everything cut off is whitespace and the result neither starts nor ends with whitespace |
| Text.StripLeadingSpace | program-files/plagiarism_checker.py:76 | one more leading space is one more leading whitespace character, and the text strips to the same thing |
| Text.LastSpace | program-files/plagiarism_checker.py:88-95 | the position of the last space, or -1 when there is none |
| Text.Split | program-files/plagiarism_checker.py:88-95 | `split(" ")` yields at least one piece and no piece contains a space |
| Text.JoinSplit | program-files/plagiarism_checker.py:88-95 | joining the pieces of a split with single spaces gives back the text |
| Text.LastPieceSplit | program-files/plagiarism_checker.py:88-95 | splitting a text, a space and a space-free piece gives the text's pieces followed by that piece |
| Text.SplitJoin | program-files/plagiarism_checker.py:88-95 | splitting the space-join of space-free pieces gives back the pieces, empty ones included |
| Text.JoinStartsWithFirst | program-files/plagiarism_checker.py:88-95 | a join whose first piece is non-empty starts with that piece's first character |
| Tokenizer.Texts | program-files/plagiarism_checker.py:88-97 | the token texts, one per token and in order |
| Tokenizer.NormalizeKeepsKinds | program-files/plagiarism_checker.py:76 | `strip().lower()` has the stripped text's length, holds no upper-case letter, and keeps each position's kind: a character is alphanumeric exactly when its lowered form is a lower-case letter or digit, and a space exactly when its lowered form is |
| Tokenizer.PyIndexIsModular | program-files/plagiarism_checker.py:93 | Python indexing from `-len` to `len - 1` is indexing modulo the length, so index -1 is the last element |
| Tokenizer.CutOffsets | program-files/plagiarism_checker.py:93-95 | a token cut from `startIndex` to `i` holds the filtered characters between them and the given word index. It starts at `charIndex[startIndex]` and ends at `charIndex[i-1]`, which for `i == 0` wraps round to the last recorded index |
| Tokenizer.FilterChars | program-files/plagiarism_checker.py:78-85 | the filtered text and `charIndex` have equal length; each kept character is the character of the stripped text at its recorded index; the indices strictly increase; an index is recorded exactly when its character is alphanumeric or a space |
| Tokenizer.EmitJoins | program-files/plagiarism_checker.py:93 | after a cut at a space, the token texts joined with spaces are the filtered text up to that space |
| Tokenizer.EmitText | program-files/plagiarism_checker.py:93 | a cut token holds only lower-case letters and digits and carries its list position as word index |
| Tokenizer.EmitPointAt | program-files/plagiarism_checker.py:93 | a cut token's offsets lie in the stripped text and, when it is non-empty, the characters there are its first and last characters (which occurrence they are is fixed by `Tokenizer.SplitLoopAnchored`) |
| Tokenizer.EmitIncrease | program-files/plagiarism_checker.py:93 | a cut keeps start offsets strictly increasing and the end of a non-empty token below every later start |
| Tokenizer.EmitEmpty | program-files/plagiarism_checker.py:93 | an empty token cut after the first ends before it starts, and an empty first token ends at the last kept character (`charIndex[-1]`) |
| Tokenizer.EmitOffsets | program-files/plagiarism_checker.py:93 | all offset facts of the tokens so far survive a cut |
| Tokenizer.EmitScanned | program-files/plagiarism_checker.py:92-94 | after a cut at a space the loop invariant holds with the next token starting just past the space |
| Tokenizer.EmitLast | program-files/plagiarism_checker.py:95 | the final cut completes a tokenization: the tokens rebuild the filtered text and have every token property |
| Tokenizer.AdvanceScanned | program-files/plagiarism_checker.py:90-91 | a non-space character extends the current token and keeps the loop invariant |
| Tokenizer.SplitLoop | program-files/plagiarism_checker.py:88-95 | the token loop appends at least one token to those it already holds |
| Tokenizer.SplitLoopTokenizes | program-files/plagiarism_checker.py:88-95 | the token loop ends with a tokenization of the filtered text: a non-empty list whose texts joined by single spaces are the filtered text, indexed by position, holding lower-case alphanumerics only, with offsets pointing into the stripped text |
| Tokenizer.SpaceTokenizes | program-files/plagiarism_checker.py:90-94 | from a space, emitting the token since the last cut and going on keeps the loop's invariant and so ends in a tokenization |
| Tokenizer.CharTokenizes | program-files/plagiarism_checker.py:90-92 | from any other character, going on keeps the loop's invariant and so ends in a tokenization |
| Tokenizer.CutAnchored | program-files/plagiarism_checker.py:93-95 | a cut from the position where the next token starts keeps every token at its own position and moves that position past the cut |
| Tokenizer.PlacedCut | program-files/plagiarism_checker.py:93-95 | a token cut from `startIndex` is the filtered text from there, starts at `charIndex[startIndex]` and, when non-empty, ends at the recorded index of its own last character |
| Tokenizer.SplitLoopAnchored | program-files/plagiarism_checker.py:88-95 | every token the loop cuts is the filtered text at its own position (past the tokens before it and one space each), starts at that position's recorded index and, when non-empty, ends at the recorded index of its last character |
| Tokenizer.KeptAreWordChars | program-files/plagiarism_checker.py:76-85 | every kept character of the lower-cased text is a lower-case letter, a digit or a space |
| Tokenizer.FilteringOfTokenizable | program-files/plagiarism_checker.py:76-85 | the filtered text of a text the tokenizer accepts is non-empty, ends in a non-space and has its characters at the recorded indices |
| Tokenizer.TokenizableIff | program-files/plagiarism_checker.py:76-95 | the tokenizer succeeds exactly when the stripped, lowered text has an alphanumeric character with no space anywhere after it |
| Tokenizer.FilterEndsAlnum | program-files/plagiarism_checker.py:79-85 | the filtered text is non-empty and ends in a non-space exactly when the text has an alphanumeric character with no space after it |
| Tokenizer.ExtractWords | program-files/plagiarism_checker.py:75-97 | a non-empty token list whose texts joined with single spaces give the filtered text. Each `wordIndex` is the token's position, texts are lower-case alphanumerics, each token is the filtered text at its own position (past the tokens before it and one space each), starts at that position's recorded index and, when non-empty, ends at the recorded index of its own last character; start offsets strictly increase, and a non-empty token ends before any later token starts |
| Tokenizer.ExtractWordsIsSplit | program-files/plagiarism_checker.py:88-95 | the token texts are exactly `filteredText.split(" ")` |
| Tokenizer.FirstTokenEmpty | program-files/plagiarism_checker.py:88-95 | the first token is empty exactly when the filtered text starts with a space |
| Tokenizer.FilterDashABC | program-files/plagiarism_checker.py:79-85 | filtering `"- a b c"` drops the dash and records the indices 1 to 6 |
| Tokenizer.SplitDashABC | program-files/plagiarism_checker.py:88-95 | the token loop cuts `" a b c"` into an empty first token, which ends at `charIndex[-1]` (6), and then `a`, `b` and `c` at their own indices |
| Tokenizer.TokensOfDashABC | program-files/plagiarism_checker.py:75-97 | `"- a b c"` is accepted and yields an empty first token running from 1 to 6, then `a`, `b` and `c` |
| Vocabulary.KeepTexts | program-files/plagiarism_checker.py:146-151 | the words whose text is in the set, as an order-preserving subsequence: a word is kept exactly when its text is in the set |
| Vocabulary.KeepShared | program-files/plagiarism_checker.py:137-151 | each filtered list is an order-preserving subsequence of its original, and a word survives exactly when a word of the other text has the same text |
| Vocabulary.SharedStaysAscending | program-files/plagiarism_checker.py:146-151 | a filtered list keeps the original word indices, which strictly increase and stay below the original word count |
| Vocabulary.AppendIncreasing | program-files/plagiarism_checker.py:106 | appending a position above all listed ones keeps the list strictly increasing |
| Vocabulary.Positions | program-files/plagiarism_checker.py:100-107 | the positions carrying a text: strictly increasing, in range, and containing a position exactly when the word there has that text |
| Vocabulary.TextSetAppend | program-files/plagiarism_checker.py:104-106 | appending a word adds its text to the set of texts present |
| Vocabulary.PositionsOfAbsent | program-files/plagiarism_checker.py:104-106 | a text not present has no positions |
| Vocabulary.FindWordIndex | program-files/plagiarism_checker.py:100-107 | the index's keys are exactly the texts present, and each maps to the ascending list of exactly the positions carrying it |
| Nearby.Window | program-files/plagiarism_checker.py:50-55 | the window spans `2 * r + 1` indices; it is centred when that fits, starts at 0 when the word is within `r` of the start, and otherwise ends at the last word when the word is within `r` of the end; for a document of more than `2 * r` words it lies inside the document and contains the word's index |
| Nearby.WalkBack | program-files/plagiarism_checker.py:58-64 | the backward walk stops at the first position before the list or below `searchMin`, having passed only positions at or above it |
| Nearby.WalkForward | program-files/plagiarism_checker.py:66-72 | the forward walk stops at the first position past the list or above `searchMax`, having passed only positions at or below it |
| Nearby.TextsBetweenMembers | program-files/plagiarism_checker.py:62-70 | the texts collected by `Nearby.TextsBetween` are exactly those of the walked positions other than the word itself |
| Nearby.WalkedCount | program-files/plagiarism_checker.py:57-72 | the two walks around a word whose index lies in a `2 * r + 1` window collect at most `2 * r` texts |
| Nearby.FindNearbyWords | program-files/plagiarism_checker.py:45-72 | every collected text belongs to another word reached inside the window; when word indices ascend in a long enough document, a text is collected exactly when another word inside the window carries it |
| Nearby.SpanFromWords | program-files/plagiarism_checker.py:47-71 | the section starts at some word's start offset and ends at some word's end offset |
| Nearby.InWindowIsReached | program-files/plagiarism_checker.py:57-72 | with ascending word indices, the walks reach exactly the positions whose word index lies in the window |
| Nearby.ReachedAt | program-files/plagiarism_checker.py:57-72 | one position is reached by the walks exactly when its word index lies in the window |
| Nearby.Neighbourhoods | program-files/plagiarism_checker.py:157-160 | one neighbourhood per word, built with the original word count |
| Nearby.Spread | program-files/plagiarism_checker.py:146-151 | in a list with strictly increasing word indices, positions `q - p` apart differ by at least `q - p` in word index |
| Nearby.TextsBetweenCount | program-files/plagiarism_checker.py:62-70 | collecting texts from `c - a` positions, one of them the word itself, gives at most `c - a - 1` texts |
| Nearby.NearbyWordsWalked | program-files/plagiarism_checker.py:57-72 | a section's texts are the texts of the words between the two walks' stopping points, the word's own excepted |
| Nearby.NearbyCount | program-files/plagiarism_checker.py:45-72 | with strictly increasing word indices in a document of more than `2 * r` words, a neighbourhood holds at most `2 * r` texts |
| Nearby.NearbySpan | program-files/plagiarism_checker.py:47-71 | with ascending indices and offsets, the section covers the word itself and every word of the list inside the window; `Pipeline.SharedSectionsCover` applies it to the filtered tokens |
| Nearby.SpanStart | program-files/plagiarism_checker.py:47-64 | the section starts at the first word the backward walk passed, or at the word's own start when it passed none |
| Nearby.SpanEnd | program-files/plagiarism_checker.py:47-72 | the section ends at the last word the forward walk passed, or at the word's own end when it passed none |
| Nearby.SpanCovers | program-files/plagiarism_checker.py:47-71 | with ascending offsets, the span from the first to the last walked word covers every walked word |
| Nearby.TokenOffsetsAscend | program-files/plagiarism_checker.py:93-95 | when the first token is non-empty, token start and end offsets never decrease along the list |
| Nearby.TokenSpan | program-files/plagiarism_checker.py:47-71 | with ascending indices, increasing starts, and increasing ends from every token but an empty first one, the section covers the start of the word and of every word inside the window, and the end of each of them but an empty first token |
| Nearby.TokenSpanCovers | program-files/plagiarism_checker.py:47-71 | the span from the first to the last walked word covers every walked word's start, and its end unless it is an empty first token |
| Nearby.KeptOffsetsIncrease | program-files/plagiarism_checker.py:146-151 | the tokenizer's words, and every sublist of them, have strictly increasing starts and, from every token but an empty first one, strictly increasing ends |
| Nearby.KeptOffsetsAscend | program-files/plagiarism_checker.py:146-151 | dropping words keeps start and end offsets ascending |
| Nearby.EmptyFirstTokenOutsideSection | program-files/plagiarism_checker.py:47-72 | for the tokens of `"- a b c"` and radius 1, the empty first token's section ends at 4, before the token's own end offset 6 |
| Nearby.OwnTextCanBeNearby | program-files/plagiarism_checker.py:62-70 | a word's own text is collected when another word inside the window repeats it |
| Matcher.SubsetCount | program-files/plagiarism_checker.py:172 | a subset has no more elements than its superset |
| Matcher.Overlap | program-files/plagiarism_checker.py:172 | the number of shared texts is at most the size of either neighbourhood |
| Matcher.MaxOverlap | program-files/plagiarism_checker.py:170-178 | the largest share over the candidate file-2 words: an upper bound on every share, attained by one of them unless it is 0 |
| Matcher.FirstReaching | program-files/plagiarism_checker.py:175-178 | the first candidate whose share reaches a value; every earlier one falls short |
| Matcher.ScanMatches | program-files/plagiarism_checker.py:170-178 | the scan's similarity never decreases, bounds every share it passes, and changes the recorded sections only on a strictly larger share |
| Matcher.ScanFindsFirstMax | program-files/plagiarism_checker.py:166-178 | the full scan ends with the largest share and, when it is positive, records the first file-2 word attaining it |
| Matcher.BestMatch | program-files/plagiarism_checker.py:166-182 | a comparison is emitted exactly when the largest share clears the cutoff. It carries that share, and when the share is positive, the word's section and the section of the first maximising file-2 word. Otherwise both sections are empty. The similarity never exceeds the word's neighbourhood size |
| Matcher.MatchAt | program-files/plagiarism_checker.py:166-182 | a word yields a comparison exactly when its largest share passes the cutoff; the comparison carries that share, which is at most the word's neighbourhood size |
| Matcher.Present | program-files/plagiarism_checker.py:181-182 | the emitted comparisons are exactly the values of the `Some` entries, no more of them than entries |
| Matcher.PresentAt | program-files/plagiarism_checker.py:181-182 | the positions of the emitting words, strictly increasing, containing exactly the positions that emit |
| Matcher.PresentFollowsPositions | program-files/plagiarism_checker.py:163-182 | the `j`-th emitted comparison comes from the `j`-th emitting file-1 word, so comparisons follow file-1 order, one per word at most |
| Matcher.MatchList | program-files/plagiarism_checker.py:163-182 | one optional comparison per file-1 word, each the best match of that word |
| Matcher.Matches | program-files/plagiarism_checker.py:163-182 | at most one comparison per file-1 word. Every comparison clears the cutoff and has empty sections exactly when its similarity is 0. When no file-1 neighbourhood exceeds `2 * r` texts, the similarity is at most `2 * r`, so `similarity + 1 <= 2 * r + 1` |
| Matcher.MatchesSections | program-files/plagiarism_checker.py:168-178 | a non-empty comparison's sections are those of some file-1 and some file-2 neighbourhood |
| Matcher.CutoffIsRatio | program-files/plagiarism_checker.py:181 | the cutoff test holds exactly when `(similarity + 1) / (2 * r + 1) >= num / den` as real numbers |
| Resolver.Insert | program-files/plagiarism_checker.py:185 | insertion into a list sorted by non-increasing similarity keeps it sorted and adds exactly the one element |
| Resolver.InsertBelowHead | program-files/plagiarism_checker.py:185 | putting a higher-similarity head before a sorted list of lower ones gives a sorted list |
| Resolver.InsertStable | program-files/plagiarism_checker.py:185 | among comparisons of any one similarity, the inserted one comes first and the others keep their order |
| Resolver.SortBySimilarity | program-files/plagiarism_checker.py:185 | the sort is a permutation (same multiset) in non-increasing similarity |
| Resolver.SortMembers | program-files/plagiarism_checker.py:185 | sorting keeps the length and the members |
| Resolver.SortIsStable | program-files/plagiarism_checker.py:185 | the sort is stable: the comparisons of each similarity appear in their original order |
| Resolver.SortKeepsSorted | program-files/plagiarism_checker.py:185 | a list already in non-increasing similarity is left unchanged |
| Resolver.OverlapsAccepted | program-files/plagiarism_checker.py:193-197 | the overlap loop answers true exactly when some accepted file-1 section meets the candidate's |
| Resolver.IntersectsIff | program-files/plagiarism_checker.py:195 | for two sections whose first index is at most their last, the overlap test holds exactly when some index lies in both, and it is symmetric |
| Resolver.StepAppendsIffApart | program-files/plagiarism_checker.py:193-199 | one step leaves the accepted list unchanged or appends the candidate, and it appends exactly when the candidate's file-1 section meets no accepted one |
| Resolver.StepKeepsDisjoint | program-files/plagiarism_checker.py:191-199 | accepting a candidate keeps the accepted file-1 sections pairwise disjoint |
| Resolver.Greedy | program-files/plagiarism_checker.py:189-199 | the fold only appends: its input list is a prefix of the result, what it appends is a subsequence of the candidates, disjointness is kept, and every candidate is kept or meets a kept one |
| Resolver.GreedyTail | program-files/plagiarism_checker.py:189-199 | one step of the fold followed by the rest keeps the prefix, subsequence, coverage and membership facts |
| Resolver.GreedyAppend | program-files/plagiarism_checker.py:189-199 | folding over two lists in turn equals folding over their concatenation |
| Resolver.GreedySnoc | program-files/plagiarism_checker.py:190-199 | one more candidate is appended exactly when it meets no accepted section |
| Resolver.Resolve | program-files/plagiarism_checker.py:185-199 | the result is a subsequence of the stably sorted comparisons, in non-increasing similarity, with pairwise disjoint file-1 sections. It is no longer than the input and drawn from it. Every comparison left out meets a kept one |
| Resolver.ResolveDecides | program-files/plagiarism_checker.py:189-199 | each comparison of the sorted list is kept exactly when its file-1 section meets none kept before it |
| Resolver.KeptBeforeIsPrefix | program-files/plagiarism_checker.py:189-199 | what is kept up to any point is a prefix of the final result |
| Resolver.KeptBeforeRanksHigher | program-files/plagiarism_checker.py:185-199 | everything kept before a comparison has at least its similarity, so a rejected comparison meets an earlier-accepted one of no lower similarity |
| Resolver.GreedyOfDisjoint | program-files/plagiarism_checker.py:189-199 | with pairwise disjoint file-1 sections every candidate is kept |
| Resolver.ResolveIdempotent | program-files/plagiarism_checker.py:185-199 | resolving a resolved list returns it unchanged |
| Resolver.FileTwoOverlapKept | program-files/plagiarism_checker.py:195 | two comparisons with the same file-2 section and apart file-1 sections are both kept: file-2 sections are never compared |
| Pipeline.CandidateInputs | program-files/plagiarism_checker.py:137-160 | the filtered words, their neighbourhoods and file 2's index are valid matcher inputs, and no file-1 neighbourhood exceeds `2 * r` texts |
| Pipeline.SharedKeysPresent | program-files/plagiarism_checker.py:137-153 | every filtered file-1 word's text is a key of file 2's index |
| Pipeline.SharedPositionsValid | program-files/plagiarism_checker.py:100-107 | every position in file 2's index addresses a file-2 neighbourhood |
| Pipeline.Candidates | program-files/plagiarism_checker.py:137-182 | each emitted comparison clears the cutoff, shares at most `2 * r` texts, and has empty sections exactly when it shares none |
| Pipeline.Run | program-files/plagiarism_checker.py:115-199 | a successful run returns comparisons in non-increasing similarity with pairwise disjoint, non-empty file-1 sections, each clearing the cutoff with similarity between 1 and `2 * r`; an empty-section failure happens only when the cutoff admits similarity 0 |
| Pipeline.RunStopsEarly | program-files/plagiarism_checker.py:115-134 | the run fails on file 1's tokenization, then file 2's, then on file 1 having at most `2 * r` words, then file 2, each exactly in that situation |
| Pipeline.NothingShared | program-files/plagiarism_checker.py:137-151 | two long enough texts without a common word text give no comparisons |
| Pipeline.ShippedSettings | program-files/plagiarism_checker.py:15-16 | with radius 8 and cutoff 40/100 a comparison needs at least 6 shared texts, so the empty-section failure never occurs |
| Pipeline.KeptOffsetsBelow | program-files/plagiarism_checker.py:146-151 | filtering keeps every offset inside the text |
| Pipeline.SectionsOfWordsBelow | program-files/plagiarism_checker.py:47-71 | neighbourhood sections lie inside the text when the words' offsets do |
| Pipeline.CandidateSections | program-files/plagiarism_checker.py:163-178 | the sections of emitted comparisons lie within the words' offsets |
| Pipeline.RunSections | program-files/plagiarism_checker.py:76-199 | every section of a successful run lies inside the stripped text it came from |
| Pipeline.RunSucceeds | program-files/plagiarism_checker.py:115-199 | a successful run had two tokenizable texts of more than `2 * r` tokens each, none of whose candidates had empty sections, and returned the resolved candidates |
| Pipeline.TokenOffsetsBelow | program-files/plagiarism_checker.py:76-97 | every token offset lies inside the stripped text |
| Pipeline.ResolvedSections | program-files/plagiarism_checker.py:163-199 | resolving candidates without empty sections keeps only sections within the words' offsets |
| Pipeline.TokensAscend | program-files/plagiarism_checker.py:75-97 | when the filtered text does not start with a space, the first token is non-empty and token offsets ascend |
| Pipeline.TokenSectionsCover | program-files/plagiarism_checker.py:146-160 | for the filtered words of any accepted text, every section covers the start of its own word and of every filtered word inside its window, and the end of each of them but an empty first token |
| Pipeline.SharedSectionsCover | program-files/plagiarism_checker.py:146-160 | for the filtered words of a text whose first token is non-empty, every section covers its own word and every filtered word inside its window |
| Pipeline.SpaceFirstSectionMissesToken | program-files/plagiarism_checker.py:45-97 | `"- a b c"` is accepted and yields 4 tokens, the first empty; with radius 1 that token's section ends before the token's own end offset |
| Pipeline.SameTokens | program-files/plagiarism_checker.py:75-97 | two texts with the same stripped, lowered form are accepted alike and yield the same tokens |
| Pipeline.LeadingSpaceIgnored | program-files/plagiarism_checker.py:76-199 | a leading space on file 1 changes nothing in the run |
| Reporting.PySlice | program-files/plagiarism_checker.py:208-209 | Python slicing: an in-range slice is the Dafny slice, and a slice with `hi <= lo` is empty |
| Reporting.Excerpt | program-files/plagiarism_checker.py:208-209 | the corrected excerpt is the slice of the stripped text between the section's first and last indices |
| Reporting.ExcerptAsWritten | program-files/plagiarism_checker.py:208-209 | the slice as written: the unstripped text between the section's first and last indices, and empty when the last index is below the first |
| Reporting.ExcerptInStripped | program-files/plagiarism_checker.py:76-209 | slicing the unstripped text after its leading whitespace is slicing the stripped text |
| Reporting.ExcerptsAgreeUnpadded | program-files/plagiarism_checker.py:208-209 | with no leading whitespace the slice as written and the corrected excerpt agree |
| Reporting.PaddedExcerptShifted | program-files/plagiarism_checker.py:208-209 | after one leading space, the slice as written is the corrected excerpt of the section moved one character left |
| Reporting.PaddedExcerptFromSpace | program-files/plagiarism_checker.py:208-209 | for a section starting at 0 and one leading space, the slice as written starts with the space while the corrected excerpt starts with the text's first character, which is not whitespace |
| Reporting.ExcerptShowsToken | program-files/plagiarism_checker.py:28-31 | the corrected excerpt of a non-empty token's own offsets starts and ends with that token's first and last characters, up to case |
| Reporting.ExcerptShowsWord | program-files/plagiarism_checker.py:208-209 | the corrected excerpt at a non-empty word's offsets starts and ends with that word's first and last characters, up to case |
| Reporting.SliceShowsToken | program-files/plagiarism_checker.py:76-97 | a slice of the stripped text at a non-empty token's offsets is non-empty and starts and ends with the token's first and last characters, up to case |
| Reporting.TokensOfSpaceA | program-files/plagiarism_checker.py:75-97 | the text `" a"` yields the single token `a` at offsets 0 to 0 |
| Reporting.NormalizeSpaceA | program-files/plagiarism_checker.py:76 | stripping `" a"` drops one leading space and leaves `a` |
| Reporting.FilterA | program-files/plagiarism_checker.py:79-85 | the filter keeps the letter of `"a"` and records index 0 for it |
| Reporting.SplitA | program-files/plagiarism_checker.py:88-95 | the token loop cuts `"a"` into the one token `a` at offsets 0 to 0 |
| Reporting.SliceOfSpaceA | program-files/plagiarism_checker.py:208-209 | on `" a"` the slice `[0:1]` as written is the space, while the corrected excerpt is `a` |
| Reporting.ExcerptAsWrittenMissesToken | program-files/plagiarism_checker.py:208-209 | for `" a"` the slice as written prints the leading space instead of the token `a`; the corrected excerpt prints `a` |
| Reporting.ReportOf | program-files/plagiarism_checker.py:202-211 | the no-similarities message exactly when nothing is kept; otherwise one entry per comparison, in order. Each entry counts the shared texts plus one, and its sections are the corrected excerpts, slices of the stripped texts |
| Reporting.ReportOfRun | program-files/plagiarism_checker.py:202-211 | the report of a successful run describes its comparisons |
| Reporting.ReportDescribes | program-files/plagiarism_checker.py:204-211 | comparisons with sections inside the stripped texts and 1 to `2 * r` shared texts get one entry each, counting 2 to `2 * r + 1` similar words, with the sections as corrected excerpts, slices of the stripped texts |
| Reporting.Output | program-files/plagiarism_checker.py:115-211 | the run's error, or a report with one entry per kept comparison, each counting between 2 and `2 * r + 1` similar words, with sections that are the corrected excerpts, slices of the stripped texts |
| Reporting.ReportAsWritten | program-files/plagiarism_checker.py:202-211 | the report as written: the no-similarities message exactly when nothing is kept, otherwise one entry per comparison counting the same similar words as the corrected report, whose two sections are the slices of the texts as read from the comparison's first to last index; equal to the corrected report when neither text has leading whitespace |
| Reporting.AsWrittenSections | program-files/plagiarism_checker.py:208-209 | each printed section is the slice of the text as read from the comparison's first to last index |
| Reporting.AsWrittenUnpadded | program-files/plagiarism_checker.py:207-210 | with no leading whitespace in either text the entries as written equal the corrected ones |
| Reporting.AsWrittenReportShifted | program-files/plagiarism_checker.py:76-211 | if file 1 without leading whitespace gives a run keeping a comparison whose file-1 section starts at 0, then `" "` plus file 1 gives the same run. The report as written prints that section starting with the space, while the corrected report starts it with a non-whitespace character |
| Reporting.OutputAsWritten | program-files/plagiarism_checker.py:115-211 | the output as written fails exactly when the corrected output fails, with the same error, and equals it when neither text has leading whitespace |

## Left out

- Reading the input files, the newline replacement (lines 18-24), writing the output
  file, `print` and `exit()` (lines 129-134, 202-214): these are I/O. Each text is a
  parameter, taken after the newline replacement. The report is a `Report` value, not a
  formatted string. A too-short text is an error value.
- Unicode semantics of `strip`, `lower` and `isalnum`: characters follow ASCII. Whitespace
  is space, 9-13 and 28-31; upper-case letters are `A`-`Z`; alphanumerics are letters and
  digits.
- Floating-point division in the cutoff test (line 181): the exact comparison
  `(similarity + 1) * den >= num * (2 * r + 1)` replaces it. A float rounding right at the
  boundary is not modelled.
- Hash-set and dictionary iteration order: sets and maps are unordered. Order matters only
  in the index lists and in the matcher's scan, and both are sequences.
- `wordIndex1` (line 153) is computed but never used, so the model does not build it.
- Resolver.Resolve: requires at most one comparison or all file-1 sections present. With
  two or more comparisons and an empty section, line 195 fails on indexing it. With a
  single empty-section comparison the report (line 208) fails instead. `Pipeline.Run`
  turns both into the single `EmptySection` error.
- Reporting.ReportOf: reports the corrected excerpts, slices of the stripped texts, rather
  than the slices of the unstripped texts at lines 208-209. `Reporting.ReportAsWritten`
  models those slices; the two agree when neither text has leading whitespace.
- Reporting.ReportOfRun: describes the report of `Reporting.ReportOf`, for the same reason.
- Reporting.ReportDescribes: states corrected excerpts, for the same reason.
- Reporting.Output: built on `Reporting.ReportOf`, for the same reason.
  `Reporting.OutputAsWritten` is the output as written.
- Resolver.IntersectsIff: requires both sections to have first index at most last. Only an
  empty token gives a section whose end is below its start, and on such a section line
  195's test is not an intersection of index ranges.
- Tokenizer.ExtractWords: requires the filtered text to be non-empty and not to end in a
  space, because line 95 fails otherwise. `Pipeline.Run` returns `TokenizeCrash` for
  those texts.

## Findings

| source | as written | input that shows it | evidently intended | confidence | as-written member | corrected member |
|---|---|---|---|---|---|---|
| program-files/plagiarism_checker.py:208-209 | the report slices the text read from the file with indices that count from the first character left by `strip()` (line 76) | file 2 is the 17 words `a b c d e f g h i j k l m n o p q` and file 1 is the same text after one space. The run equals the run on two equal texts (`Pipeline.LeadingSpaceIgnored`), whose first kept comparison has the file-1 section from 0 to 32, so line 208 prints `" a b c d e f g h i j k l m n o p "` instead of starting at `a` | slice from the stripped text, or add the stripped leading whitespace (`Word`'s docstring, lines 30-31, says the indices are relative to the original text) | not executed | Reporting.ReportAsWritten and Reporting.ExcerptAsWritten (shown by Reporting.AsWrittenReportShifted and Reporting.ExcerptAsWrittenMissesToken) | Reporting.ReportOf and Reporting.Excerpt (proved by Reporting.ExcerptShowsToken and Reporting.AsWrittenReportShifted) |
