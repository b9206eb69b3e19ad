/** The report (lines 202-212): for each kept comparison, the number of similar words and
    the two sections of text it covers. */
module Reporting {
  import opened Results
  import opened Text
  import opened Tokenizer
  import opened Matcher
  import opened Pipeline

  /** Python's `s[lo:hi]` for non-negative bounds: empty when `hi <= lo`, cut off at the end
      of `s`. */
  function PySlice(s: string, lo: nat, hi: nat): (r: string)
    ensures lo <= hi <= |s| ==> r == s[lo..hi]
    ensures hi <= lo ==> r == []
  {
    if hi <= lo || |s| <= lo then []
    else s[lo..if hi <= |s| then hi else |s|]
  }

  /** Lines 208-209 as written: the section's indices applied to the text read from the
      file. */
  function ExcerptAsWritten(text: string, b: Bounds): (e: string)
    requires b.Bounds?
    ensures b.first <= b.last < |text| ==> e == text[b.first..b.last + 1]
    ensures b.last < b.first ==> e == []
  {
    PySlice(text, b.first, b.last + 1)
  }

  /** The section the indices denote. They count from the first character left by
      `strip()` (line 76), so the whitespace stripped from the front is added back. */
  function Excerpt(text: string, b: Bounds): (e: string)
    requires b.Bounds?
    ensures b.last < |Strip(text)| ==> e == PySlice(Strip(text), b.first, b.last + 1)
  {
    var lead := Leading(text);
    ExcerptInStripped(text, lead, b.first, b.last + 1);
    PySlice(text, lead + b.first, lead + b.last + 1)
  }

  /** With nothing stripped from the front, the slice as written is the corrected one. */
  lemma ExcerptsAgreeUnpadded(t: string, b: Bounds)
    requires b.Bounds? && Leading(t) == 0
    ensures ExcerptAsWritten(t, b) == Excerpt(t, b)
  {
  }

  /** With one space in front of a text that starts with a non-space, the slice as written
      is the corrected slice one character to the left. */
  lemma PaddedExcerptShifted(t: string, b: Bounds)
    requires b.Bounds? && Leading(t) == 0 && 1 <= b.first <= b.last
    ensures ExcerptAsWritten(" " + t, b) == Excerpt(" " + t, Bounds(b.first - 1, b.last - 1))
  {
    StripLeadingSpace(t);
  }

  /** With one space in front of a text that starts with a non-space, a section from
      offset 0 is printed from the space, while the corrected one starts with the text's
      first character. */
  lemma PaddedExcerptFromSpace(t: string, b: Bounds)
    requires b.Bounds? && Leading(t) == 0 && b.first == 0 && b.last < |Strip(t)|
    ensures |ExcerptAsWritten(" " + t, b)| > 0 && ExcerptAsWritten(" " + t, b)[0] == ' '
    ensures |Excerpt(" " + t, b)| > 0 && Excerpt(" " + t, b)[0] == t[0]
    ensures !IsWhitespace(t[0])
  {
    StripLeadingSpace(t);
    var u := " " + t;
    assert PySlice(u, 0, b.last + 1) == u[0..b.last + 1];
    assert PySlice(u, 1, b.last + 2) == u[1..b.last + 2];
    assert u[1] == t[0];
  }

  lemma ExcerptInStripped(text: string, lead: nat, lo: nat, hi: nat)
    requires lead == Leading(text)
    ensures hi <= |Strip(text)| ==> PySlice(text, lead + lo, lead + hi) == PySlice(Strip(text), lo, hi)
  {
    var t := Strip(text);
    if hi <= |t| && lo < hi {
      assert t == text[lead..lead + |t|];
      forall j | 0 <= j < hi - lo
        ensures text[lead + lo..lead + hi][j] == t[lo..hi][j]
      {
        assert t[lo + j] == text[lead + lo + j];
      }
      assert text[lead + lo..lead + hi] == t[lo..hi];
    }
  }

  /** The excerpt of a non-empty token's own indices starts and ends with the token's first
      and last characters (up to case). */
  lemma ExcerptShowsToken(text: string, k: nat)
    requires Tokenizable(text) && k < |ExtractWords(text)|
    requires |ExtractWords(text)[k].text| > 0
    ensures var w := ExtractWords(text)[k];
            var e := Excerpt(text, Bounds(w.startIndex, w.endIndex));
            && |e| > 0
            && LowerChar(e[0]) == w.text[0]
            && LowerChar(e[|e| - 1]) == w.text[|w.text| - 1]
  {
    ExcerptShowsWord(text, ExtractWords(text), k);
  }

  lemma ExcerptShowsWord(text: string, words: seq<Word>, k: nat)
    requires OffsetsPointAt(Normalize(text), words) && k < |words|
    requires |words[k].text| > 0
    ensures var w := words[k];
            var e := Excerpt(text, Bounds(w.startIndex, w.endIndex));
            && |e| > 0
            && LowerChar(e[0]) == w.text[0]
            && LowerChar(e[|e| - 1]) == w.text[|w.text| - 1]
  {
    var w := words[k];
    var stripped := Strip(text);
    assert Normalize(text) == Lower(stripped);
    SliceShowsToken(stripped, words, k);
    var e := PySlice(stripped, w.startIndex, w.endIndex + 1);
    assert Excerpt(text, Bounds(w.startIndex, w.endIndex)) == e;
  }

  /** A slice of `stripped` at a non-empty token's offsets into `Lower(stripped)` starts
      and ends with the token's first and last characters (up to case). */
  lemma SliceShowsToken(stripped: string, words: seq<Word>, k: nat)
    requires OffsetsPointAt(Lower(stripped), words) && k < |words|
    requires |words[k].text| > 0
    ensures var w := words[k];
            var e := PySlice(stripped, w.startIndex, w.endIndex + 1);
            && w.endIndex < |stripped|
            && |e| > 0
            && LowerChar(e[0]) == w.text[0]
            && LowerChar(e[|e| - 1]) == w.text[|w.text| - 1]
  {
    var w := words[k];
    var lowered := Lower(stripped);
    assert w.startIndex <= w.endIndex < |lowered| == |stripped|;
    assert lowered[w.startIndex] == w.text[0];
    assert lowered[w.endIndex] == w.text[|w.text| - 1];
    var e := PySlice(stripped, w.startIndex, w.endIndex + 1);
    assert e == stripped[w.startIndex..w.endIndex + 1];
    assert e[0] == stripped[w.startIndex] && e[|e| - 1] == stripped[w.endIndex];
  }

  /** Stripping `" a"` drops its one leading space; nothing is left to lower-case. */
  lemma NormalizeSpaceA(text: string)
    requires text == " a"
    ensures Leading(text) == 1 && Strip(text) == "a" && Normalize(text) == "a"
  {
    assert Leading(text[1..]) == 0;
    assert Leading(text) == 1;
    var t := text[1..];
    assert Trailing(t) == 0;
    assert Strip(text) == t;
  }

  /** The filter keeps the one letter of `"a"`, found at index 0. */
  lemma FilterA(t: string)
    requires t == "a"
    ensures FilterChars(t) == ("a", [0])
  {
    var prev := FilterChars(t[..0]);
    assert prev == ("", []);
    assert Kept(t[0]);
    assert FilterChars(t) == (prev.0 + [t[0]], prev.1 + [0]);
    assert prev.0 + [t[0]] == "a";
    assert prev.1 + [0] == [0];
  }

  /** The splitting loop cuts `"a"` into the single token `a` at offsets 0 to 0. */
  lemma SplitA(ft: string, ci: seq<nat>)
    requires ft == "a" && ci == [0]
    ensures LoopBounds(ft, ci, 0, 0)
    ensures SplitLoop(ft, ci, 0, 0, []) == [Word("a", 0, 0, 0)]
  {
    assert SplitLoop(ft, ci, 0, 0, []) == SplitLoop(ft, ci, 1, 0, []);
    assert SplitLoop(ft, ci, 1, 0, []) == [Cut(ft, ci, 0, 1, 0)];
    assert ft[0..1] == "a";
    assert Cut(ft, ci, 0, 1, 0) == Word("a", 0, 0, 0);
  }

  /** The text `" a"` has the single token `a`, at offsets 0 to 0 of the stripped text. */
  lemma TokensOfSpaceA(text: string)
    requires text == " a"
    ensures Tokenizable(text)
    ensures ExtractWords(text) == [Word("a", 0, 0, 0)]
  {
    NormalizeSpaceA(text);
    FilterA(Normalize(text));
    SplitA(FilterChars(Normalize(text)).0, FilterChars(Normalize(text)).1);
  }

  /** With one leading space, the excerpt printed for the single token `a` of `" a"` is the
      space, not `a`. */
  lemma ExcerptAsWrittenMissesToken(text: string)
    requires text == " a"
    ensures Tokenizable(text)
    ensures var w := ExtractWords(text)[0];
            && w.text == "a"
            && ExcerptAsWritten(text, Bounds(w.startIndex, w.endIndex)) == " "
            && Excerpt(text, Bounds(w.startIndex, w.endIndex)) == "a"
  {
    TokensOfSpaceA(text);
    NormalizeSpaceA(text);
    SliceOfSpaceA(text);
  }

  lemma SliceOfSpaceA(text: string)
    requires text == " a" && Leading(text) == 1
    ensures ExcerptAsWritten(text, Bounds(0, 0)) == " "
    ensures Excerpt(text, Bounds(0, 0)) == "a"
  {
    assert PySlice(text, 0, 1) == text[0..1] == " ";
    assert PySlice(text, 1, 2) == text[1..2] == "a";
  }

  /** One report entry (line 210): the number of similar words and the two sections. */
  datatype Entry = Entry(similarWords: nat, section1: string, section2: string)

  /** Lines 204-211: either the no-similarities message or one entry per comparison. */
  datatype Report = NoSimilarities | Similarities(entries: seq<Entry>)

  /** Lines 204-211 with the corrected excerpt: one entry per comparison, in order, counting
      the shared neighbour texts plus the word itself; a section inside the stripped text is
      reported as exactly that slice of it. */
  function ReportOf(text1: string, text2: string, kept: seq<TextComparison>): (rep: Report)
    requires forall c :: c in kept ==> c.index1.Bounds? && c.index2.Bounds?
    ensures rep.NoSimilarities? <==> |kept| == 0
    ensures rep.Similarities? ==> |rep.entries| == |kept|
    ensures rep.Similarities? ==> forall k :: 0 <= k < |kept| ==>
      var c := kept[k];
      && rep.entries[k].similarWords == c.similarity + 1
      && (SectionBelow(c.index1, |Strip(text1)|) ==>
            rep.entries[k].section1 == PySlice(Strip(text1), c.index1.first, c.index1.last + 1))
      && (SectionBelow(c.index2, |Strip(text2)|) ==>
            rep.entries[k].section2 == PySlice(Strip(text2), c.index2.first, c.index2.last + 1))
  {
    if |kept| == 0 then NoSimilarities
    else
      Similarities(seq(|kept|, k requires 0 <= k < |kept| =>
        Entry(kept[k].similarity + 1, Excerpt(text1, kept[k].index1), Excerpt(text2, kept[k].index2))))
  }

  /** `rep` reports the comparisons `kept`: nothing when there are none, otherwise one
      entry each, in order, counting between 2 and `2 * r + 1` similar words, with the two
      sections as slices of the stripped texts. */
  predicate Describes(rep: Report, kept: seq<TextComparison>, text1: string, text2: string, r: nat)
    requires forall c :: c in kept ==> c.index1.Bounds? && c.index2.Bounds?
  {
    && (rep.NoSimilarities? <==> |kept| == 0)
    && (rep.Similarities? ==>
          && |rep.entries| == |kept|
          && forall k :: 0 <= k < |kept| ==>
               var c := kept[k];
               var e := rep.entries[k];
               && 2 <= e.similarWords <= 2 * r + 1
               && e.section1 == PySlice(Strip(text1), c.index1.first, c.index1.last + 1)
               && e.section2 == PySlice(Strip(text2), c.index2.first, c.index2.last + 1))
  }

  lemma ReportOfRun(text1: string, text2: string, r: nat, cutoff: Cutoff)
    requires Run(text1, text2, r, cutoff).Success?
    ensures var kept := Run(text1, text2, r, cutoff).value;
            && (forall c :: c in kept ==> c.index1.Bounds? && c.index2.Bounds?)
            && Describes(ReportOf(text1, text2, kept), kept, text1, text2, r)
  {
    var kept := Run(text1, text2, r, cutoff).value;
    RunSections(text1, text2, r, cutoff);
    ReportDescribes(text1, text2, kept, r);
  }

  /** Lines 204-211 as written: the report with every section sliced from the text read
      from the file. When neither text starts with whitespace it is the corrected report. */
  function ReportAsWritten(text1: string, text2: string, kept: seq<TextComparison>): (rep: Report)
    requires forall c :: c in kept ==> c.index1.Bounds? && c.index2.Bounds?
    ensures rep.NoSimilarities? <==> |kept| == 0
    ensures rep.Similarities? ==> |rep.entries| == |kept|
    ensures rep.Similarities? ==> forall k :: 0 <= k < |kept| ==>
      rep.entries[k].similarWords == ReportOf(text1, text2, kept).entries[k].similarWords
    ensures rep.Similarities? ==> forall k :: 0 <= k < |kept| ==>
      var b := kept[k].index1;
      b.first <= b.last < |text1| ==> rep.entries[k].section1 == text1[b.first..b.last + 1]
    ensures rep.Similarities? ==> forall k :: 0 <= k < |kept| ==>
      var b := kept[k].index2;
      b.first <= b.last < |text2| ==> rep.entries[k].section2 == text2[b.first..b.last + 1]
    ensures Leading(text1) == 0 && Leading(text2) == 0 ==> rep == ReportOf(text1, text2, kept)
  {
    if |kept| == 0 then NoSimilarities
    else
      var rep := Similarities(seq(|kept|, k requires 0 <= k < |kept| =>
        Entry(kept[k].similarity + 1, ExcerptAsWritten(text1, kept[k].index1), ExcerptAsWritten(text2, kept[k].index2))));
      AsWrittenUnpadded(text1, text2, kept, rep);
      AsWrittenSections(text1, text2, kept, rep);
      rep
  }

  /** Each printed section is the slice of the text as read at the comparison's indices. */
  lemma AsWrittenSections(text1: string, text2: string, kept: seq<TextComparison>, rep: Report)
    requires forall c :: c in kept ==> c.index1.Bounds? && c.index2.Bounds?
    requires |kept| > 0
    requires rep == Similarities(seq(|kept|, k requires 0 <= k < |kept| =>
        Entry(kept[k].similarity + 1, ExcerptAsWritten(text1, kept[k].index1), ExcerptAsWritten(text2, kept[k].index2))))
    ensures forall k :: 0 <= k < |kept| ==>
      var b := kept[k].index1;
      b.first <= b.last < |text1| ==> rep.entries[k].section1 == text1[b.first..b.last + 1]
    ensures forall k :: 0 <= k < |kept| ==>
      var b := kept[k].index2;
      b.first <= b.last < |text2| ==> rep.entries[k].section2 == text2[b.first..b.last + 1]
  {
    forall k | 0 <= k < |kept|
      ensures var b := kept[k].index1;
        b.first <= b.last < |text1| ==> rep.entries[k].section1 == text1[b.first..b.last + 1]
      ensures var b := kept[k].index2;
        b.first <= b.last < |text2| ==> rep.entries[k].section2 == text2[b.first..b.last + 1]
    {
      assert kept[k] in kept;
    }
  }

  lemma AsWrittenUnpadded(text1: string, text2: string, kept: seq<TextComparison>, rep: Report)
    requires forall c :: c in kept ==> c.index1.Bounds? && c.index2.Bounds?
    requires |kept| > 0
    requires rep == Similarities(seq(|kept|, k requires 0 <= k < |kept| =>
        Entry(kept[k].similarity + 1, ExcerptAsWritten(text1, kept[k].index1), ExcerptAsWritten(text2, kept[k].index2))))
    ensures Leading(text1) == 0 && Leading(text2) == 0 ==> rep == ReportOf(text1, text2, kept)
  {
    if Leading(text1) == 0 && Leading(text2) == 0 {
      var other := ReportOf(text1, text2, kept);
      forall k | 0 <= k < |kept|
        ensures rep.entries[k] == other.entries[k]
      {
        assert kept[k] in kept;
        ExcerptsAgreeUnpadded(text1, kept[k].index1);
        ExcerptsAgreeUnpadded(text2, kept[k].index2);
      }
    }
  }

  /** Lines 202-211 as written, on file 1 read with one extra space in front: the run is
      the same, and a comparison whose file-1 section starts at offset 0 is printed from
      the space instead of from its first word. */
  lemma AsWrittenReportShifted(text1: string, text2: string, r: nat, cutoff: Cutoff,
                               kept: seq<TextComparison>, k: nat)
    requires Leading(text1) == 0
    requires Run(text1, text2, r, cutoff) == Success(kept)
    requires k < |kept| && kept[k].index1.Bounds? && kept[k].index1.first == 0
    ensures Run(" " + text1, text2, r, cutoff) == Success(kept)
    ensures forall c :: c in kept ==> c.index1.Bounds? && c.index2.Bounds?
    ensures var rep := ReportAsWritten(" " + text1, text2, kept);
      rep.Similarities? && |rep.entries[k].section1| > 0 && rep.entries[k].section1[0] == ' '
    ensures var rep := ReportOf(" " + text1, text2, kept);
      rep.Similarities? && |rep.entries[k].section1| > 0 && !IsWhitespace(rep.entries[k].section1[0])
  {
    LeadingSpaceIgnored(text1, text2, r, cutoff);
    RunSections(text1, text2, r, cutoff);
    assert kept[k] in kept;
    PaddedExcerptFromSpace(text1, kept[k].index1);
  }

  /** Comparisons with sections inside the stripped texts and between 1 and `2 * r`
      shared neighbour texts are reported as `Describes` says. */
  lemma ReportDescribes(text1: string, text2: string, kept: seq<TextComparison>, r: nat)
    requires forall c :: c in kept ==>
      && SectionBelow(c.index1, |Strip(text1)|) && SectionBelow(c.index2, |Strip(text2)|)
      && 0 < c.similarity <= 2 * r
    ensures forall c :: c in kept ==> c.index1.Bounds? && c.index2.Bounds?
    ensures Describes(ReportOf(text1, text2, kept), kept, text1, text2, r)
  {
    assert forall k :: 0 <= k < |kept| ==> kept[k] in kept;
  }

  /** The program from its two texts to its report: the run's error, or the report of the
      comparisons it kept. */
  function Output(text1: string, text2: string, r: nat, cutoff: Cutoff): (out: Result<Report, Error>)
    ensures out.Failure? <==> Run(text1, text2, r, cutoff).Failure?
    ensures out.Failure? ==> out.error == Run(text1, text2, r, cutoff).error
    ensures out.Success? ==>
      var kept := Run(text1, text2, r, cutoff).value;
      && (forall c :: c in kept ==> c.index1.Bounds? && c.index2.Bounds?)
      && Describes(out.value, kept, text1, text2, r)
  {
    var res := Run(text1, text2, r, cutoff);
    if res.Failure? then Failure(res.error)
    else
      ReportOfRun(text1, text2, r, cutoff);
      Success(ReportOf(text1, text2, res.value))
  }

  /** The program as written: the run's error, or the report with sections sliced from
      the texts as read. It fails exactly when the corrected program does, and agrees with
      it when neither text starts with whitespace. */
  function OutputAsWritten(text1: string, text2: string, r: nat, cutoff: Cutoff): (out: Result<Report, Error>)
    ensures out.Failure? <==> Output(text1, text2, r, cutoff).Failure?
    ensures out.Failure? ==> out.error == Output(text1, text2, r, cutoff).error
    ensures Leading(text1) == 0 && Leading(text2) == 0 ==> out == Output(text1, text2, r, cutoff)
  {
    var res := Run(text1, text2, r, cutoff);
    if res.Failure? then Failure(res.error)
    else
      ReportOfRun(text1, text2, r, cutoff);
      Success(ReportAsWritten(text1, text2, res.value))
  }
}
