/** ASCII character classes and the string operations the tokenizer relies on:
    Python's `str.strip`, `str.lower` and splitting and joining on single spaces. */
module Text {

  /** Python's `str.isspace` on ASCII: space, tab, line feed, vertical tab, form feed,
      carriage return and the separators 0x1C-0x1F. These are what `str.strip()` removes. */
  predicate IsWhitespace(c: char) {
    c == ' ' || 9 <= c as int <= 13 || 28 <= c as int <= 31
  }

  predicate IsUpper(c: char) {
    'A' <= c <= 'Z'
  }

  /** Python's `str.isalnum` on ASCII. */
  predicate IsAlnum(c: char) {
    'a' <= c <= 'z' || IsUpper(c) || '0' <= c <= '9'
  }

  /** A character a token may contain once lowered: a lower-case letter or a digit. */
  predicate IsWordChar(c: char) {
    'a' <= c <= 'z' || '0' <= c <= '9'
  }

  /** Python's `str.lower` on one ASCII character. */
  function LowerChar(c: char): (d: char)
    ensures !IsUpper(d)
    ensures IsAlnum(c) <==> IsWordChar(d)
    ensures IsWhitespace(c) <==> IsWhitespace(d)
    ensures c == ' ' <==> d == ' '
  {
    if IsUpper(c) then (c as int + 32) as char else c
  }

  function Lower(s: string): (r: string)
    ensures |r| == |s|
    ensures forall i :: 0 <= i < |s| ==> r[i] == LowerChar(s[i])
  {
    seq(|s|, i requires 0 <= i < |s| => LowerChar(s[i]))
  }

  /** Number of whitespace characters at the start of `s`. */
  function Leading(s: string): (n: nat)
    ensures n <= |s|
    ensures forall i :: 0 <= i < n ==> IsWhitespace(s[i])
    ensures n < |s| ==> !IsWhitespace(s[n])
  {
    if |s| > 0 && IsWhitespace(s[0]) then 1 + Leading(s[1..]) else 0
  }

  /** Number of whitespace characters at the end of `s`. */
  function Trailing(s: string): (n: nat)
    ensures n <= |s|
    ensures forall i :: |s| - n <= i < |s| ==> IsWhitespace(s[i])
    ensures n < |s| ==> !IsWhitespace(s[|s| - n - 1])
  {
    if |s| > 0 && IsWhitespace(s[|s| - 1]) then 1 + Trailing(s[..|s| - 1]) else 0
  }

  /** Python's `s.strip()`: the longest middle part of `s` that neither starts nor ends
      with whitespace; everything cut off on either side is whitespace. */
  function Strip(s: string): (r: string)
    ensures Leading(s) + |r| <= |s|
    ensures r == s[Leading(s)..Leading(s) + |r|]
    ensures forall i :: 0 <= i < Leading(s) ==> IsWhitespace(s[i])
    ensures forall i :: Leading(s) + |r| <= i < |s| ==> IsWhitespace(s[i])
    ensures |r| > 0 ==> !IsWhitespace(r[0]) && !IsWhitespace(r[|r| - 1])
  {
    var t := s[Leading(s)..];
    t[..|t| - Trailing(t)]
  }

  /** `strip()` ignores one more space in front. */
  lemma StripLeadingSpace(t: string)
    ensures Leading(" " + t) == Leading(t) + 1
    ensures Strip(" " + t) == Strip(t)
  {
    assert (" " + t)[1..] == t;
    assert (" " + t)[Leading(" " + t)..] == t[Leading(t)..];
  }

  /** `" ".join(parts)`. */
  function Join(parts: seq<string>): string
    requires |parts| > 0
  {
    if |parts| == 1 then parts[0] else Join(parts[..|parts| - 1]) + " " + parts[|parts| - 1]
  }

  /** Index of the last space in `s`, or -1 when there is none. */
  function LastSpace(s: string): (k: int)
    ensures -1 <= k < |s|
    ensures k >= 0 ==> s[k] == ' '
    ensures forall j :: k < j < |s| ==> s[j] != ' '
  {
    if |s| == 0 then -1 else if s[|s| - 1] == ' ' then |s| - 1 else LastSpace(s[..|s| - 1])
  }

  /** Python's `s.split(" ")`: the pieces between single spaces, empty ones included. */
  function Split(s: string): (parts: seq<string>)
    ensures |parts| > 0
    ensures forall p :: p in parts ==> ' ' !in p
    decreases |s|
  {
    var k := LastSpace(s);
    if k < 0 then [s] else Split(s[..k]) + [s[k + 1..]]
  }

  /** Joining the pieces of a split gives the string back. */
  lemma {:induction false} JoinSplit(s: string)
    ensures Join(Split(s)) == s
    decreases |s|
  {
    var k := LastSpace(s);
    if k >= 0 {
      JoinSplit(s[..k]);
      var parts := Split(s[..k]) + [s[k + 1..]];
      assert parts[..|parts| - 1] == Split(s[..k]);
      assert s == s[..k] + " " + s[k + 1..];
    }
  }

  /** Splitting the join of space-free pieces gives the pieces back. */
  lemma {:induction false} SplitJoin(parts: seq<string>)
    requires |parts| > 0
    requires forall p :: p in parts ==> ' ' !in p
    ensures Split(Join(parts)) == parts
    decreases |parts|
  {
    var j := Join(parts);
    if |parts| == 1 {
      assert forall i :: 0 <= i < |j| ==> j[i] != ' ' by {
        forall i | 0 <= i < |j|
          ensures j[i] != ' '
        {
          assert j[i] in parts[0];
        }
      }
    } else {
      var init := parts[..|parts| - 1];
      var last := parts[|parts| - 1];
      assert forall p :: p in init ==> p in parts;
      var ji := Join(init);
      assert j == ji + " " + last;
      LastPieceSplit(ji, last);
      SplitJoin(init);
      assert parts == init + [last];
    }
  }

  /** The last space of `ji + " " + last` is the one before a space-free `last`, so a split
      peels `last` off. */
  lemma LastPieceSplit(ji: string, last: string)
    requires ' ' !in last
    ensures Split(ji + " " + last) == Split(ji) + [last]
  {
    var j := ji + " " + last;
    var k := LastSpace(j);
    assert j[|ji|] == ' ';
    forall i | |ji| < i < |j|
      ensures j[i] != ' '
    {
      assert j[i] == last[i - |ji| - 1];
      assert last[i - |ji| - 1] in last;
    }
    assert k == |ji|;
    assert j[..k] == ji;
    assert j[k + 1..] == last;
  }

  /** A join starts with its first piece's first character, or, when the first piece is
      empty and others follow, with the space that separates it from the next. */
  lemma {:induction false} JoinStartsWithFirst(parts: seq<string>)
    requires |parts| > 0
    ensures |parts[0]| > 0 ==> |Join(parts)| > 0 && Join(parts)[0] == parts[0][0]
    ensures |parts[0]| == 0 && |parts| > 1 ==> |Join(parts)| > 0 && Join(parts)[0] == ' '
    decreases |parts|
  {
    if |parts| > 1 {
      var init := parts[..|parts| - 1];
      assert init[0] == parts[0];
      JoinStartsWithFirst(init);
      assert Join(parts) == Join(init) + " " + parts[|parts| - 1];
      if |init| == 1 {
        assert Join(init) == parts[0];
      }
    }
  }
}
