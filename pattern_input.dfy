/**
 * Reading a pattern typed by the user (main.py, parse_pattern_input): strip,
 * upper-case, then map each of five characters to a mark.
 */
module PatternInput {
  import opened Wrappers
  import opened Words
  import opened Pattern

  /** Python's `str.isspace`: the characters `str.strip()` removes by default. */
  predicate IsSpace(c: char) {
    || c == ' ' || '\t' <= c <= '\r' || '\U{1C}' <= c <= '\U{1F}'
    || c == '\U{85}' || c == '\U{A0}' || c == '\U{1680}' || '\U{2000}' <= c <= '\U{200A}'
    || c == '\U{2028}' || c == '\U{2029}' || c == '\U{202F}' || c == '\U{205F}' || c == '\U{3000}'
  }

  predicate AllSpace(s: string) {
    forall i :: 0 <= i < |s| ==> IsSpace(s[i])
  }

  /** Drops leading whitespace: the result is the suffix after a maximal run of spaces. */
  function StripLeft(s: string): (r: string)
    ensures |r| <= |s| && r == s[|s| - |r|..]
    ensures AllSpace(s[..|s| - |r|])
    ensures |r| > 0 ==> !IsSpace(r[0])
  {
    if |s| > 0 && IsSpace(s[0]) then
      var rest := s[1..];
      var r := StripLeft(rest);
      StripLeftStep(s, r);
      r
    else s
  }

  /** Stripping a leading space keeps the shape of what StripLeft of the rest removed. */
  lemma StripLeftStep(s: string, r: string)
    requires |s| > 0 && IsSpace(s[0]) && |r| <= |s| - 1
    requires r == s[1..][|s| - 1 - |r|..] && AllSpace(s[1..][..|s| - 1 - |r|])
    ensures r == s[|s| - |r|..] && AllSpace(s[..|s| - |r|])
  {
    var rest := s[1..];
    assert rest[|rest| - |r|..] == s[|s| - |r|..];
    assert s[..|s| - |r|] == [s[0]] + rest[..|rest| - |r|];
  }

  /** Drops trailing whitespace: the result is the prefix before a maximal run of spaces. */
  function StripRight(s: string): (r: string)
    ensures |r| <= |s| && r == s[..|r|]
    ensures AllSpace(s[|r|..])
    ensures |r| > 0 ==> !IsSpace(r[|r| - 1])
  {
    if |s| > 0 && IsSpace(s[|s| - 1]) then
      var rest := s[..|s| - 1];
      var r := StripRight(rest);
      assert rest[..|r|] == s[..|r|];
      assert s[|r|..] == rest[|r|..] + [s[|s| - 1]];
      r
    else s
  }

  /** Python's `str.strip()`. */
  function Strip(s: string): string {
    StripRight(StripLeft(s))
  }

  /** The mark a typed character stands for, if any. */
  function MarkOf(c: char): (r: Option<int>)
    ensures r.Some? ==> IsMark(r.value)
  {
    if c == 'G' || c == '2' then Some(GREEN)
    else if c == 'Y' || c == '1' then Some(YELLOW)
    else if c in "_B0-." then Some(GRAY)
    else None
  }

  /** Every character read as a mark, or None if one is not a mark. */
  function ParseMarks(t: string): (r: Option<seq<int>>)
    ensures r.Some? ==> |r.value| == |t| && forall i :: 0 <= i < |t| ==> IsMark(r.value[i])
  {
    if forall i :: 0 <= i < |t| ==> MarkOf(t[i]).Some? then
      Some(seq(|t|, i requires 0 <= i < |t| && MarkOf(t[i]).Some? => MarkOf(t[i]).value))
    else None
  }

  /** The parse: five characters after strip and upper-case, each a known mark. */
  function ParsePattern(s: string): (r: Option<seq<int>>)
    ensures r.Some? ==> ValidPattern(r.value)
    ensures |Upper(Strip(s))| != Length ==> r == None
  {
    var t := Upper(Strip(s));
    if |t| == Length then ParseMarks(t) else None
  }

  /** `parse_pattern_input`: None for the wrong length or an unknown character. */
  method ParsePatternInput(patternStr: string) returns (r: Option<seq<int>>)
    ensures r == ParsePattern(patternStr)
  {
    var text := Upper(Strip(patternStr));
    if |text| != Length {
      return None;
    }
    var pattern: seq<int> := [];
    for i := 0 to |text|
      invariant |pattern| == i
      invariant forall j :: 0 <= j < i ==> MarkOf(text[j]).Some? && pattern[j] == MarkOf(text[j]).value
    {
      var c := text[i];
      if c == 'G' || c == '2' {
        pattern := pattern + [GREEN];
      } else if c == 'Y' || c == '1' {
        pattern := pattern + [YELLOW];
      } else if c in "_B0-." {
        pattern := pattern + [GRAY];
      } else {
        assert MarkOf(text[i]).None?;
        return None;
      }
    }
    assert pattern == seq(|text|, i requires 0 <= i < |text| && MarkOf(text[i]).Some? => MarkOf(text[i]).value);
    return Some(pattern);
  }

  /** The text form has no whitespace to strip and nothing to upper-case. */
  lemma TextIsCanonical(p: seq<int>)
    requires ValidPattern(p)
    ensures Upper(Strip(PatternToText(p))) == PatternToText(p)
  {
    var text := PatternToText(p);
    assert !IsSpace(text[0]) && !IsSpace(text[Length - 1]);
    assert StripLeft(text) == text;
    assert StripRight(text) == text;
    assert forall i :: 0 <= i < |text| ==> UpperChar(text[i]) == text[i];
    assert Upper(text) == text;
  }

  /** The text form of a pattern reads back as the same pattern. */
  lemma ParseRoundTrip(p: seq<int>)
    requires ValidPattern(p)
    ensures ParsePattern(PatternToText(p)) == Some(p)
  {
    var text := PatternToText(p);
    TextIsCanonical(p);
    assert forall i :: 0 <= i < |text| ==> MarkOf(text[i]) == Some(p[i]);
    assert seq(|text|, i requires 0 <= i < |text| && MarkOf(text[i]).Some? => MarkOf(text[i]).value) == p;
  }

  lemma {:induction false} StripLeftSkip(pre: string, s: string)
    requires AllSpace(pre)
    ensures StripLeft(pre + s) == StripLeft(s)
  {
    if |pre| > 0 {
      assert (pre + s)[1..] == pre[1..] + s;
      StripLeftSkip(pre[1..], s);
    } else {
      assert pre + s == s;
    }
  }

  lemma {:induction false} StripRightSkip(s: string, post: string)
    requires AllSpace(post)
    ensures StripRight(s + post) == StripRight(s)
  {
    if |post| > 0 {
      assert (s + post)[..|s + post| - 1] == s + post[..|post| - 1];
      StripRightSkip(s, post[..|post| - 1]);
    } else {
      assert s + post == s;
    }
  }

  /** Where s has a non-space character, trailing text does not change what StripLeft removes. */
  lemma {:induction false} StripLeftAppend(s: string, post: string)
    requires !AllSpace(s)
    ensures StripLeft(s + post) == StripLeft(s) + post
  {
    if IsSpace(s[0]) {
      assert (s + post)[1..] == s[1..] + post;
      assert !AllSpace(s[1..]) by {
        var i :| 0 <= i < |s| && !IsSpace(s[i]);
        assert s[1..][i - 1] == s[i];
      }
      StripLeftAppend(s[1..], post);
    }
  }

  lemma StripLeftAllSpace(s: string)
    requires AllSpace(s)
    ensures StripLeft(s) == []
  {
  }

  lemma StripSurrounding(pre: string, s: string, post: string)
    requires AllSpace(pre) && AllSpace(post)
    ensures Strip(pre + s + post) == Strip(s)
  {
    assert pre + s + post == pre + (s + post);
    StripLeftSkip(pre, s + post);
    if AllSpace(s) {
      assert AllSpace(s + post);
      StripLeftAllSpace(s + post);
      StripLeftAllSpace(s);
    } else {
      StripLeftAppend(s, post);
      StripRightSkip(StripLeft(s), post);
    }
  }

  /** Whitespace around the typed pattern is ignored. */
  lemma SurroundingSpaceIgnored(pre: string, s: string, post: string)
    requires AllSpace(pre) && AllSpace(post)
    ensures ParsePattern(pre + s + post) == ParsePattern(s)
  {
    StripSurrounding(pre, s, post);
  }

  /** Upper-casing neither creates nor removes whitespace. */
  lemma UpperKeepsSpace(c: char)
    ensures IsSpace(UpperChar(c)) == IsSpace(c)
  {
    if 'a' <= c <= 'z' {
      assert 'A' <= UpperChar(c) <= 'Z';
    }
  }

  lemma {:induction false} StripLeftUpper(s: string)
    ensures StripLeft(Upper(s)) == Upper(StripLeft(s))
  {
    if |s| > 0 {
      UpperKeepsSpace(s[0]);
      assert Upper(s)[1..] == Upper(s[1..]);
      StripLeftUpper(s[1..]);
    }
  }

  lemma {:induction false} StripRightUpper(s: string)
    ensures StripRight(Upper(s)) == Upper(StripRight(s))
  {
    if |s| > 0 {
      UpperKeepsSpace(s[|s| - 1]);
      assert Upper(s)[..|s| - 1] == Upper(s[..|s| - 1]);
      StripRightUpper(s[..|s| - 1]);
    }
  }

  /** Lower-case input is accepted: g, y and b parse like G, Y and B. */
  lemma CaseIgnored(s: string)
    ensures ParsePattern(Upper(s)) == ParsePattern(s)
  {
    StripLeftUpper(s);
    StripRightUpper(StripLeft(s));
    UpperIsUpper(Strip(s));
  }
}
