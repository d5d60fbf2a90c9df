/** Character classes, ASCII case mapping and the answer normalisation that
    sizes the answer grid and is the target of part mapping and guesses. */
module Text {

  /** The `\s` class of the source's regular expression, restricted to ASCII:
      space, tab, line feed, vertical tab, form feed and carriage return. */
  predicate IsWhitespace(c: char) {
    c == ' ' || c == '\t' || c == '\n' || c == '\U{B}' || c == '\U{C}' || c == '\r'
  }

  predicate IsLowerLetter(c: char) { 'a' <= c <= 'z' }

  predicate IsUpperLetter(c: char) { 'A' <= c <= 'Z' }

  predicate IsLetter(c: char) { IsLowerLetter(c) || IsUpperLetter(c) }

  /** `toUpperCase` on one character, over ASCII. */
  function UpperChar(c: char): char {
    if IsLowerLetter(c) then (c as int - 32) as char else c
  }

  /** `toLowerCase` on one character, over ASCII. */
  function LowerChar(c: char): char {
    if IsUpperLetter(c) then (c as int + 32) as char else c
  }

  /** `toUpperCase`, over ASCII: no lower-case letter is left. */
  function UpperCase(s: string): (r: string)
    ensures |r| == |s| && forall i :: 0 <= i < |r| ==> !IsLowerLetter(r[i])
  {
    seq(|s|, i requires 0 <= i < |s| => UpperChar(s[i]))
  }

  /** `toLowerCase`, over ASCII: no upper-case letter is left. */
  function LowerCase(s: string): (r: string)
    ensures |r| == |s| && forall i :: 0 <= i < |r| ==> !IsUpperLetter(r[i])
  {
    seq(|s|, i requires 0 <= i < |s| => LowerChar(s[i]))
  }

  /** Case mapping character by character: the case-mapped text is `t`
      when every character of `s` maps to the character of `t` at the same
      position. */
  lemma LowerCaseIs(s: string, t: string)
    requires |s| == |t| && forall i :: 0 <= i < |s| ==> LowerChar(s[i]) == t[i]
    ensures LowerCase(s) == t
  {
  }

  lemma UpperCaseIs(s: string, t: string)
    requires |s| == |t| && forall i :: 0 <= i < |s| ==> UpperChar(s[i]) == t[i]
    ensures UpperCase(s) == t
  {
  }

  /** Lower-casing forgets an earlier upper-casing, so a case-insensitive
      lookup gives the same answer for a string and its upper-case form. */
  lemma LowerOfUpper(s: string)
    ensures LowerCase(UpperCase(s)) == LowerCase(s)
  {
    forall i | 0 <= i < |s|
      ensures LowerCase(UpperCase(s))[i] == LowerCase(s)[i]
    {
      var c := s[i];
      if IsLowerLetter(c) {
        assert UpperChar(c) as int == c as int - 32;
        assert LowerChar(UpperChar(c)) as int == c as int;
      }
    }
  }

  /** Drops the leading run of whitespace. */
  function SkipWhitespace(s: string): (r: string)
    ensures |r| <= |s|
    ensures r == [] || !IsWhitespace(r[0])
  {
    if s != [] && IsWhitespace(s[0]) then SkipWhitespace(s[1..]) else s
  }

  /** `s.replace(/\s+/g, "")`: every maximal run of whitespace is replaced by
      the empty string, scanning left to right. */
  function RemoveWhitespaceRuns(s: string): (r: string)
    ensures |r| <= |s|
    ensures forall i :: 0 <= i < |r| ==> !IsWhitespace(r[i])
    decreases |s|
  {
    if s == [] then []
    else if IsWhitespace(s[0]) then RemoveWhitespaceRuns(SkipWhitespace(s[1..]))
    else [s[0]] + RemoveWhitespaceRuns(s[1..])
  }

  /** Reference definition: delete each whitespace character on its own. */
  function DeleteWhitespace(s: string): string {
    if s == [] then [] else (if IsWhitespace(s[0]) then [] else [s[0]]) + DeleteWhitespace(s[1..])
  }

  lemma {:induction false} DeleteWhitespaceConcat(a: string, b: string)
    ensures DeleteWhitespace(a + b) == DeleteWhitespace(a) + DeleteWhitespace(b)
  {
    if a != [] {
      assert (a + b)[1..] == a[1..] + b;
      DeleteWhitespaceConcat(a[1..], b);
    } else {
      assert a + b == b;
    }
  }

  lemma {:induction false} DeleteSkippedRun(s: string)
    ensures DeleteWhitespace(s) == DeleteWhitespace(SkipWhitespace(s))
  {
    if s != [] && IsWhitespace(s[0]) {
      DeleteSkippedRun(s[1..]);
    }
  }

  /** Replacing whitespace runs by nothing is the same as deleting every
      whitespace character one at a time. */
  lemma {:induction false} RunsAreDeletedCharwise(s: string)
    ensures RemoveWhitespaceRuns(s) == DeleteWhitespace(s)
    decreases |s|
  {
    if s == [] {
    } else if IsWhitespace(s[0]) {
      var rest := SkipWhitespace(s[1..]);
      RunsAreDeletedCharwise(rest);
      DeleteSkippedRun(s[1..]);
    } else {
      RunsAreDeletedCharwise(s[1..]);
    }
  }

  /** The normalised answer, `(answer || "").replace(/\s+/g, "").toUpperCase()`:
      it holds no whitespace and no lower-case letter, and is never longer
      than the answer. */
  function NormalizeAnswer(answer: string): (r: string)
    ensures |r| <= |answer|
    ensures forall i :: 0 <= i < |r| ==> !IsWhitespace(r[i]) && !IsLowerLetter(r[i])
  {
    UpperCase(RemoveWhitespaceRuns(answer))
  }

  /** Normalisation works character by character, in order: the answer with
      every whitespace character deleted and every other one upper-cased.
      Together with NormalizeAnswerChar this determines NormalizeAnswer. */
  lemma NormalizeAnswerConcat(a: string, b: string)
    ensures NormalizeAnswer(a + b) == NormalizeAnswer(a) + NormalizeAnswer(b)
  {
    RunsAreDeletedCharwise(a + b);
    RunsAreDeletedCharwise(a);
    RunsAreDeletedCharwise(b);
    DeleteWhitespaceConcat(a, b);
  }

  lemma NormalizeAnswerChar(c: char)
    ensures NormalizeAnswer([c]) == if IsWhitespace(c) then [] else [UpperChar(c)]
  {
    RunsAreDeletedCharwise([c]);
    assert DeleteWhitespace([c]) == (if IsWhitespace(c) then [] else [c]) + DeleteWhitespace([]);
  }

  /** Text without whitespace or lower-case letters is already normalised. */
  lemma NormalizedIsFixed(s: string)
    requires forall i :: 0 <= i < |s| ==> !IsWhitespace(s[i]) && !IsLowerLetter(s[i])
    ensures NormalizeAnswer(s) == s
  {
    NoWhitespaceIsKept(s);
    forall i | 0 <= i < |s| ensures UpperChar(s[i]) == s[i] {}
  }

  /** Normalising an already normalised answer changes nothing. */
  lemma NormalizeAnswerIdempotent(answer: string)
    ensures NormalizeAnswer(NormalizeAnswer(answer)) == NormalizeAnswer(answer)
  {
    NormalizedIsFixed(NormalizeAnswer(answer));
  }

  lemma {:induction false} NoWhitespaceIsKept(s: string)
    requires forall i :: 0 <= i < |s| ==> !IsWhitespace(s[i])
    ensures RemoveWhitespaceRuns(s) == s
  {
    if s != [] {
      NoWhitespaceIsKept(s[1..]);
    }
  }
}
