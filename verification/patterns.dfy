/**
 * The three regular expressions of the quiz parser, written out as character-level definitions:
 *   `/^[a-d]\)/`            recognises an option line,
 *   `/^([a-d]\))\s*(.*)/`   splits an option line into its key and its text,
 *   `/Answer:\s*([a-d])/`   finds the letter of an answer line (unanchored: leftmost match).
 */
module Patterns {
  import opened Wrappers
  import opened Text

  const AnswerPrefix: string := "Answer:"

  /** The letters `[a-d]`. */
  predicate IsOptionKey(c: char)
  {
    'a' <= c <= 'd'
  }

  /** `/^[a-d]\)/` matches `line`. */
  predicate IsOptionLine(line: string)
  {
    |line| >= 2 && IsOptionKey(line[0]) && line[1] == ')'
  }

  /** `line.startsWith('Answer:')`. */
  predicate IsAnswerLine(line: string)
  {
    StartsWith(line, AnswerPrefix)
  }

  /** The option text: group 2 of `/^([a-d]\))\s*(.*)/`, then `trim()`. The greedy `\s*` drops the
      leading whitespace and `(.*)` stops at the first line terminator. */
  function OptionValue(line: string): (v: string)
    requires IsOptionLine(line)
    ensures |v| <= |line| - 2
    ensures v == [] || (!IsWhiteSpace(v[0]) && !IsWhiteSpace(v[|v| - 1]))
  {
    TrimStartSpec(line[2..]);
    UntilLineTerminatorSpec(TrimStart(line[2..]));
    Trim(UntilLineTerminator(TrimStart(line[2..])))
  }

  /** The option text carries no surrounding whitespace and no line terminator, and on a line
      without a line terminator it is simply the trimmed text after the `x)` marker. */
  lemma OptionValueShape(line: string)
    requires IsOptionLine(line)
    ensures forall k :: 0 <= k < |OptionValue(line)| ==> !IsLineTerminator(OptionValue(line)[k])
    ensures OptionValue(line) == [] || !IsWhiteSpace(OptionValue(line)[0])
    ensures (forall k :: 0 <= k < |line| ==> !IsLineTerminator(line[k])) ==> OptionValue(line) == Trim(line[2..])
  {
    OptionValueNoTerminator(line);
    if forall k :: 0 <= k < |line| ==> !IsLineTerminator(line[k]) {
      OptionValueOfPlainLine(line);
    }
  }

  /** `(.*)` stops before any line terminator, and trimming only removes characters. */
  lemma OptionValueNoTerminator(line: string)
    requires IsOptionLine(line)
    ensures forall k :: 0 <= k < |OptionValue(line)| ==> !IsLineTerminator(OptionValue(line)[k])
  {
    var rest := TrimStart(line[2..]);
    var body := UntilLineTerminator(rest);
    var t := TrimStart(body);
    var v := TrimEnd(t);
    assert v == OptionValue(line);
    UntilLineTerminatorSpec(rest);
    TrimStartSpec(body);
    TrimEndSpec(t);
    forall k | 0 <= k < |v| ensures !IsLineTerminator(v[k]) {
      assert v[k] == t[k] == body[k + |body| - |t|];
    }
  }

  /** Without a line terminator, `(.*)` takes everything after the whitespace `\s*` consumed. */
  lemma OptionValueOfPlainLine(line: string)
    requires IsOptionLine(line)
    requires forall k :: 0 <= k < |line| ==> !IsLineTerminator(line[k])
    ensures OptionValue(line) == Trim(line[2..])
  {
    var rest := TrimStart(line[2..]);
    TrimStartSpec(line[2..]);
    NoTerminatorSuffix(line, rest);
    TrimStartIdempotent(line[2..]);
  }

  /** A suffix of a line without line terminators is captured whole by `(.*)`. */
  lemma NoTerminatorSuffix(line: string, rest: string)
    requires forall k :: 0 <= k < |line| ==> !IsLineTerminator(line[k])
    requires |rest| <= |line| - 2 && rest == line[2..][|line| - 2 - |rest|..]
    ensures UntilLineTerminator(rest) == rest
  {
    forall k | 0 <= k < |rest| ensures !IsLineTerminator(rest[k]) {
      assert rest[k] == line[k + |line| - |rest|];
    }
    UntilLineTerminatorSpec(rest);
    assert rest[..|rest|] == rest;
  }

  /** `/Answer:\s*([a-d])/` tried at position `p` only: the captured letter, if it matches there.
      Backtracking into `\s*` never helps, since `[a-d]` matches no whitespace. */
  function MatchAt(line: string, p: nat): (r: Option<char>)
    ensures r.Some? ==> IsOptionKey(r.value)
  {
    if p + |AnswerPrefix| <= |line| && line[p..p + |AnswerPrefix|] == AnswerPrefix then
      var rest := TrimStart(line[p + |AnswerPrefix|..]);
      if rest != [] && IsOptionKey(rest[0]) then Some(rest[0]) else None
    else
      None
  }

  /** The leftmost position at or after `from` where the answer pattern matches. */
  function FirstMatch(line: string, from: nat): (r: Option<nat>)
    ensures r.Some? ==> from <= r.value && MatchAt(line, r.value).Some?
    ensures r.Some? ==> forall q :: from <= q < r.value ==> MatchAt(line, q).None?
    ensures r.None? ==> forall q :: from <= q ==> MatchAt(line, q).None?
    decreases |line| - from
  {
    if from + |AnswerPrefix| > |line| then None
    else if MatchAt(line, from).Some? then Some(from)
    else FirstMatch(line, from + 1)
  }

  /** `line.match(/Answer:\s*([a-d])/)[1]`, or None when there is no match. */
  function AnswerLetter(line: string): (r: Option<char>)
    ensures r.Some? ==> IsOptionKey(r.value)
  {
    match FirstMatch(line, 0)
    case None => None
    case Some(p) => MatchAt(line, p)
  }

  /** The letter is the one captured by the leftmost match of the pattern, and there is
      none exactly when the pattern matches nowhere in the line. */
  lemma AnswerLetterIsLeftmostMatch(line: string)
    ensures AnswerLetter(line).None? <==> forall p: nat :: MatchAt(line, p).None?
    ensures AnswerLetter(line).Some? ==> IsOptionKey(AnswerLetter(line).value)
    ensures AnswerLetter(line).Some? ==>
              exists p: nat :: MatchAt(line, p) == AnswerLetter(line) && forall q: nat :: q < p ==> MatchAt(line, q).None?
  {
    match FirstMatch(line, 0)
    case None =>
    case Some(p) =>
      assert MatchAt(line, p) == AnswerLetter(line);
  }

  /** On a line that starts with `Answer:` followed by optional whitespace and a letter, that
      letter is the answer. */
  lemma AnswerLetterAtStart(line: string, c: char)
    requires IsAnswerLine(line)
    requires IsOptionKey(c)
    requires TrimStart(line[|AnswerPrefix|..]) != [] && TrimStart(line[|AnswerPrefix|..])[0] == c
    ensures AnswerLetter(line) == Some(c)
  {
    assert MatchAt(line, 0) == Some(c);
  }

  /** A match at `p`, with none before it from `from` on, is the leftmost one. */
  lemma FirstMatchIs(line: string, from: nat, p: nat)
    requires from <= p && MatchAt(line, p).Some?
    requires forall q :: from <= q < p ==> MatchAt(line, q).None?
    ensures FirstMatch(line, from) == Some(p)
  {
  }

  /** The pattern cannot match where the line has no `A`. */
  lemma NoMatchWithoutA(line: string, q: nat)
    requires q < |line| && line[q] != 'A'
    ensures MatchAt(line, q).None?
  {
    if q + |AnswerPrefix| <= |line| {
      assert line[q..q + |AnswerPrefix|][0] == line[q];
    }
  }

  /** Nor anywhere in a stretch of the line with no `A`. */
  lemma NoMatchInStretch(line: string, lo: nat, hi: nat)
    requires lo <= hi <= |line| && 'A' !in line[lo..hi]
    ensures forall q :: lo <= q < hi ==> MatchAt(line, q).None?
  {
    forall q | lo <= q < hi ensures MatchAt(line, q).None? {
      assert line[q] == line[lo..hi][q - lo];
      NoMatchWithoutA(line, q);
    }
  }

  /** The pattern is not anchored: a bad first letter does not stop a later match. */
  lemma AnswerLetterUnanchored()
    ensures AnswerLetter("Answer: e or Answer: c") == Some('c')
  {
    var line := "Answer: e or Answer: c";
    SecondMatch();
    FirstMatchFails();
    NoMatchBetween();
    FirstMatchIs(line, 0, 13);
  }

  lemma SecondMatch()
    ensures MatchAt("Answer: e or Answer: c", 13) == Some('c')
  {
    var line := "Answer: e or Answer: c";
    assert line[13..20] == AnswerPrefix;
    assert line[20..] == " c";
    assert TrimStart(" c") == "c";
  }

  lemma NoMatchBetween()
    ensures forall q :: 1 <= q < 13 ==> MatchAt("Answer: e or Answer: c", q).None?
  {
    var line := "Answer: e or Answer: c";
    assert line[1..13] == "nswer: e or ";
    NoMatchInStretch(line, 1, 13);
  }

  lemma FirstMatchFails()
    ensures MatchAt("Answer: e or Answer: c", 0).None?
  {
    var line := "Answer: e or Answer: c";
    assert line[..7] == AnswerPrefix;
    assert line[7] == ' ' && line[8] == 'e';
    SkipOneSpace(line[7..]);
  }

  /** After one space and a character that is not whitespace, the text starts at that character. */
  lemma SkipOneSpace(s: string)
    requires |s| >= 2 && s[0] == ' ' && !IsWhiteSpace(s[1])
    ensures TrimStart(s) == s[1..] && TrimStart(s)[0] == s[1]
  {
  }

}
