/**
 * What `parseQuestions` guarantees about its output: the shape of every question it emits,
 * which question lines are emitted and in what order, how option and answer lines act on the
 * open question, and that blank lines do not matter.
 */
module ParserFacts {
  import opened Wrappers
  import opened Text
  import opened Patterns
  import opened Questions
  import opened Parser

  /** A line that opens a new question: not blank, not an answer line, not an option line. */
  predicate IsQuestionLine(line: string)
  {
    Classify(line).QuestionLine?
  }

  /** A question text ends in its only `?`. */
  predicate WellFormedText(t: string)
  {
    |t| >= 1 && t[|t| - 1] == '?' && '?' !in t[..|t| - 1]
  }

  /** What holds of every question the parser builds. */
  predicate QuestionOk(q: Question)
  {
    && WellFormedText(q.question)
    && DistinctKeys(q.options)
    && (forall c :: c in Keys(q.options) ==> IsOptionKey(c))
    && (q.correctAnswer.Some? ==> IsOptionKey(q.correctAnswer.value))
    && q.userAnswer.None?
  }

  /** The loop invariant: emitted questions are well formed, the open one also has no answer yet. */
  predicate StateOk(st: ParseState)
  {
    && (forall q :: q in st.questions ==> QuestionOk(q))
    && (st.current.Some? ==> QuestionOk(st.current.value) && st.current.value.correctAnswer.None?)
  }

  /** What the classification of a line guarantees. */
  predicate KindOk(kind: LineKind)
  {
    match kind
    case Blank => true
    case OptionLine(key, _) => IsOptionKey(key)
    case QuestionLine(text) => WellFormedText(text)
    case AnswerLine(letter) => letter.Some? ==> IsOptionKey(letter.value)
  }

  // ---------------------------------------------------------------------------------------------
  // Question text

  /** The question text is the line up to and including its first `?`, or the whole line with a
      `?` appended; either way it ends in `?` and holds exactly one `?`. */
  lemma QuestionTextShape(line: string)
    ensures WellFormedText(QuestionText(line))
    ensures multiset(QuestionText(line))['?'] == 1
    ensures '?' in line ==> QuestionText(line) == line[..IndexOf(line, '?') + 1]
    ensures '?' !in line ==> QuestionText(line) == line + "?"
  {
    QuestionTextPrefix(line);
    var i := IndexOf(line, '?');
    OneMark(line[..i]);
    if '?' in line {
      MarkFound(line);
    } else {
      IndexOfAbsent(line, '?');
      assert line[..i] == line;
    }
  }

  /** The question text is the line before its first `?`, then a `?`. */
  lemma QuestionTextPrefix(line: string)
    ensures IndexOf(line, '?') <= |line| && '?' !in line[..IndexOf(line, '?')]
    ensures QuestionText(line) == line[..IndexOf(line, '?')] + "?"
  {
    SplitSpec(line, '?');
    IndexOfSpec(line, '?');
  }

  lemma OneMark(p: string)
    requires '?' !in p
    ensures WellFormedText(p + "?") && multiset(p + "?")['?'] == 1
  {
    var t := p + "?";
    assert t[..|t| - 1] == p;
    assert multiset(t) == multiset(p) + multiset{'?'};
  }

  lemma MarkFound(line: string)
    requires '?' in line
    ensures IndexOf(line, '?') < |line|
    ensures line[..IndexOf(line, '?') + 1] == line[..IndexOf(line, '?')] + "?"
  {
    IndexOfFound(line, '?');
    SliceExtend(line, IndexOf(line, '?'));
  }

  // ---------------------------------------------------------------------------------------------
  // The loop invariant

  /** Classification follows the source's tests, and what it extracts is well formed. */
  lemma ClassifyOk(line: string)
    ensures KindOk(Classify(line))
    ensures Classify(line).QuestionLine? ==> Classify(line).text == QuestionText(line)
    ensures IsQuestionLine(line) <==> Trim(line) != [] && !IsAnswerLine(line) && !IsOptionLine(line)
  {
    if IsQuestionLine(line) {
      QuestionTextShape(line);
    }
  }

  lemma ApplyOk(st: ParseState, kind: LineKind)
    requires StateOk(st) && KindOk(kind)
    ensures StateOk(Apply(st, kind))
  {
    match kind
    case OptionLine(key, value) =>
      if st.current.Some? {
        SetOptionDistinct(st.current.value.options, key, value);
        SetOptionKeys(st.current.value.options, key, value);
      }
    case QuestionLine(text) =>
      assert Keys([]) == [];
    case _ =>
  }

  lemma {:induction false} RunOk(st: ParseState, kinds: seq<LineKind>)
    requires StateOk(st)
    requires forall i :: 0 <= i < |kinds| ==> KindOk(kinds[i])
    ensures StateOk(Run(st, kinds))
    decreases |kinds|
  {
    if kinds != [] {
      ApplyOk(st, kinds[0]);
      RunOk(Apply(st, kinds[0]), kinds[1..]);
    }
  }

  /** Every question `parseQuestions` returns has a text ending in its only `?`, option keys that
      are distinct letters `a`..`d`, a correct answer (if any) in `a`..`d`, and no user answer. */
  lemma ParseOutputWellFormed(text: string)
    ensures forall q :: q in Parse(text) ==> QuestionOk(q)
    ensures forall q :: q in Parse(text) ==> multiset(q.question)['?'] == 1
  {
    var kinds := Kinds(Lines(text));
    forall i | 0 <= i < |kinds| ensures KindOk(kinds[i]) {
      ClassifyOk(Lines(text)[i]);
    }
    assert StateOk(Start);
    RunOk(Start, kinds);
    forall q | q in Parse(text) ensures multiset(q.question)['?'] == 1 {
      var t := q.question;
      assert t == t[..|t| - 1] + ['?'];
      assert multiset(t) == multiset(t[..|t| - 1]) + multiset{'?'};
    }
  }

  // ---------------------------------------------------------------------------------------------
  // Which question lines are emitted, and in what order

  function Texts(qs: seq<Question>): (ts: seq<string>)
    ensures |ts| == |qs| && forall i :: 0 <= i < |qs| ==> ts[i] == qs[i].question
  {
    seq(|qs|, i requires 0 <= i < |qs| => qs[i].question)
  }

  /** The texts a line contributes: its question text if it is a question line. */
  function KindTexts(kind: LineKind): seq<string>
  {
    if kind.QuestionLine? then [kind.text] else []
  }

  /** The question texts of the question lines, in input order. */
  function QuestionLineTexts(kinds: seq<LineKind>): seq<string>
  {
    if kinds == [] then [] else KindTexts(kinds[0]) + QuestionLineTexts(kinds[1..])
  }

  /** The emitted texts followed by the open question's text. */
  function AllTexts(st: ParseState): seq<string>
  {
    Texts(st.questions + Pending(st.current))
  }

  lemma ApplyTexts(st: ParseState, kind: LineKind)
    ensures AllTexts(Apply(st, kind)) == AllTexts(st) + KindTexts(kind)
  {
    var st' := Apply(st, kind);
    match kind
    case QuestionLine(text) =>
      assert st'.questions + Pending(st'.current) == st.questions + Pending(st.current) + [NewQuestion(text)];
    case AnswerLine(letter) =>
      if st.current.Some? && letter.Some? {
        assert st'.questions + Pending(st'.current) == st.questions + [st.current.value.(correctAnswer := letter)];
      }
    case _ =>
  }

  /** Each question line is accounted for exactly once, in order: either it has been emitted
      or it is the open question. */
  lemma {:induction false} RunTexts(st: ParseState, kinds: seq<LineKind>)
    ensures AllTexts(Run(st, kinds)) == AllTexts(st) + QuestionLineTexts(kinds)
    decreases |kinds|
  {
    if kinds != [] {
      var st1 := Apply(st, kinds[0]);
      ApplyTexts(st, kinds[0]);
      RunTexts(st1, kinds[1..]);
      AppendAssoc(AllTexts(st), KindTexts(kinds[0]), QuestionLineTexts(kinds[1..]));
    }
  }

  lemma AppendAssoc<T>(a: seq<T>, b: seq<T>, c: seq<T>)
    ensures a + b + c == a + (b + c)
  {
  }

  /** The questions come out in the order of their question lines; every question line but the
      last is emitted, and the last one is dropped exactly when it is still open at the end. */
  lemma ParseOrder(lines: seq<string>)
    ensures var qt := QuestionLineTexts(Kinds(lines));
            && |qt| - 1 <= |ParseLines(lines)| <= |qt|
            && Texts(ParseLines(lines)) == qt[..|ParseLines(lines)|]
            && (Run(Start, Kinds(lines)).current.Some? <==> |ParseLines(lines)| == |qt| - 1)
  {
    RunTexts(Start, Kinds(lines));
    var end := Run(Start, Kinds(lines));
    assert Texts(end.questions + Pending(end.current)) == QuestionLineTexts(Kinds(lines));
    assert Texts(end.questions) == Texts(end.questions + Pending(end.current))[..|end.questions|];
  }

  // ---------------------------------------------------------------------------------------------
  // Composition

  lemma KindsAppend(a: seq<string>, b: seq<string>)
    ensures Kinds(a + b) == Kinds(a) + Kinds(b)
  {
  }

  lemma {:induction false} RunAppend(st: ParseState, a: seq<LineKind>, b: seq<LineKind>)
    ensures Run(st, a + b) == Run(Run(st, a), b)
    decreases |a|
  {
    if a != [] {
      assert (a + b)[0] == a[0] && (a + b)[1..] == a[1..] + b;
      assert Run(st, a + b) == Run(Apply(st, a[0]), a[1..] + b);
      RunAppend(Apply(st, a[0]), a[1..], b);
    } else {
      assert a + b == b;
    }
  }

  /** Already emitted questions are never touched again. */
  lemma RunKeepsOutput(qs: seq<Question>, current: Option<Question>, kinds: seq<LineKind>)
    ensures var later := Run(ParseState([], current), kinds);
            Run(ParseState(qs, current), kinds) == ParseState(qs + later.questions, later.current)
  {
    RunPrefix(qs, ParseState([], current), kinds);
    assert qs + [] == qs;
  }

  /** Questions emitted before a run are carried through it untouched. */
  lemma {:induction false} RunPrefix(qs: seq<Question>, st: ParseState, kinds: seq<LineKind>)
    ensures Run(ParseState(qs + st.questions, st.current), kinds)
            == ParseState(qs + Run(st, kinds).questions, Run(st, kinds).current)
    decreases |kinds|
  {
    if kinds != [] {
      ApplyPrefix(qs, st, kinds[0]);
      RunPrefix(qs, Apply(st, kinds[0]), kinds[1..]);
    }
  }

  lemma ApplyPrefix(qs: seq<Question>, st: ParseState, kind: LineKind)
    ensures Apply(ParseState(qs + st.questions, st.current), kind)
            == ParseState(qs + Apply(st, kind).questions, Apply(st, kind).current)
  {
    match kind
    case QuestionLine(_) =>
      assert qs + st.questions + Pending(st.current) == qs + (st.questions + Pending(st.current));
    case AnswerLine(_) =>
      if st.current.Some? {
        var q := st.current.value;
        assert forall x: seq<Question> :: qs + st.questions + x == qs + (st.questions + x);
      }
    case _ =>
  }

  /** Input that ends with no question open parses independently of what follows it. */
  lemma ClosedPrefix(a: seq<string>, b: seq<string>)
    requires Run(Start, Kinds(a)).current.None?
    ensures ParseLines(a + b) == ParseLines(a) + ParseLines(b)
    ensures Run(Start, Kinds(a + b)).current == Run(Start, Kinds(b)).current
  {
    KindsAppend(a, b);
    RunAppend(Start, Kinds(a), Kinds(b));
    RunKeepsOutput(ParseLines(a), None, Kinds(b));
  }

  /** Two complete parts of the input come out in the order they are pasted in: swapping
      them swaps their questions. */
  lemma SwapClosedParts(a: seq<string>, b: seq<string>)
    requires Run(Start, Kinds(a)).current.None? && Run(Start, Kinds(b)).current.None?
    ensures ParseLines(a + b) == ParseLines(a) + ParseLines(b)
    ensures ParseLines(b + a) == ParseLines(b) + ParseLines(a)
  {
    ClosedPrefix(a, b);
    ClosedPrefix(b, a);
  }

  // ---------------------------------------------------------------------------------------------
  // Blank lines

  /** Inserting a blank line anywhere changes nothing. */
  lemma BlankLineIgnored(a: seq<string>, blank: string, b: seq<string>)
    requires Trim(blank) == []
    ensures Run(Start, Kinds(a + [blank] + b)) == Run(Start, Kinds(a + b))
  {
    KindsAppend(a + [blank], b);
    KindsAppend(a, [blank]);
    KindsAppend(a, b);
    assert Kinds([blank]) == [Blank];
    RunAppend(Start, Kinds(a) + [Blank], Kinds(b));
    RunAppend(Start, Kinds(a), [Blank]);
    RunAppend(Start, Kinds(a), Kinds(b));
  }

  function NonBlank(lines: seq<string>): (r: seq<string>)
    ensures forall i :: 0 <= i < |r| ==> Trim(r[i]) != []
  {
    if lines == [] then []
    else if Trim(lines[0]) == [] then NonBlank(lines[1..])
    else [lines[0]] + NonBlank(lines[1..])
  }

  /** Removing every blank line changes nothing. */
  lemma {:induction false} BlankLinesIgnored(st: ParseState, lines: seq<string>)
    ensures Run(st, Kinds(NonBlank(lines))) == Run(st, Kinds(lines))
    decreases |lines|
  {
    if lines != [] {
      var k := Classify(lines[0]);
      assert Kinds(lines)[0] == k && Kinds(lines)[1..] == Kinds(lines[1..]);
      BlankLinesIgnored(Apply(st, k), lines[1..]);
      if Trim(lines[0]) != [] {
        KindsAppend([lines[0]], NonBlank(lines[1..]));
        assert Kinds([lines[0]]) == [k];
        assert Kinds(NonBlank(lines))[0] == k && Kinds(NonBlank(lines))[1..] == Kinds(NonBlank(lines[1..]));
      } else {
        BlankLinesIgnored(st, lines[1..]);
      }
    }
  }

  /** In the pasted text itself: a line of whitespace inserted between two lines is ignored. */
  lemma BlankTextLineIgnored(x: string, blank: string, y: string)
    requires '\n' !in blank && Trim(blank) == []
    ensures Parse(x + "\n" + blank + "\n" + y) == Parse(x + "\n" + y)
  {
    SplitAppend(x, blank + "\n" + y, '\n');
    assert x + "\n" + blank + "\n" + y == x + ['\n'] + (blank + ['\n'] + y);
    SplitAppend(blank, y, '\n');
    IndexOfAbsent(blank, '\n');
    assert Split(blank, '\n') == [blank];
    SplitAppend(x, y, '\n');
    assert Lines(x + "\n" + blank + "\n" + y) == Split(x, '\n') + [blank] + Split(y, '\n');
    BlankLineIgnored(Split(x, '\n'), blank, Split(y, '\n'));
  }

  // ---------------------------------------------------------------------------------------------
  // Option lines

  /** While no question is open, at the start or after an answer line has closed one, kinds
      other than question lines leave the state as it is. */
  lemma {:induction false} ClosedStateStays(qs: seq<Question>, kinds: seq<LineKind>)
    requires forall i :: 0 <= i < |kinds| ==> !kinds[i].QuestionLine?
    ensures Run(ParseState(qs, None), kinds) == ParseState(qs, None)
    decreases |kinds|
  {
    if kinds != [] {
      assert Apply(ParseState(qs, None), kinds[0]) == ParseState(qs, None);
      ClosedStateStays(qs, kinds[1..]);
    }
  }

  /** Lines other than question lines change nothing while no question is open: option lines
      and answer lines before the first question are dropped. */
  lemma LeadingLinesDropped(pre: seq<string>, rest: seq<string>)
    requires forall i :: 0 <= i < |pre| ==> !IsQuestionLine(pre[i])
    ensures Run(Start, Kinds(pre + rest)) == Run(Start, Kinds(rest))
  {
    var ks := Kinds(pre);
    forall i | 0 <= i < |ks| ensures !ks[i].QuestionLine? {
      assert ks[i] == Classify(pre[i]);
    }
    ClosedStateStays([], ks);
    KindsAppend(pre, rest);
    RunAppend(Start, ks, Kinds(rest));
  }

  /** A question line opens a question whose text is the line up to its first `?`, then `?`. */
  lemma QuestionLineKind(line: string)
    requires IsQuestionLine(line)
    ensures Classify(line) == QuestionLine(QuestionText(line))
  {
  }

  /** An option line is never blank and never starts with `Answer:`: it writes its letter and
      its trimmed text. */
  lemma OptionLineKind(line: string)
    requires IsOptionLine(line)
    ensures Classify(line) == OptionLine(line[0], OptionValue(line))
  {
    assert Trim(line) != [] by {
      TrimEmptyIff(line);
    }
    assert !IsAnswerLine(line) by {
      if |line| >= |AnswerPrefix| { assert line[..|AnswerPrefix|][0] == line[0]; }
    }
  }

  /** `options[key] = value` for each option line in turn. */
  function ApplyOptions(acc: seq<Choice>, kinds: seq<LineKind>): seq<Choice>
    decreases |kinds|
  {
    if kinds == [] then acc
    else if kinds[0].OptionLine? then ApplyOptions(SetOption(acc, kinds[0].key, kinds[0].value), kinds[1..])
    else ApplyOptions(acc, kinds[1..])
  }

  /** A run of option lines writes each option into the open question, in order, and emits
      nothing. */
  lemma {:induction false} OptionLinesFill(qs: seq<Question>, q: Question, kinds: seq<LineKind>)
    requires forall i :: 0 <= i < |kinds| ==> kinds[i].OptionLine?
    ensures Run(ParseState(qs, Some(q)), kinds) == ParseState(qs, Some(q.(options := ApplyOptions(q.options, kinds))))
    decreases |kinds|
  {
    if kinds != [] {
      var q' := q.(options := SetOption(q.options, kinds[0].key, kinds[0].value));
      assert Apply(ParseState(qs, Some(q)), kinds[0]) == ParseState(qs, Some(q'));
      OptionLinesFill(qs, q', kinds[1..]);
    }
  }

  /** Option lines are classified as such. */
  lemma OptionLinesKinds(lines: seq<string>)
    requires forall i :: 0 <= i < |lines| ==> IsOptionLine(lines[i])
    ensures forall i :: 0 <= i < |lines| ==>
              IsOptionLine(lines[i]) && Kinds(lines)[i] == OptionLine(lines[i][0], OptionValue(lines[i]))
  {
    forall i | 0 <= i < |lines|
      ensures IsOptionLine(lines[i]) && Kinds(lines)[i] == OptionLine(lines[i][0], OptionValue(lines[i]))
    {
      OptionLineKind(lines[i]);
    }
  }

  /** A later option line with the same letter overwrites the earlier text and keeps its place. */
  lemma RepeatedOptionOverwrites(acc: seq<Choice>, k: char, first: string, second: string)
    ensures var r := ApplyOptions(acc, [OptionLine(k, first), OptionLine(k, second)]);
            && Lookup(r, k) == Some(second)
            && Keys(r) == Keys(SetOption(acc, k, first))
            && forall k' :: k' != k ==> Lookup(r, k') == Lookup(acc, k')
  {
    var kinds := [OptionLine(k, first), OptionLine(k, second)];
    var r1 := SetOption(acc, k, first);
    assert kinds[1..] == [OptionLine(k, second)];
    assert ApplyOptions(acc, kinds) == ApplyOptions(r1, kinds[1..]);
    assert kinds[1..][1..] == [];
    assert ApplyOptions(r1, kinds[1..]) == ApplyOptions(SetOption(r1, k, second), []);
    assert k in Keys(r1);
  }

  // ---------------------------------------------------------------------------------------------
  // Answer lines and whole blocks

  /** An answer line changes nothing unless a question is open and the line has a letter; then
      it emits exactly that question with the letter as its correct answer and closes the slot. */
  lemma AnswerLineEffect(st: ParseState, line: string)
    requires IsAnswerLine(line)
    ensures Classify(line) == AnswerLine(AnswerLetter(line))
    ensures st.current.None? || AnswerLetter(line).None? ==> Apply(st, Classify(line)) == st
    ensures st.current.Some? && AnswerLetter(line).Some? ==>
              && Apply(st, Classify(line)).questions == st.questions + [st.current.value.(correctAnswer := AnswerLetter(line))]
              && IsOptionKey(AnswerLetter(line).value)
              && Apply(st, Classify(line)).current.None?
  {
    assert Trim(line) != [] by {
      TrimEmptyIff(line);
      assert line[..|AnswerPrefix|][0] == line[0];
    }
    AnswerLetterIsLeftmostMatch(line);
  }

  /** A complete block — a question line, option lines, and an answer line with a letter —
      emits exactly one question, carrying the block's text, options and letter. */
  lemma CompleteBlock(st: ParseState, question: string, options: seq<string>, answer: string, c: char)
    requires IsQuestionLine(question)
    requires forall i :: 0 <= i < |options| ==> IsOptionLine(options[i])
    requires IsAnswerLine(answer) && AnswerLetter(answer) == Some(c)
    ensures forall i :: 0 <= i < |options| ==> Kinds(options)[i].OptionLine?
    ensures Run(st, Kinds([question] + options + [answer])) ==
            ParseState(st.questions + Pending(st.current)
                         + [Question(QuestionText(question), ApplyOptions([], Kinds(options)), Some(c), None)],
                       None)
  {
    OptionLinesKinds(options);
    var t, ks := QuestionText(question), Kinds(options);
    assert Kinds([question] + options + [answer]) == [QuestionLine(t)] + ks + [AnswerLine(Some(c))] by {
      QuestionLineKind(question);
      AnswerLineEffect(st, answer);
      KindsOfBlock(question, options, answer);
    }
    RunBlock(st, QuestionLine(t), ks, AnswerLine(Some(c)));
    var q, pushed := NewQuestion(t), st.questions + Pending(st.current);
    assert Apply(st, QuestionLine(t)) == ParseState(pushed, Some(q));
    OptionLinesFill(pushed, q, ks);
    var filled := q.(options := ApplyOptions([], ks));
    assert Run(ParseState(pushed, Some(q)), ks) == ParseState(pushed, Some(filled));
    AnswerCloses(pushed, filled, c);
  }

  /** The kinds of a block: its first line, the lines between, its last line. */
  lemma KindsOfBlock(first: string, middle: seq<string>, last: string)
    ensures Kinds([first] + middle + [last]) == [Classify(first)] + Kinds(middle) + [Classify(last)]
  {
    var lines := [first] + middle + [last];
    var ks := [Classify(first)] + Kinds(middle) + [Classify(last)];
    forall i | 0 <= i < |ks| ensures Kinds(lines)[i] == ks[i] {
      BlockAt(first, middle, last, i);
      BlockAt(Classify(first), Kinds(middle), Classify(last), i);
    }
  }

  lemma BlockAt<T>(first: T, middle: seq<T>, last: T, i: nat)
    requires i < |middle| + 2
    ensures ([first] + middle + [last])[i] == if i == 0 then first else if i <= |middle| then middle[i - 1] else last
  {
  }

  /** The loop over a block of kinds: the first step, the steps between, the last step. */
  lemma RunBlock(st: ParseState, first: LineKind, middle: seq<LineKind>, last: LineKind)
    ensures Run(st, [first] + middle + [last]) == Apply(Run(Apply(st, first), middle), last)
  {
    RunAppend(st, [first] + middle, [last]);
    RunAppend(st, [first], middle);
    RunOne(st, first);
    RunOne(Run(Apply(st, first), middle), last);
  }

  /** An answer letter on an open question records it, pushes the question and closes it. */
  lemma AnswerCloses(qs: seq<Question>, q: Question, c: char)
    ensures Apply(ParseState(qs, Some(q)), AnswerLine(Some(c))) == ParseState(qs + [q.(correctAnswer := Some(c))], None)
  {
  }

  lemma RunOne(st: ParseState, k: LineKind)
    ensures Run(st, [k]) == Apply(st, k)
  {
    assert [k][1..] == [];
  }

  /** A question with no answer line is emitted all the same, with no correct answer, as soon
      as the next question line arrives; that next question stays open. */
  lemma UnansweredQuestionEmitted(st: ParseState, question: string, options: seq<string>, next: string)
    requires IsQuestionLine(question) && IsQuestionLine(next)
    requires forall i :: 0 <= i < |options| ==> IsOptionLine(options[i])
    ensures forall i :: 0 <= i < |options| ==> Kinds(options)[i].OptionLine?
    ensures Run(st, Kinds([question] + options + [next])) ==
            ParseState(st.questions + Pending(st.current)
                         + [Question(QuestionText(question), ApplyOptions([], Kinds(options)), None, None)],
                       Some(NewQuestion(QuestionText(next))))
  {
    QuestionLineKind(question);
    QuestionLineKind(next);
    OptionLinesKinds(options);
    KindsOfBlock(question, options, next);
    var t1, t2 := QuestionText(question), QuestionText(next);
    var q, ks := NewQuestion(t1), Kinds(options);
    var pushed := st.questions + Pending(st.current);
    RunBlock(st, QuestionLine(t1), ks, QuestionLine(t2));
    assert Apply(st, QuestionLine(t1)) == ParseState(pushed, Some(q));
    OptionLinesFill(pushed, q, ks);
    var filled := q.(options := ApplyOptions([], ks));
    assert Apply(ParseState(pushed, Some(filled)), QuestionLine(t2))
        == ParseState(pushed + [filled], Some(NewQuestion(t2)));
  }

  /** A question still open at the end of the input is not returned. */
  lemma OpenQuestionDropped(lines: seq<string>, last: string)
    requires IsQuestionLine(last)
    ensures var before := Run(Start, Kinds(lines));
            ParseLines(lines + [last]) == before.questions + Pending(before.current)
    ensures Run(Start, Kinds(lines + [last])).current == Some(NewQuestion(QuestionText(last)))
  {
    ClassifyOk(last);
    KindsAppend(lines, [last]);
    assert Kinds([last]) == [QuestionLine(QuestionText(last))];
    RunAppend(Start, Kinds(lines), Kinds([last]));
  }

  /** The worked example: one block of a question, two options and an answer. */
  lemma ParseExample()
    ensures Parse("What is 2+2?\na) 3\nb) 4\nAnswer: b\n")
            == [Question("What is 2+2?", [Choice('a', "3"), Choice('b', "4")], Some('b'), None)]
  {
    ExampleLines();
    ExampleBlock();
  }

  lemma ExampleBlock()
    ensures ParseLines(["What is 2+2?", "a) 3", "b) 4", "Answer: b", ""])
            == [Question("What is 2+2?", [Choice('a', "3"), Choice('b', "4")], Some('b'), None)]
  {
    ExampleQuestionLine();
    ExampleOptionLines();
    ExampleAnswerLine();
    BlockThenBlank("What is 2+2?", "a) 3", "b) 4", "Answer: b", 'b',
                   "What is 2+2?", [Choice('a', "3"), Choice('b', "4")]);
  }

  /** A question line, two option lines and an answer line with a letter. */
  predicate BlockShape(q: string, o1: string, o2: string, a: string, c: char, text: string, opts: seq<Choice>)
  {
    && IsQuestionLine(q) && IsOptionLine(o1) && IsOptionLine(o2)
    && IsAnswerLine(a) && AnswerLetter(a) == Some(c)
    && QuestionText(q) == text && ApplyOptions([], Kinds([o1, o2])) == opts
  }

  /** One complete block of two options, then an empty line. */
  lemma BlockThenBlank(q: string, o1: string, o2: string, a: string, c: char, text: string, opts: seq<Choice>)
    requires BlockShape(q, o1, o2, a, c, text, opts)
    ensures ParseLines([q, o1, o2, a, ""]) == [Question(text, opts, Some(c), None)]
  {
    var options := [o1, o2];
    assert forall i :: 0 <= i < |options| ==> IsOptionLine(options[i]);
    CompleteBlock(Start, q, options, a, c);
    var block := [q] + options + [a];
    BlockLayout(q, o1, o2, a, "");
    KindsAppend(block, [""]);
    EmptyLineBlank();
    RunAppend(Start, Kinds(block), [Blank]);
    RunOne(Run(Start, Kinds(block)), Blank);
  }

  lemma BlockLayout<T>(q: T, o1: T, o2: T, a: T, e: T)
    ensures [q, o1, o2, a, e] == [q] + [o1, o2] + [a] + [e]
  {
  }

  lemma EmptyLineBlank()
    ensures Kinds([""]) == [Blank]
  {
    assert Classify("") == Blank;
  }

  lemma ExampleLines()
    ensures Lines("What is 2+2?\na) 3\nb) 4\nAnswer: b\n") == ["What is 2+2?", "a) 3", "b) 4", "Answer: b", ""]
  {
    var lines := ["What is 2+2?", "a) 3", "b) 4", "Answer: b", ""];
    ExampleJoin();
    assert forall i :: 0 <= i < |lines| ==> '\n' !in lines[i];
    SplitJoin(lines, '\n');
  }

  lemma ExampleJoin()
    ensures Join(["What is 2+2?", "a) 3", "b) 4", "Answer: b", ""], '\n') == "What is 2+2?\na) 3\nb) 4\nAnswer: b\n"
  {
    var q, o1, o2, a := "What is 2+2?", "a) 3", "b) 4", "Answer: b";
    JoinFive(q, o1, o2, a, "", '\n');
    assert "What is 2+2?\na) 3\nb) 4\nAnswer: b\n" == q + "\n" + o1 + "\n" + o2 + "\n" + a + "\n" + "";
  }

  lemma JoinFive(s1: string, s2: string, s3: string, s4: string, s5: string, sep: char)
    ensures Join([s1, s2, s3, s4, s5], sep) == s1 + [sep] + s2 + [sep] + s3 + [sep] + s4 + [sep] + s5
  {
    var l := [s1, s2, s3, s4, s5];
    assert l[1..] == [s2, s3, s4, s5] && l[1..][1..] == [s3, s4, s5];
    assert l[1..][1..][1..] == [s4, s5] && l[1..][1..][1..][1..] == [s5];
    var j4 := s4 + [sep] + s5;
    assert Join([s4, s5], sep) == j4;
    var j3 := s3 + [sep] + j4;
    assert Join([s3, s4, s5], sep) == j3;
    var j2 := s2 + [sep] + j3;
    assert Join([s2, s3, s4, s5], sep) == j2;
    assert Join(l, sep) == s1 + [sep] + j2;
  }

  lemma ExampleQuestionLine()
    ensures IsQuestionLine("What is 2+2?") && QuestionText("What is 2+2?") == "What is 2+2?"
  {
    var x := "What is 2+2";
    assert '?' !in x;
    PlainQuestionLine(x);
    assert x + "?" == "What is 2+2?";
  }

  /** A line that does not start like a blank, option or answer line and ends in its only `?`
      opens a question with the whole line as its text. */
  lemma PlainQuestionLine(x: string)
    requires |x| >= 1 && !IsWhiteSpace(x[0]) && x[0] != 'A' && !IsOptionKey(x[0]) && '?' !in x
    ensures IsQuestionLine(x + "?") && QuestionText(x + "?") == x + "?"
  {
    var line := x + "?";
    assert line[0] == x[0];
    assert TrimStart(line) == line;
    assert TrimEnd(line) == line;
    assert !IsAnswerLine(line) by {
      if |line| >= |AnswerPrefix| { assert line[..|AnswerPrefix|][0] == line[0]; }
    }
    assert line == x + ['?'] + [];
    IndexOfAfter(x, [], '?');
    QuestionTextShape(line);
    assert line[..|x| + 1] == line;
  }

  lemma ExampleOptionLines()
    ensures IsOptionLine("a) 3") && IsOptionLine("b) 4")
    ensures ApplyOptions([], Kinds(["a) 3", "b) 4"])) == [Choice('a', "3"), Choice('b', "4")]
  {
    ExampleOption("a) 3");
    ExampleOption("b) 4");
    TwoOptionLines("a) 3", "b) 4", 'a', "3", 'b', "4");
    TwoChoices();
  }

  lemma ExampleOption(line: string)
    requires line == "a) 3" || line == "b) 4"
    ensures IsOptionLine(line) && Classify(line) == OptionLine(line[0], [line[3]])
  {
    assert IsOptionLine(line) && line[2] == ' ' && '0' <= line[3] <= '9';
    OptionValueOfDigit(line);
    OptionLineKind(line);
  }

  lemma TwoChoices()
    ensures SetOption(SetOption([], 'a', "3"), 'b', "4") == [Choice('a', "3"), Choice('b', "4")]
  {
    var r1 := SetOption([], 'a', "3");
    assert r1 == [Choice('a', "3")];
    assert SetOption(r1, 'b', "4") == [Choice('a', "3")] + SetOption([], 'b', "4");
  }

  /** Two option lines in a row write their two options in turn. */
  lemma TwoOptionLines(l1: string, l2: string, k1: char, v1: string, k2: char, v2: string)
    requires Classify(l1) == OptionLine(k1, v1) && Classify(l2) == OptionLine(k2, v2)
    ensures ApplyOptions([], Kinds([l1, l2])) == SetOption(SetOption([], k1, v1), k2, v2)
  {
    var ks := Kinds([l1, l2]);
    assert ks[0] == Classify(l1) && ks[1..][0] == Classify(l2);
    var r1 := SetOption([], k1, v1);
    assert ApplyOptions([], ks) == ApplyOptions(r1, ks[1..]);
    assert ks[1..][1..] == [];
    assert ApplyOptions(r1, ks[1..]) == ApplyOptions(SetOption(r1, k2, v2), []);
  }

  lemma OptionValueOfDigit(line: string)
    requires |line| == 4 && IsOptionLine(line) && line[2] == ' ' && '0' <= line[3] <= '9'
    ensures OptionValue(line) == [line[3]]
  {
    var d := [line[3]];
    assert line[2..] == [' '] + d;
    assert TrimStart(line[2..]) == TrimStart(d) == d;
    assert UntilLineTerminator(d) == d;
    assert TrimEnd(d) == d;
  }

  lemma ExampleAnswerLine()
    ensures IsAnswerLine("Answer: b") && AnswerLetter("Answer: b") == Some('b')
  {
    var a := "Answer: b";
    assert a[..7] == AnswerPrefix && a[7..] == " b" && TrimStart(" b") == "b";
    AnswerLetterAtStart(a, 'b');
  }
}
