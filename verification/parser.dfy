/**
 * `parseQuestions` of components/QuizApp.tsx: a single pass over the lines of the pasted text
 * with one open-question slot. `Apply` is one iteration of its loop and `Run` the whole pass;
 * `ParseQuestions` is the loop itself, proved to compute `Parse`.
 */
module Parser {
  import opened Wrappers
  import opened Text
  import opened Patterns
  import opened Questions

  /** The loop's state: the questions emitted so far and the open question (`currentQuestion`). */
  datatype ParseState = ParseState(questions: seq<Question>, current: Option<Question>)

  const Start: ParseState := ParseState([], None)

  /** `text.split('\n')`. */
  function Lines(text: string): (lines: seq<string>)
    ensures |lines| >= 1 && forall i :: 0 <= i < |lines| ==> '\n' !in lines[i]
  {
    SplitSpec(text, '\n');
    Split(text, '\n')
  }

  /** `line.split('?')[0] + '?'`: the line up to its first `?`, then a `?`. */
  function QuestionText(line: string): (t: string)
  {
    Split(line, '?')[0] + "?"
  }

  /** The open question as a list of zero or one element. */
  function Pending(current: Option<Question>): seq<Question>
  {
    match current
    case None => []
    case Some(q) => [q]
  }

  /** What a line is to the loop, decided in the order the source tests it: blank after
      `trim()`; else, unless it starts with `Answer:`, an option line (`/^[a-d]\)/`) or a new
      question; else an answer line, with the letter of `/Answer:\s*([a-d])/` if it matches. */
  datatype LineKind =
    | Blank
    | OptionLine(key: char, value: string)
    | QuestionLine(text: string)
    | AnswerLine(letter: Option<char>)

  function Classify(line: string): (k: LineKind)
    ensures k.OptionLine? ==> IsOptionKey(k.key)
    ensures k.AnswerLine? && k.letter.Some? ==> IsOptionKey(k.letter.value)
  {
    if Trim(line) == [] then Blank
    else if !IsAnswerLine(line) then
      if IsOptionLine(line) then OptionLine(line[0], OptionValue(line))
      else QuestionLine(QuestionText(line))
    else
      AnswerLine(AnswerLetter(line))
  }

  /** What the loop does with a line of each kind. It pushes at most one question, and only the
      open one; what was pushed before stays as it was. */
  function Apply(st: ParseState, kind: LineKind): (r: ParseState)
    ensures st.questions <= r.questions && |r.questions| <= |st.questions| + 1
    ensures |r.questions| == |st.questions| + 1 ==>
              st.current.Some? && r.questions[|st.questions|].question == st.current.value.question
  {
    match kind
    case Blank => st
    case OptionLine(key, value) =>
      // options[key] = value on the open question; dropped when none is open
      (match st.current
       case None => st
       case Some(q) => st.(current := Some(q.(options := SetOption(q.options, key, value)))))
    case QuestionLine(text) =>
      // the open question is pushed as it is, and a new one opened
      ParseState(st.questions + Pending(st.current), Some(NewQuestion(text)))
    case AnswerLine(letter) =>
      // with a question open and a letter: record it, push the question, close the slot
      match (st.current, letter)
      case (Some(q), Some(a)) => ParseState(st.questions + [q.(correctAnswer := Some(a))], None)
      case _ => st
  }

  /** Each line classified on its own, in input order. */
  function Kinds(lines: seq<string>): (ks: seq<LineKind>)
    ensures |ks| == |lines| && forall i :: 0 <= i < |lines| ==> ks[i] == Classify(lines[i])
  {
    seq(|lines|, i requires 0 <= i < |lines| => Classify(lines[i]))
  }

  /** The loop over the classified lines from state `st`: it only appends to the questions
      already pushed, at most one per line. */
  function Run(st: ParseState, kinds: seq<LineKind>): (r: ParseState)
    ensures st.questions <= r.questions && |r.questions| <= |st.questions| + |kinds|
    decreases |kinds|
  {
    if kinds == [] then st else Run(Apply(st, kinds[0]), kinds[1..])
  }

  /** What `parseQuestions` returns for a list of lines: the open question at the end is dropped. */
  function ParseLines(lines: seq<string>): seq<Question>
  {
    Run(Start, Kinds(lines)).questions
  }

  /** `parseQuestions(text)`: at most one question per line. */
  function Parse(text: string): (qs: seq<Question>)
    ensures |qs| <= |Lines(text)|
  {
    ParseLines(Lines(text))
  }

  /** The parser as the source writes it: a loop that pushes onto `questions` and updates
      `currentQuestion` in place. */
  method ParseQuestions(text: string) returns (questions: seq<Question>)
    ensures questions == Parse(text)
  {
    var lines := Lines(text);
    ghost var kinds := Kinds(lines);
    questions := [];
    var current: Option<Question> := None;
    var i := 0;
    while i < |lines|
      invariant 0 <= i <= |lines|
      invariant Run(ParseState(questions, current), kinds[i..]) == Run(Start, kinds)
    {
      assert kinds[i..][0] == Classify(lines[i]) && kinds[i..][1..] == kinds[i + 1..];
      questions, current := ReadLine(questions, current, lines[i]);
      i := i + 1;
    }
    assert kinds[i..] == [];
  }

  /** The body of the loop over lines: the new `questions` and `currentQuestion`. */
  method ReadLine(questions: seq<Question>, current: Option<Question>, line: string)
    returns (questions': seq<Question>, current': Option<Question>)
    ensures ParseState(questions', current') == Apply(ParseState(questions, current), Classify(line))
  {
    ghost var kind := Classify(line);
    questions', current' := questions, current;
    if Trim(line) != [] {
      if !IsAnswerLine(line) {
        if IsOptionLine(line) {
          assert kind == OptionLine(line[0], OptionValue(line));
          if current.Some? {
            var q := current.value;
            current' := Some(q.(options := SetOption(q.options, line[0], OptionValue(line))));
          }
        } else {
          assert kind == QuestionLine(QuestionText(line));
          if current.Some? {
            questions' := questions + [current.value];
          }
          current' := Some(NewQuestion(QuestionText(line)));
        }
      } else {
        var answer := AnswerLetter(line);
        assert kind == AnswerLine(answer);
        if current.Some? && answer.Some? {
          questions' := questions + [current.value.(correctAnswer := answer)];
          current' := None;
        }
      }
    } else {
      assert kind == Blank;
    }
  }
}
