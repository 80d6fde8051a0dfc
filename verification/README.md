# QuizApp in Dafny

This is a model of the logic in the `QuizApp` React component (`components/QuizApp.tsx`). A user pastes the
text of a quiz into a text area. `parseQuestions` turns the text into question records. `handleTextSubmit`
stores the quiz and starts it. `handleAnswer` records the user's choices and counts the answered questions.
A one-second interval counts the time down, and `formatTime` shows the time as `m:ss`.

The modules:

- `Wrappers`: `Option`. It stands for `null` and for a regular-expression match that fails.
- `Text`: the JavaScript string operations the parser relies on. These are `trim`, `split` on one
  character, and what a greedy `\s*` or `(.*)` consumes. Whitespace is ECMAScript's WhiteSpace plus
  LineTerminator, taken code point by code point.
- `Patterns`: the three regular expressions: `/^[a-d]\)/`, `/^([a-d]\))\s*(.*)/` and `/Answer:\s*([a-d])/`.
  The third one is unanchored, so `AnswerLetter` looks for the leftmost position where it matches.
- `Questions`: the question record. `options` is a list of letter/text pairs in insertion order, because
  that is the key order a JavaScript object keeps. Writing an existing key replaces its text in place.
- `Parser`: `parseQuestions`. `Classify` decides what a line is, in the order the source tests it.
  `Apply` is one pass through the loop body and `Run` is the whole loop. `ParseQuestions` is the loop as
  the source writes it, proved to compute `Parse`.
- `ParserFacts`: what the parser guarantees: the shape of its output, the order of the questions, blank
  lines, option lines, answer lines, complete and incomplete blocks, and a worked example.
- `Clock`: `formatTime`, with JavaScript's `Math.floor`, its `%` (which keeps the sign of the left operand),
  `toString` and `padStart` written out.
- `Session`: the component's state as a class `QuizSession`. Its fields are `questions`, `currentView`,
  `answeredCount` and `timeLeft`. The methods are `HandleTextSubmit`, `HandleAnswer` and `Tick`, which is
  one firing of the interval. The invariant `Valid` says that the counter equals the number of answered
  questions and that the timer is never negative.

When a new question line arrives while a question is still open, the parser pushes the open question
onto the output (`components/QuizApp.tsx:61`). It goes out with no correct answer.
`ParserFacts.UnansweredQuestionEmitted` states this, at any point in the input. Only a question still
open at the end of the input is lost (`ParserFacts.OpenQuestionDropped`).

## Model

| member | source | states |
|---|---|---|
| Text.Trim | components/QuizApp.tsx:50 | `trim()` is never longer than the line and neither starts nor ends with whitespace; which slice it keeps is stated by `Text.TrimSpec` |
| Text.TrimStartSpec | components/QuizApp.tsx:50 | `trimStart` removes exactly the leading whitespace: the result is a suffix, everything dropped is whitespace, and the result does not start with whitespace |
| Text.TrimEndSpec | components/QuizApp.tsx:57 | `trimEnd` removes exactly the trailing whitespace, symmetrically |
| Text.TrimSpec | components/QuizApp.tsx:50 | `trim()` returns the slice of the line left after dropping whitespace at both ends; the slice neither starts nor ends with whitespace |
| Text.TrimEmptyIff | components/QuizApp.tsx:50 | a line is skipped as blank if and only if every character in it is whitespace |
| Text.TrimStartIdempotent | components/QuizApp.tsx:56-57 | trimming the start twice equals trimming it once, and `trim` ignores a start already trimmed, which is why `\s*` followed by `trim()` is just `trim()` |
| Text.UntilLineTerminatorSpec | components/QuizApp.tsx:56 | `(.*)` captures the longest prefix without a line terminator, stopping at the first one |
| Text.IndexOfSpec | components/QuizApp.tsx:63 | the position of the first `?`, or the length of the line when it has none |
| Text.Split | components/QuizApp.tsx:46 | `split` on one character always gives at least one piece; what the pieces are is stated by `Text.SplitSpec`, `Text.JoinSplit` and `Text.SplitJoin` |
| Text.SplitSpec | components/QuizApp.tsx:46 | no piece of `split` contains the separator; the first piece is the text before the first separator |
| Text.JoinSplit | components/QuizApp.tsx:46 | joining the lines of `text.split('\n')` with `\n` gives the text back, so no character is lost |
| Text.SplitJoin | components/QuizApp.tsx:46 | splitting a join of pieces that contain no separator gives the pieces back |
| Text.SplitAppend | components/QuizApp.tsx:46 | a separator splits the text into the pieces before it followed by the pieces after it |
| Parser.Lines | components/QuizApp.tsx:46 | the text always has at least one line, and no line contains `\n` |
| Patterns.OptionValue | components/QuizApp.tsx:56-57 | the option text is no longer than the line after `x)` and neither starts nor ends with whitespace; what it is, is stated by `Patterns.OptionValueShape` |
| Patterns.OptionValueShape | components/QuizApp.tsx:56-57 | an option text has no line terminator and does not start with whitespace; on a line without line terminators it is the trimmed remainder after `x)` |
| Patterns.MatchAt | components/QuizApp.tsx:71 | a match of the answer pattern at a given position captures a letter from `a` to `d` |
| Patterns.FirstMatch | components/QuizApp.tsx:71 | the result is the leftmost position from the starting point where the pattern matches; when there is none, the pattern matches nowhere after that point |
| Patterns.AnswerLetter | components/QuizApp.tsx:71 | the captured answer letter, when there is one, is in `a`-`d`; that it is the leftmost match is stated by `Patterns.AnswerLetterIsLeftmostMatch` |
| Patterns.AnswerLetterIsLeftmostMatch | components/QuizApp.tsx:71 | there is no answer letter exactly when the pattern matches nowhere in the line; otherwise the letter is the one captured at the leftmost match, and it lies in `a`-`d` |
| Patterns.AnswerLetterAtStart | components/QuizApp.tsx:71 | on `Answer:`, then optional whitespace, then a letter `a`-`d`, the answer is that letter |
| Patterns.AnswerLetterUnanchored | components/QuizApp.tsx:71 | the pattern is not anchored: in `Answer: e or Answer: c` the answer is `c` |
| Questions.SetOption | components/QuizApp.tsx:57 | after `options[k] = v` the key `k` maps to `v` and every other key maps to what it mapped to before; a key already present keeps its place and a new key goes last |
| Questions.SetOptionDistinct | components/QuizApp.tsx:57 | writing an option never creates a duplicate key |
| Questions.SetOptionKeys | components/QuizApp.tsx:57 | the keys after a write are the old keys plus the key written |
| Parser.Classify | components/QuizApp.tsx:50-77 | an option line has a key in `a`-`d`, and an answer line's letter, when it has one, is in `a`-`d` |
| Parser.Apply | components/QuizApp.tsx:50-77 | one pass of the loop body keeps every question already pushed, pushes at most one more, and a question it pushes carries the open question's text; its full effect per kind is stated by `ParserFacts.AnswerLineEffect`, `ParserFacts.OptionLinesFill` and `ParserFacts.ApplyTexts` |
| Parser.Run | components/QuizApp.tsx:49-78 | the loop only appends to the questions pushed before it, at most one per line; its order and invariant are stated by `ParserFacts.RunTexts` and `ParserFacts.RunOk` |
| Parser.Parse | components/QuizApp.tsx:44-81 | `parseQuestions` returns at most one question per line of the text; what they are is stated by `ParserFacts.ParseOutputWellFormed` and `ParserFacts.ParseOrder` |
| Parser.ReadLine | components/QuizApp.tsx:50-77 | one pass of the loop body changes `questions` and `currentQuestion` exactly as `Apply` specifies for the line's kind |
| Parser.ParseQuestions | components/QuizApp.tsx:44-81 | the loop returns `Parse(text)`, the fold of `Apply` over the classified lines, without the question still open at the end |
| ParserFacts.QuestionTextShape | components/QuizApp.tsx:63 | a question's text ends in its only `?`: it is the line up to and including its first `?`, or the whole line with a `?` added |
| ParserFacts.QuestionTextPrefix | components/QuizApp.tsx:63 | the question text is the part of the line before its first `?`, followed by `?` |
| ParserFacts.ClassifyOk | components/QuizApp.tsx:50-77 | what a line's kind carries is well formed, and a line opens a question exactly when it is neither blank nor an answer line nor an option line |
| ParserFacts.QuestionLineKind | components/QuizApp.tsx:59-67 | a question line opens a question with the text of `split('?')[0] + '?'` |
| ParserFacts.OptionLineKind | components/QuizApp.tsx:52-58 | a line matching `/^[a-d]\)/` is never blank and never an answer line, so it is always treated as an option |
| ParserFacts.OptionLinesKinds | components/QuizApp.tsx:52-58 | each line in a run of option lines is an option with its own letter and text |
| ParserFacts.ApplyOk | components/QuizApp.tsx:49-78 | one pass of the loop keeps its invariant: every question has a well-formed text, distinct option keys in `a`-`d`, a correct answer in `a`-`d` if any, and no user answer |
| ParserFacts.RunOk | components/QuizApp.tsx:49-78 | the whole loop keeps that invariant |
| ParserFacts.ParseOutputWellFormed | components/QuizApp.tsx:44-81 | every question `parseQuestions` returns has a text with exactly one `?`, at the end, distinct option keys in `a`-`d`, a correct answer in `a`-`d` if any, and no user answer |
| ParserFacts.ApplyTexts | components/QuizApp.tsx:61-67 | a pass of the loop adds a text to the questions, both emitted and open, exactly when the line is a question line |
| ParserFacts.RunTexts | components/QuizApp.tsx:49-78 | over the whole loop, each question line is accounted for once, in input order, either emitted or still open |
| ParserFacts.ParseOrder | components/QuizApp.tsx:44-81 | the output texts are the question-line texts in input order; only the last question line can be missing, and it is missing exactly when its question is still open at the end |
| ParserFacts.KindsAppend | components/QuizApp.tsx:49-50 | each line is classified on its own, so classifying two parts of the input separately gives the same kinds |
| ParserFacts.RunAppend | components/QuizApp.tsx:49-78 | the loop over two parts of the input is the loop over the second part, started from the state the first part leaves |
| ParserFacts.RunKeepsOutput | components/QuizApp.tsx:61 | questions already pushed are never changed or removed; later lines only append |
| ParserFacts.RunPrefix | components/QuizApp.tsx:74 | questions pushed before a stretch of lines come out of it untouched and in front |
| ParserFacts.ClosedPrefix | components/QuizApp.tsx:44-81 | input that leaves no question open parses independently of the input that follows it |
| ParserFacts.SwapClosedParts | components/QuizApp.tsx:44-81 | two parts that each leave no question open give their questions in the order the parts are pasted, in either order |
| ParserFacts.BlankLineIgnored | components/QuizApp.tsx:50 | inserting a blank line anywhere changes neither the output nor the open question |
| ParserFacts.BlankLinesIgnored | components/QuizApp.tsx:50 | removing every blank line changes nothing |
| ParserFacts.BlankTextLineIgnored | components/QuizApp.tsx:46-50 | in the pasted text itself, a line of whitespace between two lines is ignored |
| ParserFacts.ClosedStateStays | components/QuizApp.tsx:50-77 | from any state with no question open (at the start, or after an answer line has closed a block), blank, option and answer lines leave the parsed questions and the state unchanged |
| ParserFacts.LeadingLinesDropped | components/QuizApp.tsx:55 | option and answer lines before the first question line are dropped without effect |
| ParserFacts.OptionLinesFill | components/QuizApp.tsx:53-58 | a run of option lines writes each option into the open question in turn and pushes nothing |
| ParserFacts.RepeatedOptionOverwrites | components/QuizApp.tsx:57 | a second option line with the same letter replaces the first text, keeps its place and leaves the other options alone |
| ParserFacts.AnswerLineEffect | components/QuizApp.tsx:69-76 | an answer line does nothing unless a question is open and the pattern matched; then the question is pushed with that letter as its correct answer and no question stays open |
| ParserFacts.CompleteBlock | components/QuizApp.tsx:49-78 | from any state, a question line, option lines and an answer line with a letter push the question that was open, if any, then exactly the block's question, with its text, options and letter; no question stays open |
| ParserFacts.UnansweredQuestionEmitted | components/QuizApp.tsx:61 | from any state, a question with no answer line is pushed behind whatever was pushed before, with its options and no correct answer, when the next question line arrives; the next question stays open |
| ParserFacts.OpenQuestionDropped | components/QuizApp.tsx:80 | a question still open when the lines run out is not returned |
| ParserFacts.ParseExample | components/QuizApp.tsx:44-81 | `What is 2+2?`, `a) 3`, `b) 4`, `Answer: b` give one question with options a→3, b→4 and correct answer b |
| ParserFacts.ExampleBlock | components/QuizApp.tsx:49-78 | the lines of that example, with a trailing empty line, give that question |
| ParserFacts.BlockThenBlank | components/QuizApp.tsx:49-78 | one complete block with two options, followed by an empty line, gives exactly that block's question |
| ParserFacts.ExampleLines | components/QuizApp.tsx:46 | the example text splits into its four lines and a trailing empty one |
| ParserFacts.ExampleQuestionLine | components/QuizApp.tsx:63 | `What is 2+2?` is a question line whose text is itself |
| ParserFacts.PlainQuestionLine | components/QuizApp.tsx:59-67 | a line without `?` that starts with neither whitespace, nor `A`, nor `a`-`d` opens a question once a `?` is added, and that `?` ends its text |
| ParserFacts.ExampleOptionLines | components/QuizApp.tsx:53-57 | `a) 3` and `b) 4` are option lines and give the options a→3, b→4 |
| ParserFacts.ExampleOption | components/QuizApp.tsx:53-57 | `a) 3` is the option `a` with text `3`, and `b) 4` is the option `b` with text `4` |
| ParserFacts.TwoOptionLines | components/QuizApp.tsx:57 | two option lines write their two options in turn |
| ParserFacts.OptionValueOfDigit | components/QuizApp.tsx:56-57 | on `x) d`, where `d` is a digit, the option text is `d` |
| ParserFacts.ExampleAnswerLine | components/QuizApp.tsx:69-71 | `Answer: b` is an answer line with letter `b` |
| Clock.JsRem | components/QuizApp.tsx:114 | `%` leaves what remains after taking off the divisor times the quotient rounded toward zero, so the result has the sign of the left operand and is smaller than the divisor in size |
| Clock.PadStart2Spec | components/QuizApp.tsx:115 | `padStart(2, '0')` keeps a string of two characters or more and otherwise puts it behind enough `0`s to make two |
| Clock.FormatTime | components/QuizApp.tsx:112-116 | `formatTime` itself; what the text is for a time that is not negative is stated by `Clock.FormatTimeFields` |
| Clock.NatToStringSpec | components/QuizApp.tsx:115 | `toString` of a whole number gives at least one decimal digit, no leading zero, and the digits read back to the number |
| Clock.TwoDigitSeconds | components/QuizApp.tsx:114-115 | seconds below 60, padded with `padStart(2, '0')`, are exactly two digits that read back to the seconds |
| Clock.FormatTimeFields | components/QuizApp.tsx:112-116 | for a time that is not negative, the text is the minutes written by `toString` (digits with no leading zero), a colon and exactly two digits; the seconds field is below 60, and minutes × 60 + seconds is the time |
| Clock.FormatTimeExample | components/QuizApp.tsx:112-116 | 247 seconds are shown as `4:07` |
| Clock.FormatTimeNegative | components/QuizApp.tsx:113-114 | a negative time would show as `-1:-5` for −5, because `Math.floor` rounds down while `%` keeps the sign |
| Session.WithAnswer | components/QuizApp.tsx:104-108 | the copied list has the new user answer on question `i` and every other question unchanged |
| Session.AnsweredCountIsSetSize | components/QuizApp.tsx:31 | the number of answered questions is the size of the set of answered positions, and at most the number of questions |
| Session.AnswerSet | components/QuizApp.tsx:108 | answering question `i` adds `i` to the answered positions and nothing else |
| Session.AnswerCount | components/QuizApp.tsx:105-108 | answering a question raises the count by one exactly when the question had no answer before |
| Session.ParsedUnanswered | components/QuizApp.tsx:66 | freshly parsed questions carry no user answer, so the count starts at zero |
| Session.SelectionsAnswered | components/QuizApp.tsx:103-110 | after any series of answers, the answered positions are the old ones plus every position answered |
| Session.SelectionsCount | components/QuizApp.tsx:103-110 | on a freshly parsed quiz, the count after any series of answers is the number of distinct questions answered, however often each was answered again |
| Session.TickTime | components/QuizApp.tsx:36-38 | one firing takes off one second or nothing; exactly in the quiz view with time above zero it takes one off, and a time that is not negative stays so |
| Session.QuizCountdown | components/QuizApp.tsx:34-42 | in the quiz view, each tick takes a second off until zero and then stops; the time never goes negative |
| Session.InputFrozen | components/QuizApp.tsx:36 | in the input view the timer does not run |
| Session.DurationTicks | components/QuizApp.tsx:97 | a quiz of `d` minutes reaches zero after exactly `d * 60` ticks and not before |
| Session.QuizSession.constructor | components/QuizApp.tsx:27-32 | the initial state: input view, no questions, count zero, 30 minutes on the clock |
| Session.QuizSession.HandleTextSubmit | components/QuizApp.tsx:83-101 | the parsed questions replace the list either way, with the count at zero; the quiz view and `duration * 60` seconds follow only a successful save |
| Session.QuizSession.HandleAnswer | components/QuizApp.tsx:103-110 | records the answer on question `i`, changes no other question, and raises the count exactly when the question had no answer yet; the counter invariant holds |
| Session.QuizSession.Tick | components/QuizApp.tsx:34-42 | one firing takes a second off only in the quiz view and above zero; nothing else changes |

## Left out

- Persistence. The Firebase set-up (`components/QuizApp.tsx:12-22`) and the `addDoc` call (lines 89-95)
  are out of the model. The outcome of the save is the `saved` parameter of `HandleTextSubmit`.
  `createdAt: new Date()` and the error log are not modelled.
- Scheduling. `useEffect`, `setInterval` and `clearInterval` are out. `Tick` is one firing of the interval
  under the condition the effect tests. Clearing and re-arming the interval on each change is not
  modelled.
- Rendering. The JSX (lines 118-202) is out: the inputs, the option buttons and the marking of right and
  wrong answers. `subject`, `quizName` and `rawText` are only stored and passed on, so they are
  parameters or are left out.
- Session.QuizSession.HandleTextSubmit: the duration is a natural number. `parseInt` of the duration input
  (line 140) can give `NaN` or a negative whole number such as −5. A negative one would set the
  timer to −300, shown as `-5:00`, and the model's invariant that the timer is never negative
  assumes this does not happen. Neither case is modelled. The submit is taken as one atomic step, so
  two overlapping submits racing on the asynchronous save are not modelled.
- Session.QuizSession.HandleAnswer: the new list is modelled as a value. The source copies the array but
  then writes `userAnswer` into the question object that the old array shares (line 108). That
  aliasing is not captured. The model also assumes React applies the state updates in call order.
- Session.QuizSession.HandleAnswer: answers are characters. The source tests the old answer with `!`, so
  an empty-string answer would count as unanswered; the buttons only pass option letters.
- Text: strings are sequences of code points. JavaScript strings are UTF-16, so a character outside the
  Basic Multilingual Plane is one element here and two in the source.
- Patterns: only the three regular expressions the component uses are modelled, not a general regex
  engine.
- Clock: `formatTime` is modelled for whole numbers only. `Number.prototype.toString` for fractions,
  `NaN` or exponent notation is not modelled, and the timer only ever holds whole seconds.
