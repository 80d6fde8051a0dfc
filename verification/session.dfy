/**
 * The state of the QuizApp component that the handlers change: the question list, the view, the
 * number of answered questions and the seconds left. The React state hooks become the fields of
 * one object; each handler is a method on it.
 */
module Session {
  import opened Wrappers
  import opened Questions
  import opened Parser
  import opened ParserFacts

  /** `currentView`: `'input'` or `'quiz'`. */
  datatype View = Input | Quiz

  /** The initial value of `duration`, in minutes. */
  const DefaultDuration: nat := 30

  // ---------------------------------------------------------------------------------------------
  // Answers

  /** The number of questions with a user answer, counted from the front. */
  function AnsweredCount(qs: seq<Question>): nat
  {
    if qs == [] then 0
    else AnsweredCount(qs[..|qs| - 1]) + (if qs[|qs| - 1].userAnswer.Some? then 1 else 0)
  }

  /** The positions of the questions with a user answer. */
  function AnsweredSet(qs: seq<Question>): set<nat>
  {
    set i: nat | i < |qs| && qs[i].userAnswer.Some?
  }

  /** The count is the number of answered positions, hence at most the number of questions. */
  lemma {:induction false} AnsweredCountIsSetSize(qs: seq<Question>)
    ensures AnsweredCount(qs) == |AnsweredSet(qs)|
    ensures AnsweredCount(qs) <= |qs|
  {
    if qs != [] {
      var init := qs[..|qs| - 1];
      var last := |qs| - 1;
      AnsweredCountIsSetSize(init);
      var all, before := AnsweredSet(qs), AnsweredSet(init);
      var lastOne: set<nat> := if qs[last].userAnswer.Some? then {last} else {};
      forall i | i in all ensures i in before + lastOne {
        if i < last { assert qs[i] == init[i]; }
      }
      forall i | i in before + lastOne ensures i in all {
        if i < last { assert qs[i] == init[i]; }
      }
      assert all == before + lastOne;
      assert last !in before;
      assert |all| == |before| + |lastOne|;
    }
    SetSizeBound(AnsweredSet(qs), |qs|);
  }

  lemma {:induction false} SetSizeBound(s: set<nat>, n: nat)
    requires forall i :: i in s ==> i < n
    ensures |s| <= n
  {
    if n > 0 {
      SetSizeBound(s - {n - 1}, n - 1);
    } else {
      assert s == {};
    }
  }

  /** `newQuestions[i].userAnswer = answer`. */
  function WithAnswer(qs: seq<Question>, i: nat, answer: char): (r: seq<Question>)
    requires i < |qs|
    ensures |r| == |qs| && r[i].userAnswer == Some(answer)
    ensures forall j :: 0 <= j < |qs| && j != i ==> r[j] == qs[j]
    ensures r[i] == qs[i].(userAnswer := Some(answer))
  {
    qs[i := qs[i].(userAnswer := Some(answer))]
  }

  /** Answering question `i` adds `i` to the answered positions and nothing else, so the count
      grows by one exactly when the question had no answer before and never shrinks. */
  lemma AnswerCount(qs: seq<Question>, i: nat, answer: char)
    requires i < |qs|
    ensures AnsweredSet(WithAnswer(qs, i, answer)) == AnsweredSet(qs) + {i}
    ensures AnsweredCount(WithAnswer(qs, i, answer))
            == AnsweredCount(qs) + (if qs[i].userAnswer.None? then 1 else 0)
  {
    var r := WithAnswer(qs, i, answer);
    AnswerSet(qs, i, answer);
    AnsweredCountIsSetSize(qs);
    AnsweredCountIsSetSize(r);
    AddOne(AnsweredSet(qs), i);
  }

  lemma AddOne(s: set<nat>, i: nat)
    ensures |s + {i}| == |s| + (if i in s then 0 else 1)
  {
    if i in s {
      assert s + {i} == s;
    }
  }

  lemma AnswerSet(qs: seq<Question>, i: nat, answer: char)
    requires i < |qs|
    ensures AnsweredSet(WithAnswer(qs, i, answer)) == AnsweredSet(qs) + {i}
  {
    var r := WithAnswer(qs, i, answer);
    forall j | j in AnsweredSet(r) ensures j in AnsweredSet(qs) + {i} {
      if j != i { assert r[j] == qs[j]; }
    }
    forall j | j in AnsweredSet(qs) + {i} ensures j in AnsweredSet(r) {
      if j != i { assert r[j] == qs[j]; }
    }
  }

  /** Questions fresh from the parser carry no user answer. */
  lemma ParsedUnanswered(text: string)
    ensures AnsweredSet(Parse(text)) == {}
    ensures AnsweredCount(Parse(text)) == 0
  {
    ParseOutputWellFormed(text);
    var qs := Parse(text);
    forall i: nat | i < |qs| ensures qs[i].userAnswer.None? {
      assert QuestionOk(qs[i]);
    }
    AnsweredCountIsSetSize(qs);
  }

  /** A selection the user makes: question index and option key. */
  datatype Selection = Selection(index: nat, key: char)

  /** The questions after a series of selections, each on a valid index. */
  function AfterSelections(qs: seq<Question>, sels: seq<Selection>): (r: seq<Question>)
    requires forall j :: 0 <= j < |sels| ==> sels[j].index < |qs|
    ensures |r| == |qs|
    decreases |sels|
  {
    if sels == [] then qs
    else AfterSelections(WithAnswer(qs, sels[0].index, sels[0].key), sels[1..])
  }

  /** The question positions a series of selections touches. */
  function SelectedIndices(sels: seq<Selection>): set<nat>
  {
    set j | 0 <= j < |sels| :: sels[j].index
  }

  /** However often a question is answered again, it is counted once: after any series of
      selections the answered positions are the old ones plus every position selected. */
  lemma {:induction false} SelectionsAnswered(qs: seq<Question>, sels: seq<Selection>)
    requires forall j :: 0 <= j < |sels| ==> sels[j].index < |qs|
    ensures AnsweredSet(AfterSelections(qs, sels)) == AnsweredSet(qs) + SelectedIndices(sels)
    decreases |sels|
  {
    if sels != [] {
      var qs' := WithAnswer(qs, sels[0].index, sels[0].key);
      AnswerCount(qs, sels[0].index, sels[0].key);
      SelectionsAnswered(qs', sels[1..]);
      assert SelectedIndices(sels) == {sels[0].index} + SelectedIndices(sels[1..]) by {
        forall x | x in SelectedIndices(sels) ensures x in {sels[0].index} + SelectedIndices(sels[1..]) {
          var j :| 0 <= j < |sels| && sels[j].index == x;
          if j > 0 { assert sels[1..][j - 1] == sels[j]; }
        }
        forall x | x in SelectedIndices(sels[1..]) ensures x in SelectedIndices(sels) {
          var j :| 0 <= j < |sels[1..]| && sels[1..][j].index == x;
          assert sels[j + 1] == sels[1..][j];
        }
      }
    } else {
      assert SelectedIndices(sels) == {};
    }
  }

  /** On a freshly parsed quiz, the count after any series of selections is the number of
      distinct questions selected. */
  lemma SelectionsCount(text: string, sels: seq<Selection>)
    requires forall j :: 0 <= j < |sels| ==> sels[j].index < |Parse(text)|
    ensures AnsweredCount(AfterSelections(Parse(text), sels)) == |SelectedIndices(sels)|
  {
    ParsedUnanswered(text);
    SelectionsAnswered(Parse(text), sels);
    AnsweredCountIsSetSize(AfterSelections(Parse(text), sels));
  }

  // ---------------------------------------------------------------------------------------------
  // The timer

  /** One firing of the interval: a second less, but only in the quiz view and above zero. */
  function TickTime(view: View, timeLeft: int): (r: int)
    ensures r == timeLeft || r == timeLeft - 1
    ensures r < timeLeft <==> view == Quiz && timeLeft > 0
    ensures timeLeft >= 0 ==> r >= 0
  {
    if view == Quiz && timeLeft > 0 then timeLeft - 1 else timeLeft
  }

  /** The seconds left after `n` firings. */
  function AfterTicks(view: View, timeLeft: int, n: nat): int
  {
    if n == 0 then timeLeft else AfterTicks(view, TickTime(view, timeLeft), n - 1)
  }

  /** In the quiz view the time counts down by one per tick and stops at zero; it never goes
      negative from a start that is not negative. */
  lemma {:induction false} QuizCountdown(timeLeft: int, n: nat)
    requires timeLeft >= 0
    ensures AfterTicks(Quiz, timeLeft, n) == if n <= timeLeft then timeLeft - n else 0
    ensures AfterTicks(Quiz, timeLeft, n) >= 0
  {
    if n > 0 {
      QuizCountdown(TickTime(Quiz, timeLeft), n - 1);
    }
  }

  /** In the input view the timer does not run. */
  lemma {:induction false} InputFrozen(timeLeft: int, n: nat)
    ensures AfterTicks(Input, timeLeft, n) == timeLeft
  {
    if n > 0 {
      InputFrozen(timeLeft, n - 1);
    }
  }

  /** A quiz of `d` minutes reaches zero after exactly `d * 60` ticks, and not before. */
  lemma DurationTicks(d: nat)
    ensures AfterTicks(Quiz, d * 60, d * 60) == 0
    ensures forall n: nat :: n < d * 60 ==> AfterTicks(Quiz, d * 60, n) > 0
  {
    QuizCountdown(d * 60, d * 60);
    forall n: nat | n < d * 60 ensures AfterTicks(Quiz, d * 60, n) > 0 {
      QuizCountdown(d * 60, n);
    }
  }

  // ---------------------------------------------------------------------------------------------
  // The component

  class QuizSession {
    var questions: seq<Question>
    var currentView: View
    var answeredCount: nat
    var timeLeft: int

    /** The counter agrees with the answers; nothing is answered before the quiz is shown; the
        timer is never negative. */
    predicate Valid()
      reads this
    {
      && answeredCount == AnsweredCount(questions)
      && (currentView == Input ==> answeredCount == 0)
      && timeLeft >= 0
    }

    /** The initial state: no questions, the input view, `duration * 60` seconds. */
    constructor ()
      ensures Valid()
      ensures questions == [] && currentView == Input && answeredCount == 0
      ensures timeLeft == DefaultDuration * 60
    {
      questions := [];
      currentView := Input;
      answeredCount := 0;
      timeLeft := DefaultDuration * 60;
    }

    /** `handleTextSubmit`: the parsed questions replace the list whatever happens; the quiz starts,
        with `duration` minutes on the clock, only when the quiz was saved. */
    method HandleTextSubmit(rawText: string, duration: nat, saved: bool)
      requires Valid() && currentView == Input
      modifies this
      ensures Valid()
      ensures questions == Parse(rawText) && answeredCount == 0
      ensures saved ==> currentView == Quiz && timeLeft == duration * 60
      ensures !saved ==> currentView == Input && timeLeft == old(timeLeft)
    {
      var parsed := ParseQuestions(rawText);
      questions := parsed;
      ParsedUnanswered(rawText);
      if saved {
        currentView := Quiz;
        timeLeft := duration * 60;
      }
    }

    /** `handleAnswer(i, answer)`: records the answer on question `i` and counts the question if it
        had no answer yet. */
    method HandleAnswer(i: nat, answer: char)
      requires Valid() && currentView == Quiz && i < |questions|
      modifies this
      ensures Valid()
      ensures questions == WithAnswer(old(questions), i, answer)
      ensures answeredCount == old(answeredCount) + (if old(questions)[i].userAnswer.None? then 1 else 0)
      ensures currentView == old(currentView) && timeLeft == old(timeLeft)
    {
      AnswerCount(questions, i, answer);
      var newQuestions := questions;
      if newQuestions[i].userAnswer.None? {
        answeredCount := answeredCount + 1;
      }
      newQuestions := newQuestions[i := newQuestions[i].(userAnswer := Some(answer))];
      questions := newQuestions;
    }

    /** One firing of the interval timer. */
    method Tick()
      requires Valid()
      modifies this
      ensures Valid()
      ensures timeLeft == TickTime(old(currentView), old(timeLeft))
      ensures questions == old(questions) && currentView == old(currentView)
      ensures answeredCount == old(answeredCount)
    {
      if currentView == Quiz && timeLeft > 0 {
        timeLeft := timeLeft - 1;
      }
    }
  }
}
