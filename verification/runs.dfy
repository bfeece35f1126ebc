/**
 Sequences of user actions on the page, and what holds along them: the quiz
 invariant in every reachable state, and the outcome of answering all ten
 questions of a quiz. As in Quiz and Chat, the question bank and the keyword
 table are parameters; the page's are `Questions.Bank` and `Chat.Responses`.
 */
module Runs {
  import opened Questions
  import opened Session
  import opened Quiz
  import opened Chat

  /** What the user can do; a quiz start carries the order the random sort produced. */
  datatype Event =
    | StartQuizClicked(shuffled: seq<Question>)
    | StartChatClicked
    | OptionClicked(selectedIndex: int)
    | InputChanged(text: string)
    | SendClicked

  /** A quiz start's order is a reordering of the bank, as a sort always yields. */
  predicate Possible(bank: seq<Question>, e: Event) {
    e.StartQuizClicked? ==> IsShuffle(e.shuffled, bank)
  }

  /** One user action, with every continuation it schedules run to completion. */
  function Step(bank: seq<Question>, table: seq<(string, string)>, s: State, e: Event): (r: State)
    requires |bank| == QuestionCount && Invariant(s) && Possible(bank, e)
    ensures Invariant(r)
  {
    match e
    case StartQuizClicked(shuffled) =>
      StartQuizKeepsInvariant(bank, s, shuffled);
      StartQuiz(bank, s, shuffled)
    case StartChatClicked => StartChat(s)
    case OptionClicked(i) =>
      HandleAnswerKeepsInvariant(bank, s, i);
      HandleAnswer(bank, s, i)
    case InputChanged(text) => SetInput(s, text)
    case SendClicked => SubmitChat(table, s)
  }

  /** A sequence of user actions, applied in order. */
  function Run(bank: seq<Question>, table: seq<(string, string)>, s: State, events: seq<Event>): (r: State)
    requires |bank| == QuestionCount && Invariant(s)
    requires forall k :: 0 <= k < |events| ==> Possible(bank, events[k])
    ensures Invariant(r)
    decreases |events|
  {
    if events == [] then s else Run(bank, table, Step(bank, table, s, events[0]), events[1..])
  }

  /** Every state reachable from the mounted page keeps the question index within
      0..9 and the score at most one above it; in particular the replay button, shown
      only once the index reaches 10, is never offered. */
  lemma ReachableBounds(bank: seq<Question>, table: seq<(string, string)>, events: seq<Event>)
    requires |bank| == QuestionCount
    requires forall k :: 0 <= k < |events| ==> Possible(bank, events[k])
    ensures Run(bank, table, Init(), events).currentQuestion <= 9
    ensures Run(bank, table, Init(), events).score <= Run(bank, table, Init(), events).currentQuestion + 1
  {
    var s0 := Init();
    assert Invariant(s0);
    var s := Run(bank, table, s0, events);
    assert Invariant(s);
  }

  /** Answers `answers`, one click each, in order. */
  function AnswerAll(bank: seq<Question>, s: State, answers: seq<int>): (r: State)
    requires |bank| == QuestionCount && Invariant(s)
    ensures Invariant(r)
    decreases |answers|
  {
    if answers == [] then s
    else
      HandleAnswerKeepsInvariant(bank, s, answers[0]);
      AnswerAll(bank, HandleAnswer(bank, s, answers[0]), answers[1..])
  }

  /** How many of `answers` match the bank's answers to questions `q`, `q + 1`, .... */
  function CountCorrect(bank: seq<Question>, answers: seq<int>, q: nat): (n: nat)
    ensures n <= |answers|
  {
    if answers == [] || q >= |bank| then 0
    else (if IsCorrect(bank, q, answers[0]) then 1 else 0) + CountCorrect(bank, answers[1..], q + 1)
  }

  /** The last message is a quiz summary that reports `score`. */
  ghost predicate EndsWithSummaryOf(s: State, score: nat) {
    |s.messages| > 0 && exists v :: s.messages[|s.messages| - 1] == Summary(score, v)
  }

  /** One accepted click, as the induction below uses it. */
  lemma AnswerStep(bank: seq<Question>, s: State, a: int)
    requires |bank| == QuestionCount && Invariant(s) && !s.answered
    ensures var r := HandleAnswer(bank, s, a);
      && Invariant(r)
      && r.score == s.score + (if IsCorrect(bank, s.currentQuestion, a) then 1 else 0)
      && (s.currentQuestion < LastQuestion ==> r.currentQuestion == s.currentQuestion + 1 && !r.answered)
      && (s.currentQuestion >= LastQuestion ==> r.answered && EndsWithSummaryOf(r, r.score))
  {
    var r := HandleAnswer(bank, s, a);
    HandleAnswerKeepsInvariant(bank, s, a);
    if s.currentQuestion >= LastQuestion {
      assert r.messages[|r.messages| - 1] == Summary(r.score, s.score);
    }
  }

  /** Answering every remaining question adds one point per answer that matches the
      bank, leaves the quiz on question 9 with answers locked, and ends on a summary
      that reports the final score. */
  lemma {:induction false} AnswerRemaining(bank: seq<Question>, s: State, answers: seq<int>)
    requires |bank| == QuestionCount && Invariant(s) && !s.answered
    requires s.currentQuestion + |answers| == QuestionCount
    ensures var r := AnswerAll(bank, s, answers);
      && r.score == s.score + CountCorrect(bank, answers, s.currentQuestion)
      && r.currentQuestion == LastQuestion
      && r.answered
      && EndsWithSummaryOf(r, r.score)
    decreases |answers|
  {
    var s1 := HandleAnswer(bank, s, answers[0]);
    AnswerStep(bank, s, answers[0]);
    if s.currentQuestion < LastQuestion {
      AnswerRemaining(bank, s1, answers[1..]);
    } else {
      assert answers[1..] == [];
    }
  }

  /** Once answers are locked, further clicks change nothing. */
  lemma {:induction false} LockedIgnoresClicks(bank: seq<Question>, s: State, answers: seq<int>)
    requires |bank| == QuestionCount && Invariant(s) && s.answered
    ensures AnswerAll(bank, s, answers) == s
    decreases |answers|
  {
    if answers != [] {
      LockedIgnoresClicks(bank, HandleAnswer(bank, s, answers[0]), answers[1..]);
    }
  }

  /** A whole quiz: start it, answer ten times. The score is the number of answers that
      match the bank entry of their position, at most 10, and the quiz ends on a summary
      reporting it; later clicks change nothing, and starting again resets the score and
      the question index. */
  lemma FullQuiz(
    bank: seq<Question>, s: State, shuffled: seq<Question>, answers: seq<int>,
    more: seq<int>, reshuffled: seq<Question>)
    requires |bank| == QuestionCount && Invariant(s)
    requires IsShuffle(shuffled, bank) && IsShuffle(reshuffled, bank)
    requires |answers| == QuestionCount
    ensures var done := AnswerAll(bank, StartQuiz(bank, s, shuffled), answers);
      && done.score == CountCorrect(bank, answers, 0) <= QuestionCount
      && EndsWithSummaryOf(done, done.score)
      && AnswerAll(bank, done, more) == done
      && StartQuiz(bank, done, reshuffled).score == 0
      && StartQuiz(bank, done, reshuffled).currentQuestion == 0
  {
    var started := StartQuiz(bank, s, shuffled);
    StartQuizKeepsInvariant(bank, s, shuffled);
    AnswerRemaining(bank, started, answers);
    var done := AnswerAll(bank, started, answers);
    LockedIgnoresClicks(bank, done, more);
  }
}
