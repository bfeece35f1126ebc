/**
 The quiz transitions of the page: starting a quiz, posing a question, and
 handling an answer click together with the two delayed continuations it
 schedules, which here run immediately one after the other. Values a
 continuation captured when the click was handled (the question index, the
 score before the click, whether the answer was right) are passed to it
 explicitly.

 The question bank the page reads is the parameter `bank` (the page's own is
 `Questions.Bank`), so every property below holds for any ten-question bank.
 Grading and advancing use the bank in its declared order, while the first
 question shown is the head of a reordered copy; this is how the page behaves
 and is kept here (the Corrected module gives the evidently intended version).
 */
module Quiz {
  import opened Text
  import opened Questions
  import opened Session

  /** Index of the last question; after it the quiz ends instead of advancing. */
  const LastQuestion := 9

  /** The assistant message that poses `q`, carrying its options and answer index. */
  function QuestionMessage(q: Question): Message {
    Message(Assistant, q.question, Some(q.options), Some(q.correctAnswer), false)
  }

  /** `m` poses one of the questions of `bank`. */
  ghost predicate PosesQuestionOf(m: Message, bank: seq<Question>) {
    exists i :: 0 <= i < |bank| && m == QuestionMessage(bank[i])
  }

  /** `askQuestion(q)`: append the question and clear `answered`; nothing else changes. */
  function AskQuestion(s: State, q: Question): (r: State)
    ensures |r.messages| == |s.messages| + 1 && r.messages[..|s.messages|] == s.messages
    ensures r.messages[|s.messages|] == QuestionMessage(q)
    ensures !r.answered
    ensures r.(messages := s.messages, answered := s.answered) == s
  {
    s.(messages := s.messages + [QuestionMessage(q)], answered := false)
  }

  /** `startQuiz`, given the reordered copy of the bank the random sort produced. The
      conversation so far is kept and the first question is appended to it. */
  function StartQuiz(bank: seq<Question>, s: State, shuffled: seq<Question>): (r: State)
    requires |bank| == QuestionCount && IsShuffle(shuffled, bank)
    ensures r.mode == QuizMode && r.score == 0 && r.currentQuestion == 0 && !r.answered
    ensures r.input == s.input
    ensures |r.messages| == |s.messages| + 1 && r.messages[..|s.messages|] == s.messages
    ensures r.messages[|s.messages|] == QuestionMessage(shuffled[0])
    ensures PosesQuestionOf(r.messages[|s.messages|], bank)
  {
    ShuffleFirstInBank(shuffled, bank);
    var s1 := s.(mode := QuizMode, score := 0, currentQuestion := 0, answered := false);
    AskQuestion(s1, shuffled[0])
  }

  /** Marks the last message as revealed (the page crashes on an empty list). */
  function Reveal(msgs: seq<Message>): (r: seq<Message>)
    requires |msgs| > 0
    ensures |r| == |msgs|
    ensures r[..|r| - 1] == msgs[..|msgs| - 1]
    ensures r[|r| - 1].showAnswer
    ensures r[|r| - 1].(showAnswer := false) == msgs[|msgs| - 1].(showAnswer := false)
  {
    msgs[..|msgs| - 1] + [msgs[|msgs| - 1].(showAnswer := true)]
  }

  /** Revealing twice reveals once. */
  lemma RevealIdempotent(msgs: seq<Message>)
    requires |msgs| > 0
    ensures Reveal(Reveal(msgs)) == Reveal(msgs)
  {
  }

  /** `isCorrect`: the click is judged against the bank entry at `currentQuestion`. */
  predicate IsCorrect(bank: seq<Question>, q: nat, selectedIndex: int)
    requires q < |bank|
  {
    selectedIndex == bank[q].correctAnswer
  }

  /** Text of the option marked as right, as a template literal prints it (an index
      outside the options would print "undefined"; no bank question has one). */
  function CorrectOption(q: Question): string {
    if 0 <= q.correctAnswer < |q.options| then q.options[q.correctAnswer] else "undefined"
  }

  /** The feedback text, from whether the answer was right, the right option and the explanation. */
  function FeedbackText(correct: bool, option: string, explanation: string): (t: string)
    ensures |t| > 0 && (t[0] == '✅' <==> correct)
    ensures Includes(t, explanation)
    ensures !correct ==> Includes(t, option)
  {
    if correct then
      IncludesMiddle("✅ Correct! ", explanation, "");
      assert "✅ Correct! " + explanation + "" == "✅ Correct! " + explanation;
      "✅ Correct! " + explanation
    else
      var lead := "❌ Not quite. The correct answer is \"";
      var t := lead + option + ("\". " + explanation);
      IncludesMiddle(lead, option, "\". " + explanation);
      IncludesMiddle(lead + option + "\". ", explanation, "");
      assert lead + option + "\". " + explanation + "" == t;
      assert t[0] == lead[0] == '❌';
      t
  }

  /** The feedback message after answering `q`: a tick or a cross, the right option when
      the answer was wrong, and the explanation. */
  function Feedback(q: Question, correct: bool): (r: Message)
    ensures r == Say(r.content) && |r.content| > 0
    ensures r.content[0] == '✅' <==> correct
    ensures Includes(r.content, q.explanation)
    ensures !correct ==> Includes(r.content, CorrectOption(q))
  {
    Say(FeedbackText(correct, CorrectOption(q), q.explanation))
  }

  /** The closing remark, chosen from the score the click handler saw: 7 and above
      is excellent, 5 and 6 are good, anything lower asks for more learning. */
  function Verdict(score: nat): (r: string)
    ensures r == "Excellent work!" <==> score >= 7
    ensures r == "Good job!" <==> 5 <= score < 7
    ensures r == "Keep learning!" <==> score < 5
  {
    if score >= 7 then "Excellent work!" else if score >= 5 then "Good job!" else "Keep learning!"
  }

  /** The summary's text up to the reported score. */
  const SummaryLead := "🎉 Quiz complete! Your final "

  /** The summary message: `finalScore` is reported, `verdictScore` picks the remark. */
  function Summary(finalScore: nat, verdictScore: nat): (r: Message)
    ensures r == Say(r.content)
    ensures Includes(r.content, "score: " + Decimal(finalScore) + "/10. ")
    ensures Includes(r.content, Verdict(verdictScore))
    ensures forall v: nat :: Verdict(v) != Verdict(verdictScore) ==> !Includes(r.content, Verdict(v))
  {
    var reported := "score: " + Decimal(finalScore) + "/10. ";
    var text := SummaryLead + reported + Verdict(verdictScore);
    IncludesMiddle(SummaryLead, reported, Verdict(verdictScore));
    IncludesMiddle(SummaryLead + reported, Verdict(verdictScore), "");
    assert text + "" == text;
    OnlyOneRemark(finalScore, verdictScore);
    Say(text)
  }

  /** Each remark starts with a capital that occurs in no other remark. */
  lemma RemarkInitials(u: nat, v: nat)
    ensures Verdict(v)[0] == 'E' || Verdict(v)[0] == 'G' || Verdict(v)[0] == 'K'
    ensures Verdict(v) != Verdict(u) ==> Verdict(v)[0] !in Verdict(u)
  {
  }

  /** None of the remarks' initials occurs before the remark. */
  lemma LeadLacksInitials(n: nat, c: char)
    requires c == 'E' || c == 'G' || c == 'K'
    ensures c !in SummaryLead + ("score: " + Decimal(n) + "/10. ")
  {
    var d := Decimal(n);
    assert c !in SummaryLead;
    assert c !in d by {
      forall i | 0 <= i < |d| ensures d[i] != c {
        assert IsDigit(d[i]);
      }
    }
  }

  /** Hence a summary names no remark but its own. */
  lemma OnlyOneRemark(n: nat, verdictScore: nat)
    ensures forall v: nat :: Verdict(v) != Verdict(verdictScore) ==>
      !Includes(SummaryLead + ("score: " + Decimal(n) + "/10. ") + Verdict(verdictScore), Verdict(v))
  {
    var front := SummaryLead + ("score: " + Decimal(n) + "/10. ");
    forall v: nat | Verdict(v) != Verdict(verdictScore)
      ensures !Includes(front + Verdict(verdictScore), Verdict(v))
    {
      RemarkInitials(verdictScore, v);
      LeadLacksInitials(n, Verdict(v)[0]);
      NotIncludedWhenAbsent(front + Verdict(verdictScore), Verdict(v), 0);
    }
  }

  /** The synchronous part of `handleAnswer`: the guard, `answered`, the score and the reveal. */
  function Accept(bank: seq<Question>, s: State, selectedIndex: int): (r: State)
    requires !s.answered ==> s.currentQuestion < |bank| && |s.messages| > 0
    ensures s.answered ==> r == s
    ensures !s.answered ==> r.answered
    ensures !s.answered ==> (r.score == s.score + 1 <==> IsCorrect(bank, s.currentQuestion, selectedIndex))
    ensures !s.answered ==> (r.score == s.score <==> !IsCorrect(bank, s.currentQuestion, selectedIndex))
    ensures !s.answered ==> r.messages == Reveal(s.messages)
    ensures r.(messages := s.messages, score := s.score, answered := s.answered) == s
  {
    if s.answered then s
    else
      var correct := IsCorrect(bank, s.currentQuestion, selectedIndex);
      s.(answered := true,
         score := if correct then s.score + 1 else s.score,
         messages := Reveal(s.messages))
  }

  /** First continuation: append the feedback for question `q` of the bank. */
  function ShowFeedback(bank: seq<Question>, s: State, q: nat, correct: bool): (r: State)
    requires q < |bank|
    ensures r.messages == s.messages + [Feedback(bank[q], correct)]
    ensures r.(messages := s.messages) == s
  {
    s.(messages := s.messages + [Feedback(bank[q], correct)])
  }

  /** Second continuation when `q < 9`: move to question `q + 1` of the bank and pose it. */
  function NextQuestion(bank: seq<Question>, s: State, q: nat): (r: State)
    requires |bank| == QuestionCount && q < LastQuestion
    ensures r.currentQuestion == q + 1 && !r.answered
    ensures r.messages == s.messages + [QuestionMessage(bank[q + 1])]
    ensures r.(messages := s.messages, currentQuestion := s.currentQuestion, answered := s.answered) == s
  {
    AskQuestion(s.(currentQuestion := q + 1), bank[q + 1])
  }

  /** Second continuation after the last question: append the summary. */
  function FinishQuiz(s: State, finalScore: nat, verdictScore: nat): (r: State)
    ensures r.messages == s.messages + [Summary(finalScore, verdictScore)]
    ensures r.(messages := s.messages) == s
  {
    s.(messages := s.messages + [Summary(finalScore, verdictScore)])
  }

  /** `handleAnswer(selectedIndex)` with both continuations run to completion. The page
      fails (reading a property of `undefined`) if an answer is accepted with the index
      outside the bank or with no message to reveal, hence the precondition. */
  function HandleAnswer(bank: seq<Question>, s: State, selectedIndex: int): (r: State)
    requires |bank| == QuestionCount
    requires !s.answered ==> s.currentQuestion < |bank| && |s.messages| > 0
    ensures s.answered ==> r == s
    ensures r.mode == s.mode && r.input == s.input
    ensures !s.answered ==> (r.score == s.score + 1 <==> IsCorrect(bank, s.currentQuestion, selectedIndex))
    ensures !s.answered ==> (r.score == s.score <==> !IsCorrect(bank, s.currentQuestion, selectedIndex))
    ensures !s.answered ==>
      && |r.messages| == |s.messages| + 2
      && r.messages[..|s.messages|] == Reveal(s.messages)
      && r.messages[|s.messages|] == Feedback(bank[s.currentQuestion], IsCorrect(bank, s.currentQuestion, selectedIndex))
    ensures !s.answered && s.currentQuestion < LastQuestion ==>
      && r.currentQuestion == s.currentQuestion + 1
      && !r.answered
      && r.messages[|s.messages| + 1] == QuestionMessage(bank[r.currentQuestion])
    ensures !s.answered && s.currentQuestion >= LastQuestion ==>
      && r.currentQuestion == s.currentQuestion
      && r.answered
      && r.messages[|s.messages| + 1] == Summary(r.score, s.score)
  {
    if s.answered then s
    else
      var q := s.currentQuestion;
      var correct := IsCorrect(bank, q, selectedIndex);
      var s1 := Accept(bank, s, selectedIndex);
      var s2 := ShowFeedback(bank, s1, q, correct);
      assert s2.messages == Reveal(s.messages) + [Feedback(bank[q], correct)];
      assert s2.messages[..|s.messages|] == Reveal(s.messages);
      if q < LastQuestion then NextQuestion(bank, s2, q)
      else FinishQuiz(s2, if correct then s.score + 1 else s.score, s.score)
  }

  /** A second click before the continuations have run is ignored; after they have run,
      a click is taken exactly when another question has been posed. */
  lemma DoubleClickIgnored(bank: seq<Question>, s: State, first: int, second: int)
    requires |bank| == QuestionCount
    requires !s.answered && s.currentQuestion < |bank| && |s.messages| > 0
    ensures HandleAnswer(bank, Accept(bank, s, first), second) == Accept(bank, s, first)
    ensures HandleAnswer(bank, HandleAnswer(bank, s, first), second) != HandleAnswer(bank, s, first)
        <==> s.currentQuestion < LastQuestion
  {
  }

  /** What every reachable state satisfies: a non-empty conversation, a question index
      that never passes 9, and at most one point per question answered so far. */
  predicate Invariant(s: State) {
    && |s.messages| > 0
    && s.currentQuestion <= LastQuestion
    && s.score <= s.currentQuestion + (if s.answered then 1 else 0)
  }

  /** The bounds the invariant gives: the question index stays within 0..9 and the score
      never exceeds the number of questions reached, so never exceeds 10. */
  lemma InvariantBounds(s: State)
    requires Invariant(s)
    ensures 0 <= s.currentQuestion <= 9 && 0 <= s.score <= s.currentQuestion + 1
    ensures s.score <= QuestionCount
  {
  }

  lemma StartQuizKeepsInvariant(bank: seq<Question>, s: State, shuffled: seq<Question>)
    requires |bank| == QuestionCount && IsShuffle(shuffled, bank)
    ensures Invariant(StartQuiz(bank, s, shuffled))
  {
  }

  lemma HandleAnswerKeepsInvariant(bank: seq<Question>, s: State, selectedIndex: int)
    requires |bank| == QuestionCount && Invariant(s)
    ensures Invariant(HandleAnswer(bank, s, selectedIndex))
  {
  }
}
