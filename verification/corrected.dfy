/**
 Four places where the page evidently does not do what it means to. For each, the
 intended definition is given here with its property proved; the behaviour as
 written is shown here for the first two and in module Screen for the last two.

 1. The first question shown is the head of the reordered bank, but every answer
    is graded, explained and followed up from the bank in its declared order.
    Intended: keep the reordered bank and walk it. Since the quiz transitions take
    the bank they read as a parameter, the intended quiz is those transitions given
    the reordered bank.
 2. The summary reports the score including the last answer, but picks its closing
    remark from the score before it. Intended: pick the remark from the reported
    score.
 3. Finishing leaves the question index at 9, while the Play Again button waits for
    it to reach 10, so a finished quiz offers no way to start another. Intended:
    finishing moves the index past the last question.
 4. Chat mode replaces the conversation by one greeting, while the chat box waits
    for more than one message, so the box never appears. Intended: the box belongs
    to chat mode, whatever the length of the conversation.
 */
module Corrected {
  import opened Text
  import opened Questions
  import opened Session
  import opened Quiz
  import opened Chat
  import opened Runs
  import opened Screen

  /** The question awaiting an answer is the one `order` holds at the current index,
      i.e. what is graded is what is shown. */
  predicate GradesShown(order: seq<Question>, s: State) {
    !s.answered ==>
      && s.currentQuestion < |order|
      && |s.messages| > 0
      && s.messages[|s.messages| - 1] == QuestionMessage(order[s.currentQuestion])
  }

  /** Reordering the first two questions of a bank. */
  function SwapFirstTwo(bank: seq<Question>): (r: seq<Question>)
    requires |bank| >= 2
    ensures IsShuffle(r, bank)
  {
    assert bank == [bank[0], bank[1]] + bank[2..];
    [bank[1], bank[0]] + bank[2..]
  }

  /** As written: when the random order puts the bank's second question first, the
      page shows that question, and choosing its right answer scores nothing whenever
      the bank's first question has a different answer index. The shown question is
      then not the one graded. */
  lemma AsWrittenGradesOtherQuestion(bank: seq<Question>, s: State)
    requires |bank| == QuestionCount
    requires bank[0].correctAnswer != bank[1].correctAnswer
    ensures var started := StartQuiz(bank, s, SwapFirstTwo(bank));
      && started.messages[|started.messages| - 1] == QuestionMessage(bank[1])
      && !GradesShown(bank, started)
      && Quiz.HandleAnswer(bank, started, bank[1].correctAnswer).score == 0
      && HandleAnswer(SwapFirstTwo(bank), started, bank[1].correctAnswer).score == 1
  {
  }

  /** The page's own bank exhibits it: the river question may be shown first, and
      its right answer (option 1) is graded against the Australia question. */
  lemma AsWrittenPageGradesOtherQuestion()
    ensures var started := StartQuiz(Bank, Init(), SwapFirstTwo(Bank));
      && !GradesShown(Bank, started)
      && Quiz.HandleAnswer(Bank, started, Bank[1].correctAnswer).score == 0
  {
    assert Bank[0].correctAnswer == 2 && Bank[1].correctAnswer == 1;
    AsWrittenGradesOtherQuestion(Bank, Init());
  }

  /** As written: six points before the last question and a right last answer give
      "7/10" with the remark for six. */
  lemma AsWrittenVerdictLags(bank: seq<Question>, s: State)
    requires |bank| == QuestionCount
    requires !s.answered && s.currentQuestion == LastQuestion && s.score == 6 && |s.messages| > 0
    ensures var r := Quiz.HandleAnswer(bank, s, bank[LastQuestion].correctAnswer);
      && r.score == 7
      && r.messages[|r.messages| - 1] == Summary(7, 6)
      && r.messages[|r.messages| - 1] != Summary(7, 7)
      && !Includes(r.messages[|r.messages| - 1].content, Verdict(7))
      && Verdict(6) == "Good job!" && Verdict(7) == "Excellent work!"
  {
    var r := Quiz.HandleAnswer(bank, s, bank[LastQuestion].correctAnswer);
    assert IsCorrect(bank, s.currentQuestion, bank[LastQuestion].correctAnswer);
    assert r.messages[|s.messages| + 1] == Summary(r.score, s.score);
    assert |r.messages| - 1 == |s.messages| + 1;
  }

  /** `handleAnswer` as intended: grade, explain and advance along `order`, the
      reordered bank the quiz started with; on finishing, pick the closing remark from
      the reported score and move the index past the last question. */
  function HandleAnswer(order: seq<Question>, s: State, selectedIndex: int): (r: State)
    requires |order| == QuestionCount
    requires !s.answered ==> s.currentQuestion < |order| && |s.messages| > 0
    ensures s.answered ==> r == s
    ensures GradesShown(order, s) && !s.answered ==>
      (r.score == s.score + 1 <==> s.messages[|s.messages| - 1].correctAnswer == Some(selectedIndex))
    ensures GradesShown(order, s) && !s.answered ==>
      (r.score == s.score <==> s.messages[|s.messages| - 1].correctAnswer != Some(selectedIndex))
    ensures !s.answered && s.currentQuestion < LastQuestion ==>
      && r.messages == Reveal(s.messages) + [
           Feedback(order[s.currentQuestion], IsCorrect(order, s.currentQuestion, selectedIndex)),
           QuestionMessage(order[s.currentQuestion + 1])]
      && r.currentQuestion == s.currentQuestion + 1
      && !r.answered
    ensures !s.answered && s.currentQuestion >= LastQuestion ==>
      && r.messages == Reveal(s.messages) + [
           Feedback(order[s.currentQuestion], IsCorrect(order, s.currentQuestion, selectedIndex)),
           Summary(r.score, r.score)]
      && Includes(Summary(r.score, r.score).content, Verdict(r.score))
      && r.answered
      && r.currentQuestion == QuestionCount
      && (PlayAgainShown(r) <==> s.mode == QuizMode)
    ensures GradesShown(order, s) ==> GradesShown(order, r)
    ensures r.(messages := s.messages, score := s.score, currentQuestion := s.currentQuestion,
               answered := s.answered) == s
  {
    if s.answered then s
    else
      var shown := s.messages[|s.messages| - 1];
      assert GradesShown(order, s) ==> shown.correctAnswer == Some(order[s.currentQuestion].correctAnswer);
      if s.currentQuestion < LastQuestion then Advance(order, s, selectedIndex)
      else Conclude(order, s, selectedIndex)
  }

  /** An accepted click before the last question: explain it, then pose the next
      question of `order`. */
  function Advance(order: seq<Question>, s: State, selectedIndex: int): (r: State)
    requires |order| == QuestionCount
    requires !s.answered && s.currentQuestion < LastQuestion && |s.messages| > 0
    ensures r.score == s.score + 1 <==> IsCorrect(order, s.currentQuestion, selectedIndex)
    ensures r.score == s.score <==> !IsCorrect(order, s.currentQuestion, selectedIndex)
    ensures r.messages == Reveal(s.messages) + [
      Feedback(order[s.currentQuestion], IsCorrect(order, s.currentQuestion, selectedIndex)),
      QuestionMessage(order[s.currentQuestion + 1])]
    ensures r.currentQuestion == s.currentQuestion + 1 && !r.answered
    ensures GradesShown(order, r)
    ensures r.(messages := s.messages, score := s.score, currentQuestion := s.currentQuestion,
               answered := s.answered) == s
  {
    var s2 := Explain(order, s, selectedIndex);
    var r := NextQuestion(order, s2, s.currentQuestion);
    assert r.messages[|r.messages| - 1] == QuestionMessage(order[r.currentQuestion]);
    r
  }

  /** An accepted click on the last question: explain it, then sum up. */
  function Conclude(order: seq<Question>, s: State, selectedIndex: int): (r: State)
    requires |order| == QuestionCount
    requires !s.answered && LastQuestion <= s.currentQuestion < |order| && |s.messages| > 0
    ensures r.score == s.score + 1 <==> IsCorrect(order, s.currentQuestion, selectedIndex)
    ensures r.score == s.score <==> !IsCorrect(order, s.currentQuestion, selectedIndex)
    ensures r.messages == Reveal(s.messages) + [
      Feedback(order[s.currentQuestion], IsCorrect(order, s.currentQuestion, selectedIndex)),
      Summary(r.score, r.score)]
    ensures Includes(Summary(r.score, r.score).content, Verdict(r.score))
    ensures r.answered && r.currentQuestion == QuestionCount
    ensures r.(messages := s.messages, score := s.score, currentQuestion := s.currentQuestion,
               answered := s.answered) == s
  {
    var s2 := Explain(order, s, selectedIndex);
    Finish(s2, s2.score)
  }

  /** The synchronous part and the first continuation of an accepted click, along
      `order`: lock, grade, reveal, and explain the question at the current index. */
  function Explain(order: seq<Question>, s: State, selectedIndex: int): (r: State)
    requires !s.answered && s.currentQuestion < |order| && |s.messages| > 0
    ensures r.answered
    ensures r.score == s.score + 1 <==> IsCorrect(order, s.currentQuestion, selectedIndex)
    ensures r.score == s.score <==> !IsCorrect(order, s.currentQuestion, selectedIndex)
    ensures r.messages == Reveal(s.messages) + [Feedback(order[s.currentQuestion], IsCorrect(order, s.currentQuestion, selectedIndex))]
    ensures r.(messages := s.messages, score := s.score, answered := s.answered) == s
  {
    var s1 := Accept(order, s, selectedIndex);
    ShowFeedback(order, s1, s.currentQuestion, IsCorrect(order, s.currentQuestion, selectedIndex))
  }

  /** The intended last continuation: the summary reports `finalScore` with its own
      remark, and the index moves past the last question. */
  function Finish(s: State, finalScore: nat): (r: State)
    ensures r.messages == s.messages + [Summary(finalScore, finalScore)]
    ensures r.currentQuestion == QuestionCount
    ensures r.(messages := s.messages, currentQuestion := s.currentQuestion) == s
  {
    FinishQuiz(s, finalScore, finalScore).(currentQuestion := QuestionCount)
  }

  /** Started with a reordering, the intended quiz grades what it shows at every
      step, whatever the answers. */
  lemma {:induction false} IntendedGradesShown(bank: seq<Question>, s: State, shuffled: seq<Question>, answers: seq<int>)
    requires |bank| == QuestionCount && IsShuffle(shuffled, bank)
    ensures GradesShown(shuffled, AnswerAlong(shuffled, StartQuiz(bank, s, shuffled), answers))
  {
    ShuffleFirstInBank(shuffled, bank);
    AlongKeepsGradesShown(shuffled, StartQuiz(bank, s, shuffled), answers);
  }

  /** Answers `answers` with the intended transition, stopping early should a click
      come while no question can be answered. */
  function AnswerAlong(order: seq<Question>, s: State, answers: seq<int>): State
    requires |order| == QuestionCount
    decreases |answers|
  {
    if answers == [] then s
    else if !s.answered && !(s.currentQuestion < |order| && |s.messages| > 0) then s
    else AnswerAlong(order, HandleAnswer(order, s, answers[0]), answers[1..])
  }

  lemma {:induction false} AlongKeepsGradesShown(order: seq<Question>, s: State, answers: seq<int>)
    requires |order| == QuestionCount && GradesShown(order, s)
    ensures GradesShown(order, AnswerAlong(order, s, answers))
    decreases |answers|
  {
    if answers != [] && (s.answered || (s.currentQuestion < |order| && |s.messages| > 0)) {
      AlongKeepsGradesShown(order, HandleAnswer(order, s, answers[0]), answers[1..]);
    }
  }

  /** Answering every remaining question with the intended transition ends with the
      answers locked and the index past the last question. */
  lemma {:induction false} AlongFinishes(order: seq<Question>, s: State, answers: seq<int>)
    requires |order| == QuestionCount && GradesShown(order, s) && !s.answered
    requires s.currentQuestion + |answers| == QuestionCount
    ensures var r := AnswerAlong(order, s, answers);
      r.answered && r.currentQuestion == QuestionCount && r.mode == s.mode
    decreases |answers|
  {
    var s1 := HandleAnswer(order, s, answers[0]);
    if s.currentQuestion < LastQuestion {
      AlongFinishes(order, s1, answers[1..]);
    } else {
      assert answers[1..] == [];
    }
  }

  /** As intended, a whole quiz ends on the Play Again button, so another can start. */
  lemma IntendedQuizOffersReplay(bank: seq<Question>, s: State, shuffled: seq<Question>, answers: seq<int>, next: seq<Question>)
    requires |bank| == QuestionCount && IsShuffle(shuffled, bank)
    requires |answers| == QuestionCount
    ensures var done := AnswerAlong(shuffled, StartQuiz(bank, s, shuffled), answers);
      && done.currentQuestion == QuestionCount
      && PlayAgainShown(done)
      && Offered(done, StartQuizClicked(next))
  {
    ShuffleFirstInBank(shuffled, bank);
    AlongFinishes(shuffled, StartQuiz(bank, s, shuffled), answers);
  }

  /** The chat box as intended: shown in chat mode. */
  predicate IntendedChatInputShown(s: State) {
    s.mode == ChatMode
  }

  /** The controls as intended: as the page offers them, with the chat box shown in
      chat mode. */
  predicate IntendedOffered(s: State, e: Event) {
    match e
    case InputChanged(_) => IntendedChatInputShown(s)
    case SendClicked => IntendedChatInputShown(s)
    case _ => Offered(s, e)
  }

  /** As intended, a visitor can open chat mode, type a question and send it, and the
      conversation becomes the greeting, the question and its reply; as written the
      box is not there to type into. */
  lemma IntendedChatOpens(table: seq<(string, string)>, text: string)
    requires !AllWhitespace(text)
    ensures IntendedOffered(Init(), StartChatClicked)
    ensures IntendedOffered(StartChat(Init()), InputChanged(text)) && !ChatInputShown(StartChat(Init()))
    ensures IntendedOffered(SetInput(StartChat(Init()), text), SendClicked)
    ensures SubmitChat(table, SetInput(StartChat(Init()), text)).messages
      == [Say(Greeting), UserSays(text), Say(Reply(table, text))]
  {
    ChatModeFromMount();
    AskFromGreeting(table, StartChat(Init()), text);
  }

  /** In chat mode with a one-message conversation, typing a question and sending it is
      offered, as intended, and adds the question and its reply. */
  lemma AskFromGreeting(table: seq<(string, string)>, s: State, text: string)
    requires s.mode == ChatMode && |s.messages| == 1 && !AllWhitespace(text)
    ensures IntendedOffered(s, InputChanged(text))
    ensures IntendedOffered(SetInput(s, text), SendClicked)
    ensures SubmitChat(table, SetInput(s, text)).messages
      == [s.messages[0], UserSays(text), Say(Reply(table, text))]
  {
    TypeThenSend(table, s, text);
    var added := [UserSays(text), Say(Reply(table, text))];
    assert s.messages == [s.messages[0]];
    assert [s.messages[0]] + added == [s.messages[0], added[0], added[1]];
  }

  /** From the mounted page, Chat Mode is offered and leads to the greeting alone, in
      chat mode, where the page as written shows no chat box. */
  lemma ChatModeFromMount()
    ensures IntendedOffered(Init(), StartChatClicked)
    ensures var chatting := StartChat(Init());
      && chatting.mode == ChatMode && chatting.messages == [Say(Greeting)]
      && !ChatInputShown(chatting)
  {
    var chatting := StartChat(Init());
    assert chatting.messages == [chatting.messages[0]];
  }
}
