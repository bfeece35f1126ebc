/**
 Which controls the page offers in a state, read off the conditions its markup
 renders them under, and what follows for the runs a user can actually perform:
 every transition is reached through one of these controls.
 */
module Screen {
  import opened Questions
  import opened Session
  import opened Quiz
  import opened Chat
  import opened Runs

  /** The Start Quiz and Chat Mode buttons: shown while the conversation is one message. */
  predicate StartButtonsShown(s: State) {
    |s.messages| == 1
  }

  /** The chat input box and its Send button. */
  predicate ChatInputShown(s: State) {
    s.mode == ChatMode && |s.messages| > 1
  }

  /** The Play Again button. */
  predicate PlayAgainShown(s: State) {
    s.mode == QuizMode && s.currentQuestion >= QuestionCount
  }

  /** Some message of `msgs` renders an option button with index `i`. */
  predicate OptionButton(msgs: seq<Message>, i: int) {
    exists m :: 0 <= m < |msgs| && msgs[m].options.Some? && 0 <= i < |msgs[m].options.value|
  }

  /** Whether the page offers a control that raises `e` in state `s`. Option buttons are
      disabled once an answer is locked; Enter in the input box submits even when the
      Send button is disabled, so sending is offered whenever the box is. */
  predicate Offered(s: State, e: Event) {
    match e
    case StartQuizClicked(_) => StartButtonsShown(s) || PlayAgainShown(s)
    case StartChatClicked => StartButtonsShown(s)
    case OptionClicked(i) => !s.answered && OptionButton(s.messages, i)
    case InputChanged(_) => ChatInputShown(s)
    case SendClicked => ChatInputShown(s)
  }

  /** `events` can be performed from `s`, one by one, each through an offered control. */
  predicate OfferedRun(bank: seq<Question>, table: seq<(string, string)>, s: State, events: seq<Event>)
    requires |bank| == QuestionCount && Invariant(s)
    decreases |events|
  {
    events == [] ||
      (&& Possible(bank, events[0])
       && Offered(s, events[0])
       && OfferedRun(bank, table, Step(bank, table, s, events[0]), events[1..]))
  }

  /** In chat mode the conversation is the greeting alone. */
  predicate ChatLocked(s: State) {
    s.mode == ChatMode ==> s.messages == [Say(Greeting)]
  }

  /** No offered control breaks the lock: entering chat mode leaves just the greeting, and
      the only control that could add to it, the chat box, needs a second message. */
  lemma StepKeepsChatLocked(bank: seq<Question>, table: seq<(string, string)>, s: State, e: Event)
    requires |bank| == QuestionCount && Invariant(s) && Possible(bank, e)
    requires ChatLocked(s) && Offered(s, e)
    ensures ChatLocked(Step(bank, table, s, e))
    ensures !e.InputChanged? && !e.SendClicked?
  {
  }

  /** As written, the chat box never appears: along every run of offered controls from a
      chat-locked state (the mounted page is one), no event types into it or sends it. */
  lemma {:induction false} ChatNeverOpens(bank: seq<Question>, table: seq<(string, string)>, s: State, events: seq<Event>)
    requires |bank| == QuestionCount && Invariant(s) && ChatLocked(s)
    requires OfferedRun(bank, table, s, events)
    ensures forall k :: 0 <= k < |events| ==> !events[k].InputChanged? && !events[k].SendClicked?
    decreases |events|
  {
    if events != [] {
      StepKeepsChatLocked(bank, table, s, events[0]);
      ChatNeverOpens(bank, table, Step(bank, table, s, events[0]), events[1..]);
      forall k | 1 <= k < |events| ensures events[k] == events[1..][k - 1] {
      }
    }
  }

  /** From the mounted page: clicking Chat Mode shows the greeting and the start buttons
      again, not the chat box, and no run of offered controls ever sends a message. */
  lemma ChatModeIsDeadEnd(bank: seq<Question>, table: seq<(string, string)>, events: seq<Event>)
    requires |bank| == QuestionCount
    requires OfferedRun(bank, table, Init(), events)
    ensures Offered(Init(), StartChatClicked)
    ensures !ChatInputShown(StartChat(Init())) && StartButtonsShown(StartChat(Init()))
    ensures forall k :: 0 <= k < |events| ==> !events[k].SendClicked?
  {
    assert Invariant(Init()) && ChatLocked(Init());
    ChatNeverOpens(bank, table, Init(), events);
  }

  /** Answering never shortens the conversation and never changes the mode. */
  lemma {:induction false} AnswerAllKeepsMessages(bank: seq<Question>, s: State, answers: seq<int>)
    requires |bank| == QuestionCount && Invariant(s)
    ensures |AnswerAll(bank, s, answers).messages| >= |s.messages|
    ensures AnswerAll(bank, s, answers).mode == s.mode
    decreases |answers|
  {
    if answers != [] {
      HandleAnswerKeepsInvariant(bank, s, answers[0]);
      AnswerAllKeepsMessages(bank, HandleAnswer(bank, s, answers[0]), answers[1..]);
    }
  }

  /** A quiz state with the answer locked, the index below 10 and more than one message
      offers no control. */
  lemma LockedQuizOffersNothing(s: State)
    requires s.mode == QuizMode && s.answered && s.currentQuestion < QuestionCount
    requires |s.messages| > 1
    ensures forall e :: !Offered(s, e)
  {
  }

  /** As written, a finished quiz offers no control at all: the question index stops at 9,
      so Play Again, which waits for 10, never shows; the start buttons need a
      one-message conversation; the options are locked; the chat box belongs to chat mode. */
  lemma FinishedQuizIsDeadEnd(bank: seq<Question>, s: State, shuffled: seq<Question>, answers: seq<int>)
    requires |bank| == QuestionCount && Invariant(s)
    requires IsShuffle(shuffled, bank) && |answers| == QuestionCount
    ensures var done := AnswerAll(bank, StartQuiz(bank, s, shuffled), answers);
      && EndsWithSummaryOf(done, done.score)
      && forall e :: !Offered(done, e)
  {
    var started := StartQuiz(bank, s, shuffled);
    StartQuizKeepsInvariant(bank, s, shuffled);
    AnswerRemaining(bank, started, answers);
    AnswerAllKeepsMessages(bank, started, answers);
    LockedQuizOffersNothing(AnswerAll(bank, started, answers));
  }

  /** Along any sequence of actions from the mounted page, Play Again is never shown. */
  lemma ReplayNeverShown(bank: seq<Question>, table: seq<(string, string)>, events: seq<Event>)
    requires |bank| == QuestionCount
    requires forall k :: 0 <= k < |events| ==> Possible(bank, events[k])
    ensures !PlayAgainShown(Run(bank, table, Init(), events))
  {
    ReachableBounds(bank, table, events);
  }
}
