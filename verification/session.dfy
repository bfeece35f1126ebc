/** The page's state: the conversation so far, the chat input box and the quiz progress. */
module Session {

  datatype Option<T> = None | Some(value: T)

  datatype Role = User | Assistant

  /** `gameMode`. */
  datatype Mode = QuizMode | ChatMode

  /** One entry of the conversation. A question carries its options and the index of
      the right one; `showAnswer` is false while the answer is still hidden (the page
      leaves the field undefined, which renders the same). */
  datatype Message = Message(
    role: Role,
    content: string,
    options: Option<seq<string>>,
    correctAnswer: Option<int>,
    showAnswer: bool)

  /** A plain assistant message, without options. */
  function Say(text: string): Message {
    Message(Assistant, text, None, None, false)
  }

  /** A plain user message. */
  function UserSays(text: string): Message {
    Message(User, text, None, None, false)
  }

  datatype State = State(
    messages: seq<Message>,
    input: string,
    currentQuestion: nat,
    score: nat,
    answered: bool,
    mode: Mode)

  const Welcome := "Welcome to ChatPT Atlas! I'm your geography AI assistant. Choose a mode to get started:"

  /** The state once the page has mounted: quiz mode, nothing answered, and the
      welcome message as the whole conversation. */
  function Init(): (r: State)
    ensures r.mode == QuizMode && r.currentQuestion == 0 && r.score == 0 && !r.answered
    ensures r.input == []
    ensures |r.messages| == 1 && r.messages[0].role == Assistant && r.messages[0].options.None?
  {
    State([Say(Welcome)], "", 0, 0, false, QuizMode)
  }
}
