/**
 Chat mode: switching to it, and answering free text from a fixed keyword table.
 The table is ordered, and the first key (in table order) found in the
 lower-cased input decides the reply, so the order is a priority list. The
 operations take the table as a parameter (the page's own is `Responses`).
 */
module Chat {
  import opened Text
  import opened Session

  const Greeting := "I'm now in chat mode! Ask me anything about geography - countries, capitals, rivers, mountains, or any other geographical topics you're curious about!"

  /** `startChat`: chat mode, and the greeting replaces the whole conversation.
      The quiz fields and the input box are left as they were. */
  function StartChat(s: State): (r: State)
    ensures r.mode == ChatMode
    ensures |r.messages| == 1 && r.messages[0] == Say(Greeting)
    ensures r.(messages := s.messages, mode := s.mode) == s
  {
    s.(mode := ChatMode, messages := [Say(Greeting)])
  }

  /** The keyword table, in the order its entries are declared and iterated. */
  const Responses: seq<(string, string)> := [
    ("capital", "Capitals are the designated administrative centers of countries. For example, the capital of France is Paris, the capital of Japan is Tokyo, and the capital of Brazil is Brasília (not Rio de Janeiro or São Paulo!)."),
    ("mountain", "Major mountain ranges include the Himalayas (home to Mount Everest, the world's highest peak at 8,849m), the Andes (longest continental mountain range), the Alps, and the Rockies."),
    ("ocean", "Earth has five oceans: Pacific (largest), Atlantic, Indian, Southern (Antarctic), and Arctic (smallest). The Pacific Ocean covers more area than all land on Earth combined!"),
    ("river", "The longest rivers include the Nile (6,650 km), Amazon (6,400 km), and Yangtze (6,300 km). The Amazon carries the most water by volume."),
    ("desert", "The world's largest desert is Antarctica (polar desert). The largest hot desert is the Sahara in Africa, spanning 9 million square kilometers."),
    ("continent", "Earth has 7 continents: Asia (largest), Africa, North America, South America, Antarctica, Europe, and Australia/Oceania (smallest)."),
    ("population", "The most populous countries are China (~1.4 billion), India (~1.4 billion), USA (~330 million), Indonesia (~275 million), and Pakistan (~230 million)."),
    ("largest country", "Russia is the largest country by area (17.1 million km²), nearly twice the size of Canada, the second largest."),
    ("smallest country", "Vatican City is the smallest country at just 0.44 km². Monaco, San Marino, and Liechtenstein are other very small countries."),
    ("island", "Greenland is the world's largest island (excluding continents). Other large islands include New Guinea, Borneo, Madagascar, and Baffin Island.")
  ]

  /** The reply starts as this text and keeps it when no key matched. */
  const FallbackLead := "That's an interesting geography question! "

  const FallbackTail := "I can help you learn about capitals, mountains, oceans, rivers, deserts, continents, countries, islands, and more. What specific topic would you like to explore?"

  /** The reply when no key matches. */
  const Fallback := FallbackLead + FallbackTail

  /** Entry `k` is the first entry of `table` whose key `text` includes. */
  ghost predicate IsFirstMatch(table: seq<(string, string)>, text: string, k: int) {
    && 0 <= k < |table|
    && Includes(text, table[k].0)
    && forall j :: 0 <= j < k ==> !Includes(text, table[j].0)
  }

  /** `text` includes no key of `table`. */
  ghost predicate NoMatch(table: seq<(string, string)>, text: string) {
    forall j :: 0 <= j < |table| ==> !Includes(text, table[j].0)
  }

  /** Reference definition of the first match, by recursion on the table. */
  function FirstMatch(table: seq<(string, string)>, text: string): (r: Option<nat>)
    ensures r.Some? ==> r.value < |table|
  {
    if table == [] then None
    else if Includes(text, table[0].0) then Some(0)
    else match FirstMatch(table[1..], text)
      case None => None
      case Some(k) => Some(k + 1)
  }

  /** The recursion finds exactly the first matching entry, and nothing when none matches. */
  lemma {:induction false} FirstMatchCorrect(table: seq<(string, string)>, text: string)
    ensures FirstMatch(table, text).None? <==> NoMatch(table, text)
    ensures FirstMatch(table, text).Some? ==> IsFirstMatch(table, text, FirstMatch(table, text).value)
  {
    if table != [] && !Includes(text, table[0].0) {
      FirstMatchCorrect(table[1..], text);
      assert forall j :: 1 <= j < |table| ==> table[1..][j - 1] == table[j];
      match FirstMatch(table[1..], text)
      case None =>
        assert NoMatch(table, text) by {
          forall j | 0 <= j < |table| ensures !Includes(text, table[j].0) {
            if j > 0 {
              assert table[j] == table[1..][j - 1];
            }
          }
        }
      case Some(k) =>
        assert IsFirstMatch(table, text, k + 1) by {
          forall j | 0 <= j < k + 1 ensures !Includes(text, table[j].0) {
            if j > 0 {
              assert table[j] == table[1..][j - 1];
            }
          }
        }
    }
  }

  /** The reply to `input`, as the table and the fallback define it. */
  function Reply(table: seq<(string, string)>, input: string): string {
    match FirstMatch(table, ToLower(input))
    case Some(k) => table[k].1
    case None => Fallback
  }

  /** No value of `table` is the text the reply starts from. */
  predicate NoValueIsLead(table: seq<(string, string)>) {
    forall k :: 0 <= k < |table| ==> table[k].1 != FallbackLead
  }

  /** No value of `table` is the fallback. */
  predicate NoValueIsFallback(table: seq<(string, string)>) {
    forall k :: 0 <= k < |table| ==> table[k].1 != Fallback
  }

  /** The last character of a non-empty string. */
  function Last(s: string): char
    requires |s| > 0
  {
    s[|s| - 1]
  }

  /** The page's table has neither the lead nor the fallback among its values, so its
      check for "nothing matched" is exact and the fallback is told apart from every
      topic reply. */
  lemma ResponsesValuesDistinct()
    ensures |Responses| == 10
    ensures NoValueIsLead(Responses) && NoValueIsFallback(Responses)
  {
    assert Last(FallbackLead) == ' ' && Last(Fallback) == '?';
    forall k | 0 <= k < |Responses|
      ensures Last(Responses[k].1) == '.' || Last(Responses[k].1) == '!'
    {
      assert k == 0 || k == 1 || k == 2 || k == 3 || k == 4 || k == 5 || k == 6 || k == 7 || k == 8 || k == 9;
    }
  }

  /** The reply is the first matching value, and (when no value is the fallback) it is
      the fallback exactly when nothing matches. */
  lemma ReplyIsFirstMatch(table: seq<(string, string)>, input: string)
    ensures forall k :: IsFirstMatch(table, ToLower(input), k) ==> Reply(table, input) == table[k].1
    ensures NoMatch(table, ToLower(input)) ==> Reply(table, input) == Fallback
    ensures NoValueIsFallback(table) ==>
      (Reply(table, input) == Fallback <==> NoMatch(table, ToLower(input)))
  {
    FirstMatchCorrect(table, ToLower(input));
  }

  /** The body of the delayed reply: start from the fallback's lead, take the value of
      the first key the lower-cased input includes, and complete the fallback if the
      reply is still the lead. A value equal to the lead would be completed as well;
      for a table without one this is exactly `Reply`. */
  method Respond(table: seq<(string, string)>, userMessage: string) returns (response: string)
    ensures forall k :: IsFirstMatch(table, ToLower(userMessage), k) ==>
      response == (if table[k].1 == FallbackLead then Fallback else table[k].1)
    ensures NoMatch(table, ToLower(userMessage)) ==> response == Fallback
    ensures NoValueIsLead(table) ==> response == Reply(table, userMessage)
  {
    response := FallbackLead;
    var lowerInput := ToLower(userMessage);
    var i := 0;
    while i < |table|
      invariant 0 <= i <= |table|
      invariant response == FallbackLead
      invariant forall j :: 0 <= j < i ==> !Includes(lowerInput, table[j].0)
    {
      if Includes(lowerInput, table[i].0) {
        response := table[i].1;
        assert IsFirstMatch(table, lowerInput, i);
        break;
      }
      i := i + 1;
    }
    if response == FallbackLead {
      response := response + FallbackTail;
    }
    ReplyIsFirstMatch(table, userMessage);
  }

  /** `handleChatSubmit` with its delayed reply run at once: blank input is ignored;
      otherwise the input is posted as the user's message, the box is cleared, and the
      reply follows. Nothing else changes. The reply is the reference `Reply`; the
      page's loop, `Respond`, gives the same reply for every table in which no value is
      the initial text, which `ResponsesValuesDistinct` shows of the page's table. */
  function SubmitChat(table: seq<(string, string)>, s: State): (r: State)
    ensures AllWhitespace(s.input) ==> r == s
    ensures !AllWhitespace(s.input) ==>
      && |r.messages| == |s.messages| + 2
      && r.messages[..|s.messages|] == s.messages
      && r.messages[|s.messages|] == UserSays(s.input)
      && r.messages[|s.messages| + 1] == Say(Reply(table, s.input))
      && r.input == []
    ensures r.(messages := s.messages, input := s.input) == s
  {
    BlankIffAllWhitespace(s.input);
    if IsBlank(s.input) then s
    else s.(messages := s.messages + [UserSays(s.input), Say(Reply(table, s.input))], input := "")
  }

  /** The input box's change handler: the box holds the new text; nothing else changes. */
  function SetInput(s: State, text: string): (r: State)
    ensures r.input == text
    ensures r.(input := s.input) == s
  {
    s.(input := text)
  }

  /** Typing then sending posts exactly what was typed, followed by its reply, and empties
      the box; typing only whitespace leaves the state as typing left it. */
  lemma TypeThenSend(table: seq<(string, string)>, s: State, text: string)
    ensures var r := SubmitChat(table, SetInput(s, text));
      && (AllWhitespace(text) ==> r == SetInput(s, text))
      && (!AllWhitespace(text) ==>
            && r.messages == s.messages + [UserSays(text), Say(Reply(table, text))]
            && r.input == []
            && r.(messages := s.messages, input := s.input) == s)
  {
    var typed := SetInput(s, text);
    var r := SubmitChat(table, typed);
    if !AllWhitespace(text) {
      assert r.messages == typed.messages + [UserSays(text), Say(Reply(table, text))];
    }
  }

  /** A question about a capital gets the capital reply, in any table that lists
      "capital" first. */
  lemma CapitalFirst(table: seq<(string, string)>)
    requires |table| > 0 && table[0].0 == "capital"
    ensures Reply(table, "What is the capital of Japan?") == table[0].1
  {
    var text := "What is the capital of Japan?";
    var lower := ToLower(text);
    assert forall j :: 12 <= j < 19 ==> lower[j] == text[j];
    assert OccursAt(lower, "capital", 12);
    IncludesIffOccurs(lower, "capital");
    ReplyIsFirstMatch(table, text);
    assert IsFirstMatch(table, lower, 0);
  }

  lemma CapitalExample()
    ensures Reply(Responses, "What is the capital of Japan?") == Responses[0].1
  {
    CapitalFirst(Responses);
  }

  /** Text that contains the first letter of no key gets the fallback. */
  lemma NoKeyLetter(table: seq<(string, string)>, text: string)
    requires ToLower(text) == text
    requires forall j :: 0 <= j < |table| ==> |table[j].0| > 0 && table[j].0[0] !in text
    ensures Reply(table, text) == Fallback
  {
    forall j | 0 <= j < |table| ensures !Includes(text, table[j].0) {
      NotIncludedWhenCharMissing(text, table[j].0, 0);
    }
    ReplyIsFirstMatch(table, text);
  }

  /** Text mentioning no topic gets the fallback. */
  lemma UnknownTopicExample()
    ensures Reply(Responses, "xyz123") == Fallback
  {
    var text := "xyz123";
    assert ToLower(text) == text;
    forall j | 0 <= j < |Responses| ensures |Responses[j].0| > 0 && Responses[j].0[0] !in text {
      assert j == 0 || j == 1 || j == 2 || j == 3 || j == 4 || j == 5 || j == 6 || j == 7 || j == 8 || j == 9;
    }
    NoKeyLetter(Responses, text);
  }

  /** Table order, not position in the text, decides: "island capital" names an island
      first, yet a table that lists "capital" first answers about capitals. */
  lemma FirstKeyOutranks(table: seq<(string, string)>)
    requires |table| > 0 && table[0].0 == "capital"
    ensures Includes("island capital", "island")
    ensures Reply(table, "island capital") == table[0].1
  {
    var text := "island capital";
    assert ToLower(text) == text;
    assert OccursAt(text, "island", 0);
    assert OccursAt(text, "capital", 7);
    IncludesIffOccurs(text, "island");
    IncludesIffOccurs(text, "capital");
    assert IsFirstMatch(table, text, 0);
    ReplyIsFirstMatch(table, text);
  }

  /** Table order is priority: the page answers "island capital" about capitals,
      although the text also names an island, which has an entry of its own. */
  lemma PriorityExample()
    ensures Includes("island capital", Responses[9].0)
    ensures Reply(Responses, "island capital") == Responses[0].1
  {
    FirstKeyOutranks(Responses);
  }
}
