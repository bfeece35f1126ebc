# ChatPT Atlas: the quiz and chat logic of the page

ChatPT Atlas is a one-page geography companion. A visitor either takes a
ten-question multiple-choice quiz or chats, and a keyword table answers free
text. This project models the interaction logic of `app/page.tsx` as a pure
reducer over an immutable page state:

- the state is the conversation, the input box, the question index, the score,
  the answer lock and the mode;
- the question bank is ten questions, each with four options and an answer
  index;
- the quiz transitions are `startQuiz`, `askQuestion` and `handleAnswer`; each
  delayed continuation that `handleAnswer` schedules runs as the next step;
- `startChat`, and the chat submit with its keyword responder: lower-case the
  input, take the value of the first key in table order that occurs in it, and
  otherwise give the fallback.

On top of the transitions it proves:

- the invariant every reachable state keeps;
- the outcome of a whole quiz;
- first-match priority of the keyword table;
- which controls the page's markup offers in each state.

Modules:

- `Text`: the JavaScript string operations used: `trim` as a blank test,
  ASCII `toLowerCase`, `includes`, and decimal rendering.
- `Questions`: the `Question` record, the bank, and what a reordering of it is.
- `Session`: messages, the page state, and the state after mounting.
- `Quiz`: the quiz transitions as written, and their invariant.
- `Chat`: chat mode, the keyword table, the responder, and the submit handler.
- `Runs`: sequences of user actions and a whole quiz.
- `Screen`: which controls are shown or enabled in a state.
- `Corrected`: the intended definitions for the four defects below, with the
  behaviour as written for the first two (the last two are shown as written in
  `Screen`).

The transitions take the question bank and the keyword table as parameters, so
each property holds for any ten-question bank and any table. The page's own
are `Questions.Bank` and `Chat.Responses`, copied verbatim. The lemmas about
those constants are instances of the parameterised ones. One caveat: the chat
submit replies with the reference first-match reply, `Chat.Reply`. The page's
loop, `Chat.Respond`, gives that same reply for every table in which no value is
the text the reply starts from. `Chat.ResponsesValuesDistinct` shows this holds
for the page's table.

Randomness enters once. `startQuiz` sorts a copy of the bank with a random
comparator. Here the order it produced is an argument, constrained only to be
a reordering of the bank (`Questions.IsShuffle`).

## Model

| member | source | states |
|---|---|---|
| Questions.BankWellFormed | app/page.tsx:20-81 | the bank has exactly ten questions, each with exactly four options and an answer index in 0..3 |
| Questions.ShuffleFirstInBank | app/page.tsx:111-112 | the first question of any reordering of a non-empty bank is a question of the bank |
| Text.TrimStart | app/page.tsx:178 | the result is a suffix of the input, everything dropped is whitespace, and the result does not start with whitespace |
| Text.TrimEnd | app/page.tsx:178 | the result is a prefix of the input, everything dropped is whitespace, and the result does not end with whitespace |
| Text.BlankIffAllWhitespace | app/page.tsx:178 | `!input.trim()` holds exactly when every character of the input is JavaScript whitespace or a line terminator |
| Text.ToLower | app/page.tsx:200 | same length; no upper-case ASCII letter remains; upper-case letters move by 32 and every other character is kept |
| Text.ToLowerIdempotent | app/page.tsx:200 | lower-casing an already lower-cased input changes nothing |
| Text.IncludesIffOccurs | app/page.tsx:203 | the left-to-right `includes` scan answers true exactly when the key occurs at some position of the text |
| Text.NotIncludedWhenAbsent | app/page.tsx:203 | a key with a character that the text lacks is not included in the text |
| Text.Decimal | app/page.tsx:170 | the rendering of a score is a non-empty digit string without a leading zero that denotes the score |
| Quiz.AskQuestion | app/page.tsx:125-133 | appends exactly one message posing the question, with its options and answer index; clears the lock; nothing else changes |
| Quiz.StartQuiz | app/page.tsx:106-113 | quiz mode; score 0; index 0; unlocked; the earlier conversation is kept as a prefix; exactly one question is appended, the first of the reordering, and it is a question of the bank |
| Quiz.Reveal | app/page.tsx:146-151 | same number of messages; all but the last are unchanged; the last is revealed and otherwise unchanged |
| Quiz.RevealIdempotent | app/page.tsx:146-151 | revealing twice equals revealing once |
| Quiz.FeedbackText | app/page.tsx:156-158 | the feedback starts with a tick exactly when the answer was right; it always contains the explanation; after a wrong answer it contains the right option |
| Quiz.Feedback | app/page.tsx:153-159 | the feedback is a plain assistant message that ticks exactly the right answers, contains the question's explanation, and names the right option after a wrong answer |
| Quiz.Summary | app/page.tsx:167-171 | the summary is a plain assistant message containing "score: N/10. " for the reported score N, so the digits are anchored on the text before them; it contains the remark chosen from the remark score and none of the other two remarks |
| Quiz.Verdict | app/page.tsx:170 | the remark is "Excellent work!" exactly from 7 up, "Good job!" exactly for 5 and 6, and "Keep learning!" exactly below 5 |
| Quiz.LeadLacksInitials | app/page.tsx:170 | the text in front of the remark, "🎉 Quiz complete! Your final score: N/10. ", contains none of the letters E, G and K, whatever the score |
| Quiz.OnlyOneRemark | app/page.tsx:170 | the summary text contains no remark other than the one chosen from the remark score |
| Quiz.Accept | app/page.tsx:136-151 | a locked state is returned unchanged; otherwise the answer locks; the score rises by one exactly when the choice is the bank's answer for the current index and is unchanged exactly when it is not; the last message is revealed; nothing else changes |
| Quiz.ShowFeedback | app/page.tsx:153-159 | appends exactly the feedback for the given question of the bank; nothing else changes |
| Quiz.NextQuestion | app/page.tsx:161-165 | moves the index to the next one, unlocks, and appends the bank's question at the new index; nothing else changes |
| Quiz.FinishQuiz | app/page.tsx:166-172 | appends exactly the summary; nothing else changes |
| Quiz.HandleAnswer | app/page.tsx:135-175 | the whole click: a no-op when locked; mode and input unchanged; score +1 if and only if the choice is the bank's answer at the current index; the conversation becomes the revealed one plus the feedback; below index 9 it advances and poses the bank's next question; at index 9 it stays locked on 9 and ends on a summary of the new score |
| Quiz.DoubleClickIgnored | app/page.tsx:136 | a second click while the answer is locked changes nothing; once the continuations have run, a further click is taken exactly when a next question was posed |
| Quiz.InvariantBounds | app/page.tsx:161-172 | in a state satisfying the invariant the index lies in 0..9 and the score is at most the index plus one, hence at most 10 |
| Quiz.StartQuizKeepsInvariant | app/page.tsx:106-113 | starting a quiz establishes the invariant from any state |
| Quiz.HandleAnswerKeepsInvariant | app/page.tsx:135-175 | an answer click preserves the invariant |
| Session.Init | app/page.tsx:84-100 | the mounted page is in quiz mode at question 0 with score 0, unlocked, with an empty input box and a conversation of one assistant message without options |
| Chat.SetInput | app/page.tsx:292 | the input box holds the new text and nothing else changes |
| Chat.TypeThenSend | app/page.tsx:177-183 | typing whitespace and sending leaves the state as typing left it; typing anything else and sending appends exactly what was typed and its reply, empties the box, and changes nothing else |
| Chat.StartChat | app/page.tsx:115-123 | chat mode, and the conversation is exactly the one greeting; the quiz fields and the input are untouched |
| Chat.FirstMatch | app/page.tsx:202-207 | a found entry index lies within the table |
| Chat.FirstMatchCorrect | app/page.tsx:202-207 | the search finds nothing exactly when no key occurs, and otherwise the entry it finds is the first in table order whose key occurs |
| Chat.ResponsesValuesDistinct | app/page.tsx:186-211 | the page's table has ten entries, none of whose values is the initial text or the fallback, so the "nothing matched" test is exact |
| Chat.ReplyIsFirstMatch | app/page.tsx:199-211 | the reply is the value of the first matching entry, the fallback when nothing matches, and for a table without the fallback among its values it is the fallback exactly when nothing matches |
| Chat.Respond | app/page.tsx:199-211 | the loop with its early exit and the sentinel test yields the first matching value (completed to the fallback only if that value is the initial text) or the fallback when nothing matches; for a table without the initial text among its values it equals the reference reply |
| Chat.SubmitChat | app/page.tsx:177-215 | whitespace-only input changes nothing; otherwise exactly two messages are appended, the user's input as typed and then the reply, and the input is cleared; nothing else changes |
| Chat.CapitalFirst | app/page.tsx:202-206 | in any table whose first key is "capital", "What is the capital of Japan?" gets that entry's value (the capital letter W is lower-cased first) |
| Chat.CapitalExample | app/page.tsx:187 | on the page's table that question gets the capitals reply |
| Chat.NoKeyLetter | app/page.tsx:209-211 | lower-case text lacking the first letter of every key gets the fallback |
| Chat.UnknownTopicExample | app/page.tsx:199-211 | on the page's table "xyz123" gets the fallback |
| Chat.FirstKeyOutranks | app/page.tsx:202-206 | table order, not position in the text, decides: "island capital" contains "island" yet gets the value of a first entry "capital" |
| Chat.PriorityExample | app/page.tsx:186-206 | on the page's table "island capital" names the island key but gets the capitals reply |
| Runs.Step | app/page.tsx:106-216 | every single user action, with its continuations run, preserves the invariant |
| Runs.Run | app/page.tsx:106-216 | any sequence of user actions preserves the invariant |
| Runs.ReachableBounds | app/page.tsx:161-172 | from the mounted page, whatever the actions, the index stays at most 9 and the score at most the index plus one |
| Runs.AnswerAll | app/page.tsx:135-175 | answering a sequence of clicks preserves the invariant |
| Runs.CountCorrect | app/page.tsx:139-144 | the number of answers matching the bank never exceeds the number of answers |
| Runs.AnswerStep | app/page.tsx:135-175 | one accepted click adds exactly one point for a right answer and none otherwise; it advances and unlocks below index 9, and at 9 it locks and ends on a summary of the new score |
| Runs.AnswerRemaining | app/page.tsx:135-175 | answering all remaining questions adds one point per answer matching the bank at its position, stops at index 9 locked, and ends on a summary of the final score |
| Runs.LockedIgnoresClicks | app/page.tsx:136 | once the answer is locked, any number of further clicks change nothing |
| Runs.FullQuiz | app/page.tsx:106-175 | a started quiz answered ten times scores exactly the number of answers that match the bank, at most 10, and ends on a summary of that score; further clicks change nothing; starting again resets score and index |
| Screen.StepKeepsChatLocked | app/page.tsx:274-301 | no offered control adds to the chat greeting, and typing or sending is never offered while chat mode holds only the greeting |
| Screen.ChatNeverOpens | app/page.tsx:287-301 | along every run of offered controls from such a state, no action types into the chat box or sends it |
| Screen.ChatModeIsDeadEnd | app/page.tsx:274-301 | from the mounted page, Chat Mode is offered but leads back to the start buttons without the chat box, and no run of offered controls ever sends a message |
| Screen.AnswerAllKeepsMessages | app/page.tsx:135-175 | answering never shortens the conversation or changes the mode |
| Screen.LockedQuizOffersNothing | app/page.tsx:226-309 | a locked quiz state with the index below 10 and more than one message offers no control at all |
| Screen.FinishedQuizIsDeadEnd | app/page.tsx:303-309 | a quiz started from any state satisfying the invariant, chat mode included, and answered to the end shows its summary and then offers no control, so Play Again is never offered |
| Screen.ReplayNeverShown | app/page.tsx:303-309 | from the mounted page, whatever the actions, Play Again is never shown |
| Corrected.SwapFirstTwo | app/page.tsx:111 | exchanging the first two questions is a reordering the random sort can produce |
| Corrected.AsWrittenGradesOtherQuestion | app/page.tsx:111-140 | when the order puts the bank's second question first and its answer differs from the first's, the right answer to the shown question scores nothing as written and scores one as intended |
| Corrected.AsWrittenPageGradesOtherQuestion | app/page.tsx:20-140 | on the page's own bank the shown river question is graded against the Australia question |
| Corrected.AsWrittenVerdictLags | app/page.tsx:170 | six points before the last question and a right last answer report 7/10 with the remark for six: the closing message is not the summary for 7 points, and it contains "Good job!" but not "Excellent work!" |
| Corrected.HandleAnswer | app/page.tsx:135-175 | the intended click: a no-op when locked; a point exactly when the choice is the answer of the question on screen, and an unchanged score exactly when it is not; the conversation becomes exactly the earlier one with the last message revealed, then the feedback for the shown question, then either the next question of the order (index advanced, unlocked) or the summary of the final score with its own remark (index past the last question, Play Again shown in quiz mode); the question shown is always the one graded; mode and input unchanged |
| Corrected.Explain | app/page.tsx:136-159 | an accepted click along the order locks the answer, scores a point exactly when the choice is right for the shown question, reveals the last message and appends that question's feedback; nothing else changes |
| Corrected.Advance | app/page.tsx:136-165 | before the last question: the earlier conversation revealed, the feedback, then the next question of the order; the index advances, the answer unlocks and the shown question is the graded one |
| Corrected.Finish | app/page.tsx:166-172 | the summary of the final score, with the remark chosen from that same score, is appended and the index moves past the last question; nothing else changes |
| Corrected.Conclude | app/page.tsx:136-172 | on the last question: the earlier conversation revealed, the feedback, then the summary of the score that includes this answer, with its own remark; locked and past the last question |
| Corrected.IntendedGradesShown | app/page.tsx:106-164 | a quiz started with a reordering and answered along it grades what it shows after any answers |
| Corrected.AlongKeepsGradesShown | app/page.tsx:135-175 | intended answers keep the shown question equal to the graded one |
| Corrected.AlongFinishes | app/page.tsx:161-172 | answering every remaining question as intended ends locked, past the last question, in the same mode |
| Corrected.IntendedQuizOffersReplay | app/page.tsx:303-309 | as intended, a whole quiz ends with Play Again shown and a new quiz offered |
| Corrected.IntendedChatOpens | app/page.tsx:287-301 | as intended, opening chat, typing a question and sending it are each offered, and the conversation becomes the greeting, the question and its reply; as written the box is absent |
| Corrected.ChatModeFromMount | app/page.tsx:115-123 | from the mounted page Chat Mode is offered and leads to chat mode with the greeting alone, where the page as written shows no chat box |
| Corrected.AskFromGreeting | app/page.tsx:177-183 | with the chat box shown in chat mode, typing and sending are offered in a one-message conversation, and sending appends the question and its reply |

## Left out

- Markup and styling are not modelled beyond the conditions under which controls appear (module `Screen`). Left out: the score header text, option highlighting, the loading dots and scrolling into view.
- Timers are not modelled. Each `setTimeout` continuation runs immediately after its handler, and each continuation receives the values it captured when the click was handled. A click between a handler and its continuations is covered by `Quiz.Accept` and `Quiz.DoubleClickIgnored`. Other interleavings are left out, for example switching mode while a quiz continuation is pending.
- The `loading` flag is not modelled. With the reply run at once it is false between steps, so the disabled input it controls never matters.
- `Math.random` is not modelled. The sorted copy is an argument, and any reordering of the bank is allowed.
- Before mounting, the page briefly renders an empty conversation. `Session.Init` is the state after the mount effect has put the welcome message in place.
- The page leaves `showAnswer` undefined on a new question. It is modelled as `false`, which renders the same.
- Text.ToLower: lower-cases ASCII letters only, while JavaScript's `toLowerCase` maps other letters as well. That matters only where a non-ASCII letter lower-cases onto an ASCII key letter. The Kelvin sign becomes `k`, which no key contains. The dotted capital I becomes `i` followed by a combining dot, and that dot keeps every key containing `i` from matching there.
- Strings are sequences of Unicode scalar values rather than UTF-16 code units. No modelled behaviour depends on lengths.
- Quiz.HandleAnswer: an accepted click requires a question index inside the bank and a non-empty conversation. There the page throws a `TypeError` instead of returning a state.
- `app/layout.tsx` is not part of this model. It holds metadata and the HTML shell only.

## Findings

| source | as written | input that shows it | evidently intended | confidence | as-written member | corrected member |
|---|---|---|---|---|---|---|
| app/page.tsx:112 | the first question shown is the head of the random order, but grading (line 139) and the follow-up questions (line 164) use the bank in declared order | the random order puts the river question first; choosing its right answer, "Nile", is graded against the Australia question and scores 0 | walk the random order that was shown: grade, explain and advance along it | high (not executed) | Corrected.AsWrittenGradesOtherQuestion | Corrected.HandleAnswer |
| app/page.tsx:170 | the closing remark is chosen from `score`, the score before the last answer, while the reported score includes it | six points before the last question and a right last answer: "7/10. Good job!" | choose the remark from the reported score: "7/10. Excellent work!" | high (not executed) | Corrected.AsWrittenVerdictLags | Corrected.HandleAnswer |
| app/page.tsx:161-172 | finishing leaves the question index at 9, but Play Again waits for 10 (line 303), and the start buttons need a one-message conversation (line 274) | answer all ten questions: the summary appears and no button is left to start another quiz | finishing moves the index to 10, so Play Again appears | high (not executed) | Screen.FinishedQuizIsDeadEnd | Corrected.IntendedQuizOffersReplay |
| app/page.tsx:287 | the chat box needs more than one message, but `startChat` (lines 117-122) leaves exactly one | click Chat Mode on the welcome screen: the greeting appears with the two start buttons, and no input box | show the chat box whenever the mode is chat | high (not executed) | Screen.ChatModeIsDeadEnd | Corrected.IntendedChatOpens |
