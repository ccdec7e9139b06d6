# Conversation-history formatter

This project models the conversation-history formatter of a
retrieval-augmented question-answering worker. The formatter is
`formatConversationHistory(messages)`. It takes the ordered list of earlier
turns and builds the one transcript string that goes into both prompts. The
message at an even position is the human's turn and gets the label
`"Human: "`. The message at an odd position is the expert's turn and gets
`"Expert: "`. The labelled entries are joined with a newline.

Files:

- `strings.dfy` (module `Strings`): `Join` follows JavaScript's
  `Array.prototype.join`. `Split` follows `String.prototype.split` for a
  one-character separator. The module also has occurrence counts and the
  facts that link `Join` and `Split`.
- `format_conversation_history.dfy` (module `FormatConversationHistory`):
  - `Label`, `Entry` (the `map` callback), `Entries` (the `map`) and
    `Format` (map, then join);
  - the lemmas about the transcript;
  - `Parse`, the inverse of `Format`, so that round trips can be stated.
    `Parse` does not exist in the source.

`Format` has no contract of its own. Its properties are stated by the lemmas
below.

One might expect the transcript to have exactly one line per message. The
code only guarantees that when no message contains a newline. A message is
inserted verbatim, so every newline inside it adds a line. The model follows
the code: `Lines` proves that the transcript splits into one line per message exactly
when no message holds a newline. `EmbeddedNewlineIsAmbiguous` shows a concrete
case, where one message `"a\nExpert: b"` gives the same transcript as the two
messages `"a"`, `"b"`.

## Model

| member | source | states |
|---|---|---|
| FormatConversationHistory.Label | src/utils/formatConversationHistory.js:3-7 | a label is 7 characters at an even position and 8 at an odd one, and never contains a newline |
| FormatConversationHistory.Format | src/utils/formatConversationHistory.js:1-9 | `formatConversationHistory` itself: the entries joined with a newline; it has no contract of its own, and the lemmas below state its properties |
| FormatConversationHistory.Entry | src/utils/formatConversationHistory.js:4-6 | an entry starts with its position's label, and what follows the label is the message, unaltered |
| FormatConversationHistory.Entries | src/utils/formatConversationHistory.js:2-7 | there is one entry per message, in the same order; entry k is the entry of message k at position k |
| FormatConversationHistory.FormatShape | src/utils/formatConversationHistory.js:2-8 | the transcript is empty exactly when there are no messages; otherwise it starts with "Human: " followed by the first message and ends with the last message's entry, so there is no leading or trailing separator |
| FormatConversationHistory.FormatSingle | src/utils/formatConversationHistory.js:2-8 | a single message is formatted as "Human: " followed by the message |
| FormatConversationHistory.FormatAppend | src/utils/formatConversationHistory.js:2-8 | appending a message to a non-empty history appends a newline, the new position's label and the message |
| FormatConversationHistory.FormatTwo | src/utils/formatConversationHistory.js:2-8 | a two-message history is "Human: " q, a newline, then "Expert: " a |
| FormatConversationHistory.EntryLabelParity | src/utils/formatConversationHistory.js:3-7 | entry k starts with "Human: " if and only if k is even, and with "Expert: " if and only if k is odd, whatever the messages contain |
| FormatConversationHistory.NewlineCount | src/utils/formatConversationHistory.js:2-8 | for n ≥ 1 messages, the transcript holds the n − 1 separator newlines plus the newlines inside the messages |
| FormatConversationHistory.Lines | src/utils/formatConversationHistory.js:2-8 | for n ≥ 1 messages, splitting the transcript at newlines gives n lines if and only if no message holds a newline; in that case the lines are the entries, in message order |
| FormatConversationHistory.FormatLength | src/utils/formatConversationHistory.js:4-8 | for n ≥ 1, the length is the sum of the message lengths, plus 7 per even position, plus 8 per odd position, plus n − 1 |
| FormatConversationHistory.EmbeddedNewlineIsAmbiguous | src/utils/formatConversationHistory.js:2-8 | the message "a\nExpert: b" alone gives the same transcript as the two messages "a", "b" |
| FormatConversationHistory.UnlabelEntries | src/utils/formatConversationHistory.js:3-7 | removing the position labels from the entries gives back the messages |
| FormatConversationHistory.UnlabelSound | src/utils/formatConversationHistory.js:3-7 | any list of lines from which the labels can be removed is exactly the entries of the messages recovered |
| FormatConversationHistory.ParseFormat | src/utils/formatConversationHistory.js:2-8 | parsing the transcript of a newline-free history gives back that history |
| FormatConversationHistory.FormatParse | src/utils/formatConversationHistory.js:2-8 | every transcript that `Parse` accepts comes from a newline-free history, and formatting that history rebuilds the transcript |
| FormatConversationHistory.FormatInjective | src/utils/formatConversationHistory.js:2-8 | two newline-free histories with the same transcript are equal |
| Strings.Join | src/utils/formatConversationHistory.js:8 | `Array.prototype.join`: the elements in order with the separator between neighbours, and the empty string for no elements; it has no contract of its own, and the lemmas below state its properties |
| Strings.JoinAppend | src/utils/formatConversationHistory.js:8 | joining one more element onto a non-empty list adds a separator and then the element at the end |
| Strings.JoinStart | src/utils/formatConversationHistory.js:8 | a non-empty join starts with its first element |
| Strings.JoinEnd | src/utils/formatConversationHistory.js:8 | a non-empty join ends with its last element |
| Strings.JoinOccurrences | src/utils/formatConversationHistory.js:8 | a non-empty join on one character holds one such character per gap, plus those inside the elements |
| Strings.SplitJoin | src/utils/formatConversationHistory.js:8 | splitting the join of a non-empty list on a character that no element contains gives back the elements |
| Strings.JoinSplit | src/utils/formatConversationHistory.js:8 | joining the pieces of a split on the same character rebuilds the string |

## Left out

- src/index.js is left out as a whole. It is the HTTP `fetch` handler, and all of it is network I/O or glue around calls into the langchain, OpenAI and Supabase libraries: the CORS preflight reply, building the embeddings, chat-model and vector-store clients, the prompt-template and runnable-sequence pipeline, and JSON parsing and serialisation.
- `combineDocuments`, imported at src/index.js:4 from src/utils/combineDocuments, is not modelled: it belongs to the retrieval stage, not to the history formatter.
- Messages are modelled as `seq<string>` only. JavaScript also stringifies non-string messages through the template literal. An `undefined` or non-array `messages` makes `.map` throw, and the caller catches that error.
- Strings are sequences of `char`. Lengths count `char` values, not UTF-16 code units.
