# Grok Chat: a Dafny model of the chat page's core

`app.py` is a single-page Streamlit chat client. It keeps a transcript in
the browser session and sends it to a completion service. It shows the
answer with fenced code blocks and inline `$...$` formulas rendered
specially. It saves every conversation as a JSON file in a
`conversations` directory, from which the sidebar lists, loads and deletes
them.

This project models that core as pure functions over immutable data:

- `Optional` holds the value that may be absent: a key missing from a
  stored file, a file missing from the directory.
- `Text` holds the Python string primitives the code relies on: `strip()`,
  `split(sep)`, `replace(old, new)`, `startswith`/`endswith`, `str(n)` for
  a number, and `<` on strings.
- `Segmenter` models `process_message_content`. It has two scanners that
  stand for the two regular expressions, each proved to find exactly the
  leftmost non-overlapping matches. Each match is replaced by a
  placeholder marker `__CODE_BLOCK_<n>__` or `__LATEX_BLOCK_<n>__`. The
  fragment is stored in the session's code or math map.
- `Renderer` models `render_message`. It cuts the text at every `__` and
  dispatches each piece. The result is the list of display calls issued,
  plus the key of a failed map lookup (the `KeyError` the page would
  raise).
- `Conversations` models `save_conversation`, `load_conversation`,
  `delete_conversation` and `get_saved_conversations` over a directory
  modelled as a map from file name to stored record.
- `Chat` models the initial session, the "New Conversation" button and
  one chat turn: the prompt, the answer, its rendering and the automatic
  save.
- `RoundTrip` proves that segmenting then rendering a message of prose
  around one code block or one formula shows exactly that prose and that
  fragment, in order.

Behaviour of the code that the model keeps as written:

- Each match is substituted with Python's `replace`, so every other
  occurrence of the same matched text is replaced too. The round-trip
  theorems are stated for messages where the matched text occurs once,
  and `RoundTrip.RepeatedRoundTrip` covers a block written twice: both
  copies become the first marker, and the block is stored under the
  second marker as well, whose key never appears in the text.
- The renderer cuts at every `__`. Prose containing `__`, or prose that
  begins like a marker body (`CODE_BLOCK_...`), is not shown as written.
  `RoundTrip.MarkerLikeProseFails` states the failed lookup.
- Code bodies are stored stripped. Formula bodies are stored as they are.
  A fence without a tag gets the language `python`.
- A turn whose answer fails to render has already recorded the user
  message and the answer's fragments. It does not record the answer and
  saves nothing.
- A save that cannot open its file has already given the session its id.
- A title is the first 30 characters of the first user message, followed
  by `...` whatever the message's length.
- The list is sorted by timestamp, newest first. Entries with a missing
  timestamp sort as `""`, and entries with a missing title use the file
  name.

## Model

| member | source | states |
|---|---|---|
| Text.Strip | app.py:95 | the result is the slice of the input left after removing whitespace at both ends: what is removed is all whitespace, the result's ends are not whitespace, and it is empty exactly when the input is all whitespace |
| Text.Split | app.py:111 | the pieces joined with the separator give back the text, no piece contains the separator, there is one piece exactly when the separator does not occur, and the first cut is at the leftmost occurrence; the later cuts are stated by `Text.SplitRest` and `Text.SplitAfterHead` |
| Text.SplitRest | app.py:111 | after the first piece and the separator that ends it, the remaining pieces are the pieces of the rest of the text, so every cut is at the leftmost occurrence in what remains |
| Text.SplitAfterHead | app.py:111 | a text that starts with a separator-free head and the separator splits into that head followed by the pieces of the remainder |
| Text.ReplaceAll | app.py:93 | replacing a pattern that does not occur, or replacing it by itself, leaves the text unchanged |
| Text.DecimalRoundTrip | app.py:92 | reading back the decimal numeral of a number gives that number |
| Text.DecimalInjective | app.py:92 | different numbers have different numerals, so markers built from different numbers differ |
| Text.LexLessTotal | app.py:80 | any two different timestamps are ordered one way or the other by Python's string order |
| Text.LexLessTransitive | app.py:80 | Python's string order is transitive |
| Segmenter.MarkerInjective | app.py:92 | two markers with the same prefix are equal only when built from the same number |
| Segmenter.CodeMarkerNotLatexMarker | app.py:92-103 | no code marker equals a math marker |
| Segmenter.CodeMatchAt | app.py:84 | at a position the code pattern finds a match satisfying the declarative description, and it is the only match starting there |
| Segmenter.FindCodeMatches | app.py:85-88 | the matches found are code matches, in increasing order, without overlap |
| Segmenter.FindCodeMatchesComplete | app.py:85-88 | every position where the code pattern matches lies inside a match found, so no block is skipped |
| Segmenter.LatexMatchAt | app.py:98 | the math pattern matches a dollar, a body free of dollars and newlines, and a dollar, and that match is the only one starting there |
| Segmenter.FindLatexMatches | app.py:99-101 | the math matches found are real matches, in order, without overlap |
| Segmenter.FindLatexMatchesComplete | app.py:99-101 | every position where the math pattern matches lies inside a match found |
| Segmenter.ReplaceEach | app.py:88-104 | when none of the matched texts occurs in the text, substituting them all leaves it unchanged; the rewritten text when they do occur is stated only by the lemmas named under "Left out" |
| Segmenter.StoreEach | app.py:95 | storing fragments under consecutive markers adds exactly those markers as keys, each bound to its own fragment, and keeps every other entry |
| Segmenter.CodePass | app.py:84-95 | the code map gains one marker per code match, each bound to the stripped body and language of its match; other entries are kept; without matches the text is unchanged |
| Segmenter.LatexPass | app.py:97-105 | the math map gains one marker per math match, each bound to the unstripped body; other entries are kept; without matches the text is unchanged |
| Segmenter.ProcessContent | app.py:82-107 | the code map after processing holds the code pass's fragments under fresh markers and keeps the old entries; the counter advances by the number of matches; a message without matches comes back unchanged |
| Segmenter.ProcessContentMathKeys | app.py:97-105 | the math markers of a processed message are numbered right after its code markers, and other math entries are kept |
| Segmenter.ProcessContentMathEntry | app.py:101-105 | the k-th math match of the code-substituted text is stored, unstripped, under the k-th math marker |
| Renderer.CodePartNotLatexPart | app.py:114-117 | no piece is dispatched both as code and as math |
| Renderer.RenderPart | app.py:113-121 | a piece is skipped exactly when it is empty, and a failing lookup reports the piece wrapped in `__` and happens only for a code or math piece; the full dispatch is stated by `Renderer.RenderPartDispatch` |
| Renderer.RenderParts | app.py:113-121 | at most one display call per piece; when rendering fails and how many calls it issues are stated by `Renderer.RenderPartsMissing` and `Renderer.RenderPartsCount` |
| Renderer.RenderPartDispatch | app.py:113-121 | a code piece shows the stored code and language, a math piece the stored formula, other non-empty pieces are markdown, empty pieces show nothing, and a marker piece whose key is absent fails with that key |
| Renderer.RenderPartsMissing | app.py:113-118 | rendering fails exactly when some piece names a missing key, and then reports the key of the first such piece, with no failing piece before it |
| Renderer.RenderPartsCount | app.py:113-121 | a rendering without failure issues exactly one display call per non-empty piece |
| Renderer.RenderPartsAppend | app.py:113-121 | rendering is compositional: the calls for a concatenation are those of the first part followed by those of the second |
| Renderer.Render | app.py:109-121 | a text without `__` is one piece, and a successful rendering issues at most one call per piece |
| Conversations.FileName | app.py:39 | a file name is `conversation_`, the id, then `.json`, and the id can be read back from between them |
| Conversations.FileNameInjective | app.py:39 | different conversation ids name different files |
| Conversations.Take | app.py:28 | `s[:n]` has length `min(len(s), n)` and is a prefix of `s` |
| Conversations.FirstUserFrom | app.py:28-29 | finds the first user message at or after a position, or reports that there is none |
| Conversations.Title | app.py:27-29 | the title is the first 30 characters of the first user message followed by `...`, or the id when there is no user message |
| Conversations.Save | app.py:21-43 | a transcript of at most one message is not saved; otherwise the session keeps its id or takes the clock's, and the directory gains or replaces exactly the file named after the id, holding the session's record, every other file unchanged; without the directory nothing is written but the id is still set |
| Conversations.Load | app.py:45-52 | a missing file leaves the session unchanged; a complete file replaces the transcript, both maps and the id; a missing key stops the load and the first absent key, in the order `messages`, `code_blocks`, `latex_blocks`, `timestamp`, is the one reported: the fields before it are replaced, the later ones and the id are kept. The model takes the bare file name as the directory key, while `load_conversation` opens the path `conversations/<name>` built at line 154; both name the same file |
| Conversations.Delete | app.py:54-64 | the file is removed exactly when it exists, and then every other file is kept; the session forgets its id exactly when the file was its own; otherwise nothing changes and false is returned |
| Conversations.EntryOf | app.py:75-79 | a list entry carries the file name, the stored title or else the file name, and the stored timestamp or else `""` |
| Conversations.Entries | app.py:69-79 | only `.json` files of the listing get entries, each with its file's title and timestamp, and no file gets two entries when the listing names each file once |
| Conversations.EntriesComplete | app.py:71-79 | every `.json` file of the listing gets an entry |
| Conversations.Insert | app.py:80 | inserting into a list sorted newest first keeps it sorted and adds exactly the new entry |
| Conversations.SortDescending | app.py:80 | the result is sorted newest first and holds exactly the same entries |
| Conversations.ListConversations | app.py:66-80 | without the directory the list is empty; otherwise it is sorted newest first, every entry is a `.json` file of the directory with its title and timestamp, every `.json` file appears, and none appears twice |
| Conversations.ReorderedDistinct | app.py:80 | sorting keeps file names distinct: a permutation of a list without a repeated file name has none |
| Conversations.FileNameIsJson | app.py:39 | every conversation file name ends in `.json`, so the list includes every saved conversation |
| Conversations.SaveTwiceSameFile | app.py:24-41 | saving a saved conversation again, whatever the clock says, keeps its id and overwrites the same file, so no second file appears |
| Conversations.LoadAfterSave | app.py:31-52 | loading the file a save wrote restores the saved transcript, maps and id, whatever the session held |
| Conversations.DeleteAfterSave | app.py:54-61 | deleting a freshly written file restores the directory and leaves the session without an id |
| Conversations.SaveAfterDeletingActive | app.py:54-61 | after the active conversation's file is deleted, the next save starts a new file named after the clock |
| Conversations.SaveAfterDeletingOther | app.py:54-61 | deleting another conversation keeps the session's id, and the next save rewrites the session's own file |
| Conversations.ListAfterSave | app.py:66-80 | a saved conversation appears in the list exactly once, with its title, and with its id as timestamp |
| Conversations.ListAfterFirstSave | app.py:21-80 | saving a conversation into an empty directory makes the list exactly one entry: its file, its title and its id as timestamp |
| Chat.FirstTurnRecord | app.py:21-131 | concluding the first answered turn of a fresh tab takes the clock's value as id, and its file holds the system prompt, the question and the answer, as timestamp the id, and as title the first 30 characters of the question followed by `...` |
| Chat.NewConversation | app.py:138-143 | the reset keeps only the first message, empties both maps and drops the id; it fails on an empty transcript |
| Chat.SaveAfterNewConversation | app.py:139-143 | after a reset the transcript holds one message, so the next save writes nothing until a question and an answer are added |
| Chat.Reply | app.py:188-199 | the session maps become those of segmenting the answer, even when rendering fails, and the counter advances past its markers; the calls shown are the prompt followed by the rendering's calls; the turn is answered exactly when rendering succeeds; a failed rendering leaves the user message recorded and the directory untouched; an answered one records the question and answer, keeps the session's id or else takes the clock's value as id, writes the session's file and keeps every other file |
| Chat.Conclude | app.py:194-198 | an answered turn appends the question and answer, installs the updated maps, and keeps the session's id or takes the clock's; with a directory the file named after the id holds the session's record and every other file is kept; without one nothing is written and the save fails |
| Chat.ChatTurn | app.py:172-201 | an empty prompt does nothing; otherwise the prompt is recorded and shown first; with an answer the maps, counter and calls shown are those of segmenting and rendering it, and the turn is answered exactly when rendering succeeds; a failed completion shows only the prompt, records only the user message and leaves the counter and the directory alone; a failed rendering saves nothing; an answered turn records the prompt and the answer, the session keeps its id or else takes the clock's value as id, its file holds its record and every other file is kept |
| Chat.AnsweredTurnIsSaved | app.py:194-198 | after an answered turn the file of the session's conversation holds the whole transcript, and loading it gives the session back |
| Chat.ChatTurnKeepsHistory | app.py:172-201 | a turn never rewrites history: the transcript before it is a prefix of the transcript after it |
| RoundTrip.SegmentPlain | app.py:82-107 | a message with no backtick and no dollar is left unchanged, with both maps and the counter unchanged |
| RoundTrip.PlainRoundTrip | app.py:82-121 | plain prose is shown as itself, in one markdown call |
| RoundTrip.ReplaceOnly | app.py:93 | replacing a pattern whose first character occurs nowhere else in the text replaces its one occurrence and changes nothing else |
| RoundTrip.ReplaceTwice | app.py:93 | replacing a pattern written twice in a row, whose first character occurs nowhere else, turns both copies into the replacement |
| RoundTrip.SplitAroundMarker | app.py:111 | cutting prose, a marker and prose at `__` gives the prose, the marker body and the prose |
| RoundTrip.RenderAroundMarker | app.py:111-121 | rendering prose, a stored marker and prose shows the prose, the stored fragment and the prose |
| RoundTrip.MarkerLikeProseFails | app.py:111-115 | any text without `__` that begins like a code-marker body is looked up as a marker, and when nothing is stored under that key the rendering fails on it before showing anything |
| RoundTrip.MarkerBodyProseFails | app.py:111-115 | the bare text `CODE_BLOCK_<n>`, rendered with nothing stored, fails on the marker `__CODE_BLOCK_<n>__` |
| RoundTrip.FencedIsCodeMatch | app.py:84 | a fenced block with a word tag and a body free of backticks is one code-pattern match |
| RoundTrip.FencedOnlyCodeMatch | app.py:84-88 | prose, one fenced block and prose yield exactly that one code match |
| RoundTrip.CodePassFenced | app.py:84-95 | the code pass replaces the block by the next marker and stores the stripped body with its language |
| RoundTrip.UntaggedFenceIsPython | app.py:89 | a fenced block without a language tag is stored by the code pass with the language `python` |
| RoundTrip.SegmentFenced | app.py:82-107 | segmenting prose, one fenced block and prose stores the block under the next code marker and leaves the math map alone |
| RoundTrip.CodeRoundTrip | app.py:82-121 | prose, one fenced block and prose are shown as the prose, the stripped code with its language, and the prose |
| RoundTrip.TwoFencedMatches | app.py:84-88 | the same fenced block twice in a row, with no other backtick in the text, is two code matches, one per copy |
| RoundTrip.RepeatedFencedMatches | app.py:84-88 | prose, the same fenced block twice and prose yield exactly those two code matches |
| RoundTrip.ReplaceEachRepeated | app.py:88-93 | substituting both matched texts of a repeated block writes the first marker over both copies, and the second substitution finds nothing left |
| RoundTrip.CodePassRepeated | app.py:84-95 | the code pass on a repeated block writes the first marker twice and stores the block under the first and the second marker |
| RoundTrip.SegmentRepeated | app.py:82-107 | segmenting prose, a repeated block and prose gives the prose around the first marker twice, the block stored under two markers, and the math map unchanged |
| RoundTrip.SplitAroundMarkerTwice | app.py:111 | cutting prose, a marker twice and prose at `__` gives the prose, the marker body, an empty piece, the marker body and the prose |
| RoundTrip.RenderTwiceMarked | app.py:111-121 | rendering prose, a stored code marker twice and prose shows the prose, the stored code twice and the prose |
| RoundTrip.RepeatedRoundTrip | app.py:82-121 | prose, a fenced block written twice and prose are shown as the prose, the stripped code twice and the prose; the second marker is stored but its key never appears in the text |
| RoundTrip.DollaredOnlyLatexMatch | app.py:98-101 | prose, one formula and prose yield exactly that one math match |
| RoundTrip.LatexPassDollared | app.py:97-105 | the math pass replaces the formula by the next marker and stores its body as is |
| RoundTrip.SegmentDollared | app.py:82-107 | segmenting prose, one formula and prose stores the formula under the next math marker and leaves the code map alone |
| RoundTrip.LatexRoundTrip | app.py:82-121 | prose, one formula and prose are shown as the prose, the formula, and the prose |

## Left out

- Display is not modelled. Streamlit's widgets, chat bubbles, reruns and the sidebar buttons (lines 133-163) become the list of display instructions a function returns.
- The completion service (lines 12-15, 184-188) is not modelled. Its answer is an input: the reply text, or a failure. A `None` reply, which would raise inside the `try`, counts as a failure.
- JSON encoding and the filesystem are not modelled. The directory is a map from file name to record. A file that is not valid JSON is not modelled; a record field is absent when its key is. Creating the directory at start-up (lines 18-19) is left out, and the model also allows a missing directory.
- The clock is the parameter `now`, the already formatted `%Y%m%d_%H%M%S` string.
- The order of `os.listdir` is a parameter assumed to name every file once.
- `id(...)` is modelled as a counter `next` that numbers markers consecutively. CPython may reuse the id of a freed string, so two blocks could share a marker; that reuse is not modelled.
- `\w` is modelled as ASCII letters, digits and `_`. Python's Unicode word characters are not modelled.
- Re-rendering the whole history on every rerun (lines 166-169) is not modelled. It runs the same two operations again on stored messages.
- `app.py` has no operation to rename a saved conversation, so none is modelled.
- Conversations.SortDescending: states that the result is sorted and holds the same entries. It does not state that entries with equal timestamps keep their order, which Python's stable sort guarantees.
- Text.ReplaceAll: states only the cases that leave the text unchanged. Replacing a single occurrence is proved separately in `RoundTrip.ReplaceOnly`. The general behaviour is given by the definition (split, then join).
- Renderer.Render: states only the single-piece case and the bound on the number of calls. The full behaviour follows from `RenderParts` and its lemmas.
- RoundTrip.CodeRoundTrip: covers one fenced block between two runs of prose. The prose must hold no backtick, dollar or `__` and must not begin like a marker body, and the prose before the block must not end in `_`. The body must hold no backtick at all, and the tag must be word characters. A block written twice is covered by `RoundTrip.RepeatedRoundTrip`; several different blocks are not covered.
- RoundTrip.LatexRoundTrip: covers one formula between two runs of prose. The prose must hold no backtick, dollar or `__` and must not begin like a marker body, and the prose before the formula must not end in `_`. The body must hold no backtick, dollar or newline. Several formulas, or a formula next to a code block, are not covered.
- Segmenter.CodePass: states the stored fragments, the kept entries, the count, and the unchanged text when there is no match. The rewritten text is stated for one block (`RoundTrip.CodePassFenced`) and for one block written twice (`RoundTrip.CodePassRepeated`); for several different blocks it is given only by the definition.
- Segmenter.LatexPass: states the stored bodies, the kept entries, the count, and the unchanged text when there is no match. The rewritten text is stated for one formula (`RoundTrip.LatexPassDollared`); for several formulas it is given only by the definition.
- Segmenter.ProcessContent: states the maps, the counter and the unchanged text when there is no match. The rewritten text is stated for one block, one formula and one block written twice (`RoundTrip.SegmentFenced`, `RoundTrip.SegmentDollared`, `RoundTrip.SegmentRepeated`); for several different matches it is given only by the definition.
- Segmenter.ReplaceEach: states only that nothing changes when no matched text occurs. Its rewritten text is stated by `RoundTrip.ReplaceEachRepeated` and, through the passes, by the lemmas named above.
