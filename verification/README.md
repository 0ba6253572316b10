# doppz-bot reply formatting, recent-query ledger and typewriter reveal, in Dafny

doppz-bot is a single-page chat front end. The user types a question, the page sends it
to a language-model backend, and the reply is shown with a typewriter effect. Before it is
shown, the reply goes through `formatAsBulletPoints`. That function:

- strips markup characters;
- cuts the text into sentences;
- finds a concluding sentence;
- truncates long replies at a word budget;
- groups the remaining sentences into short paragraphs.

Past questions are kept in a "recent searches" ledger. The ledger is stored in the
browser's key-value store and shown as cards on the start page and as entries in the side
bar.

This project models three things:

- the formatter, as pure functions over `string`;
- the ledger, as functions over `seq<string>`;
- the page's turn and reveal logic, as a state machine whose timer is a discrete `Tick`
  event.

Modules, in dependency order:

| module | file | what it holds |
|---|---|---|
| `Wrappers` | wrappers.dfy | `Option` and `Result` |
| `Seqs` | seqs.dfy | order-preserving `Filter`, subsequences, `Flatten` |
| `Text` | text.dfy | the ECMAScript white-space class, the markup class, sanitising, ASCII lower-casing, substring search, `trim`, `join`, `split(/\s+/).length` |
| `Segmenter` | segmenter.dfy | `split(/(?<=[.!?])\s+/)` as a scan over the text, then the blank-piece filter |
| `Truncator` | truncator.dfy | the conclusion index and the word-budget cutting loop |
| `Assembler` | assembler.dfy | paragraph grouping, the conclusion bucket, and serialisation with the "strip the last sentence, re-append the last two" step |
| `Formatter` | formatter.dfy | `formatAsBulletPoints` and `formatResponse` |
| `Scenarios` | scenarios.dfy | worked examples of the formatter, proved on concrete text, and the stale-reveal trace on the page as built |
| `Ledger` | ledger.dfy | record, delete, seed list, load and persist |
| `Turn` | turn.dfy | page state, events, the reveal invariant, and the stale-reveal finding |

Regular expressions become explicit predicates:

- A character class is a membership test, such as `IsSpace`, `IsTerminal` or `IsMarkup`.
- A case-insensitive phrase search, `/p1|p2|…/i`, is a substring test on the ASCII
  lower-cased sentence. In non-Unicode mode JavaScript never folds a non-ASCII character
  onto an ASCII one, so for the all-ASCII phrases used here this test is exact. Matching is
  by substring, so "thus" also matches inside "enthusiasm".

The turn machine is stated for any formatter and any serialiser, passed in as an `Env`.
`Turn.Page` is the page as built, whose formatter is `Formatter.FormatAsBulletPoints`.
The `Turn.Step` function models the code in these places:

- the send handler: `src/Components/Main/Main.jsx:145-171`;
- the start-page cards: `src/Components/Main/Main.jsx:288-291`;
- the side-bar handlers: `src/Components/SideBar/SideBar.jsx:14-23`;
- the two delete filters;
- `onSent`: `src/Context/Context.jsx:34-42`;
- the two reveal effects: `src/Components/Main/Main.jsx:122-143`.

An `await` splits `onSent` into two events: `Begin`, the synchronous start of a request,
and `Reply`, the arrival of its answer. The reset effect runs as soon as `loading` turns
true, so it is folded into `Begin`. The persistence effect runs whenever the ledger
changes, so it is folded into every ledger change.

Points where the code's behaviour is easy to get wrong:

- **Malformed stored ledger.** A malformed stored ledger is not caught: `JSON.parse`
  throws (`src/Context/Context.jsx:15-16`), so `Ledger.Load` returns the parser's
  `Failure`, and `Turn.Init` passes it on.
- **Persisting on start-up.** The persistence effect also runs when the page is mounted
  (`src/Context/Context.jsx:30-32`), so `Turn.Init` writes the loaded ledger back.
- **Backend failure.** The backend call has no error handling, so the model has no
  failure path.
- **A new reply does not always restart the reveal.** See "## Findings". The model uses
  the corrected behaviour and keeps the as-written one next to it.

## Model

| member | source | states |
|---|---|---|
| Text.Sanitize | src/Components/Main/Main.jsx:34 | the result has no markup character; a character is in the result exactly when it is in the input and is not one of `* # _ \` ~ [ ]`; the result keeps the input's order; a markup-free text is returned unchanged |
| Text.SanitizeKeepsOthers | src/Components/Main/Main.jsx:34 | each character other than the seven markup characters keeps its exact number of occurrences, and each markup character occurs zero times |
| Text.SanitizeIdempotent | src/Components/Main/Main.jsx:34-39 | sanitising twice gives the same text as sanitising once, so the second pass over each sentence changes nothing |
| Text.Trim | src/Components/Main/Main.jsx:38 | the result is the input with a white-space prefix and a white-space suffix cut off and nothing else changed; it neither starts nor ends with white space; it is empty exactly when the input has no non-space character; it adds no character; it keeps a markup-free text markup-free |
| Text.TrimStart | src/Components/Main/Main.jsx:118 | the result is a suffix of the input; everything cut off is white space; the result does not start with white space |
| Text.TrimEnd | src/Components/Main/Main.jsx:118 | the result is a prefix of the input; everything cut off is white space; the result does not end with white space |
| Text.MentionsIff | src/Components/Main/Main.jsx:42-46 | a phrase-list regex with the `i` flag matches a sentence exactly when one of the listed phrases occurs in the lower-cased sentence |
| Text.WordCountSpaced | src/Components/Main/Main.jsx:53 | when two texts are joined by a single space and neither touches that space with white space of its own, the word count of the result is the sum of the two word counts |
| Text.NoSpaceOneWord | src/Components/Main/Main.jsx:53 | a text with no white space counts as one word, including the empty text |
| Segmenter.Split | src/Components/Main/Main.jsx:36-37 | gluing each piece back to the white space removed after it gives exactly the input; every piece except the last ends in `.`, `!` or `?` and is followed by a non-empty run of white space that the split removes whole; no piece contains a split point; no piece after a split point starts with white space |
| Segmenter.SplitPrepend | src/Components/Main/Main.jsx:37 | a sentence ending in a terminal mark, then a run of white space, then text that does not start with white space, splits into that sentence followed by the split of the rest |
| Segmenter.Unsplit | src/Components/Main/Main.jsx:37 | a text with no white space after a terminal mark is not split |
| Segmenter.SingleSentence | src/Components/Main/Main.jsx:36-39 | a markup-free text with no terminal mark is one sentence, or no sentence when it is blank |
| Segmenter.Segment | src/Components/Main/Main.jsx:36-39 | every sentence is markup-free; for a markup-free reply the sentences are the split pieces with content, in order, and each has a non-space character |
| Segmenter.SplitJoin | src/Components/Main/Main.jsx:36-37 | splitting undoes joining with single spaces: for sentences that end in a terminal mark (all but the last), start with a non-space and hold no split point, the split of their space-joined text is exactly those sentences, each followed by one space except the last |
| Segmenter.SegmentJoin | src/Components/Main/Main.jsx:36-39 | segmenting undoes joining with single spaces: markup-free sentences with content, shaped as above, come back one for one and in order |
| Truncator.ConclusionIndex | src/Components/Main/Main.jsx:42-46 | the index is -1 exactly when no sentence mentions a conclusion phrase; otherwise that sentence mentions one and no earlier sentence does |
| Truncator.CutoffIsFirstDecision | src/Components/Main/Main.jsx:49-77 | the cutoff is fixed by the first sentence whose running total passes 300 words and that is not deferred (or that closes a conclusion under 350 words); it is `conclusionIndex + 2`, `i + 1` or `i` as the branches say; with no deciding sentence it is the sentence count |
| Truncator.ScanKeepsChosen | src/Components/Main/Main.jsx:56 | once a cutoff is chosen, the rest of the loop never changes it |
| Truncator.WithinBudgetKeepsAll | src/Components/Main/Main.jsx:49-77 | when the running word total never passes 300, the cutoff is the full sentence count |
| Truncator.Kept | src/Components/Main/Main.jsx:77-79 | the retained sentences are the prefix of the segmented sentences whose length is the cutoff, clamped to the sentence count; they are all of them when the reply is within budget |
| Assembler.Assemble | src/Components/Main/Main.jsx:82-106 | the paragraphs, read in order, are exactly the retained sentences before the conclusion index; the conclusion bucket is exactly the retained sentences from that index on; each paragraph holds 1 to 3 sentences; only a paragraph's last sentence may mention a topic word; every paragraph but the last is full or ends on a topic word |
| Assembler.StripLastSentence | src/Components/Main/Main.jsx:115 | the result is a prefix of the input; the input is changed exactly when it ends in a terminal mark preceded by a non-terminal character; in that case the maximal terminal-free run before the final mark is removed together with the mark |
| Formatter.FormatAsBulletPoints | src/Components/Main/Main.jsx:32-119 | the result neither starts nor ends with white space and has no markup character; it is empty exactly when the input is empty or no sentence is retained |
| Formatter.PipelineEmptyIff | src/Components/Main/Main.jsx:108-118 | the serialised document has content exactly when some sentence was retained |
| Formatter.PipelineClean | src/Components/Main/Main.jsx:108-118 | the serialised document is markup-free |
| Formatter.FormatResponse | src/Components/Main/Main.jsx:234-241 | `formatResponse` gives the same result as `formatAsBulletPoints` on every input |
| Scenarios.FormatTwo | src/Components/Main/Main.jsx:32-119 | `"A. B."` formats to `"A.\n\nA. B."` |
| Scenarios.FormatFour | src/Components/Main/Main.jsx:32-119 | `"A. B. C. In conclusion, D."` formats to `"A. B. C.\n\nIn conclusion, D."` |
| Scenarios.FormatLetter | src/Components/Main/Main.jsx:108-118 | a reply that is a single plain character `c` formats to `c`, a blank line, then `c` again |
| Scenarios.SegmentFour | src/Components/Main/Main.jsx:36-39 | `"A. B. C. In conclusion, D."` has the four sentences `A.`, `B.`, `C.` and `In conclusion, D.` |
| Scenarios.ConclusionFound | src/Components/Main/Main.jsx:42-46 | in those four sentences the conclusion index is 3 |
| Scenarios.WordsOfFour | src/Components/Main/Main.jsx:53-54 | those four sentences total six words |
| Ledger.Record | src/Components/Main/Main.jsx:149-156 | the new list starts with the query and has at most 20 entries; no later entry equals the query up to case; the later entries keep their relative order from the old list; unless the list is full, every old entry that differs from the query up to case is kept; the later entries are exactly the first entries of the old list with the query's case-insensitive copies removed, so the most recent ones survive the cap; the list has 20 entries when at least 19 others survive, and one more than the survivors otherwise |
| Ledger.Submit | src/Components/Main/Main.jsx:146 | a blank input leaves the ledger unchanged; an input with content is recorded |
| Ledger.RecordPreservesWellFormed | src/Components/Main/Main.jsx:149-155 | recording into a list without repeats (up to case) gives a list without repeats and with at most 20 entries |
| Ledger.RecordIdempotent | src/Components/Main/Main.jsx:149-155 | recording the same query twice is recording it once |
| Ledger.RecordOrder | src/Components/Main/Main.jsx:149-155 | after two different queries are submitted in turn, the latest is first and the earlier is second |
| Ledger.Delete | src/Components/SideBar/SideBar.jsx:85-87 | the query is no longer in the list; an entry stays exactly when it differs literally from the query; the result keeps the input's order and never grows |
| Ledger.DeleteCounts | src/Components/SideBar/SideBar.jsx:85-87 | every entry other than the query keeps its number of occurrences, and the query has none |
| Ledger.DeleteIdempotent | src/Components/SideBar/SideBar.jsx:85-87 | deleting the same query twice is the same as deleting it once |
| Ledger.DeletePreservesWellFormed | src/Components/Main/Main.jsx:300-302 | deleting keeps a list without repeats and with at most 20 entries |
| Ledger.DeleteAbsent | src/Components/SideBar/SideBar.jsx:85-87 | deleting a query that is not in the list changes nothing |
| Ledger.DeleteKeepsOtherCase | src/Components/Main/Main.jsx:300-302 | deletion is case-sensitive: deleting `Hello` from `[Hello, hello]` leaves `[hello]` |
| Ledger.SeedWellFormed | src/Context/Context.jsx:17-26 | the seed list has 8 entries, no two equal up to case, so it satisfies the ledger invariant |
| Ledger.FreshStartIsSeed | src/Context/Context.jsx:13-27 | with nothing stored, or with the empty string stored (which is falsy), start-up gives exactly the seed list, which satisfies the invariant |
| Ledger.Persist | src/Context/Context.jsx:30-32 | the serialised ledger is stored under `recentSearches`, and no other key is added, removed or changed |
| Ledger.ReloadRoundTrip | src/Context/Context.jsx:13-32 | after a write, start-up reads back the written ledger, provided the parser reads back what the serialiser writes and the serialiser never writes the empty string |
| Turn.Begin | src/Context/Context.jsx:34-37 | starting a request clears the reply, sets loading and shows the result view; when loading was off, the screen text is emptied and the reveal rewound; input, ledger and store are untouched |
| Turn.CompleteAsWritten | src/Context/Context.jsx:38-41 | a reply stores the response, turns loading off and clears the input; the screen text, the reveal position, the result view, the echoed query, the ledger and the store stay as they were |
| Turn.Complete | src/Context/Context.jsx:38-41 | a reply stores the response, turns loading off, clears the input and restarts the reveal from an empty screen; the result view, the echoed query, the ledger and the store are untouched |
| Turn.TickStep | src/Components/Main/Main.jsx:127-131 | a tick appends the formatted reply's character at the reveal position to the screen text, raises the position by one, and changes nothing else: the reply, the flags, the input, the echoed query, the pending count, the ledger and the store stay as they were |
| Turn.StepPreservesConsistent | src/Components/Main/Main.jsx:122-143 | with the corrected reply step, every event the page allows keeps the invariant: the screen shows exactly the first `charIndex` characters of the formatted reply; nothing is held or shown while loading; the ledger has no repeats and at most 20 entries; the store holds the ledger's latest serialisation |
| Turn.TickConsistent | src/Components/Main/Main.jsx:122-135 | a tick keeps the screen text equal to the revealed prefix of the formatted reply |
| Turn.BeginConsistent | src/Components/Main/Main.jsx:138-143 | starting a request keeps the invariant, including when a request is already loading |
| Turn.CompleteAgrees | src/Components/Main/Main.jsx:138-143 | on a consistent page the corrected reply step and the code's reply step give the same state exactly when no character of an earlier reply is on screen, and always while loading is still on |
| Turn.CompleteRestartsReveal | src/Components/Main/Main.jsx:122-143 | with the corrected reply step, a reply keeps the invariant whether or not loading was still on; a tick is then scheduled exactly when the response is non-empty, the result view is shown and the formatted response is non-empty |
| Turn.Reveal | src/Components/Main/Main.jsx:122-135 | ticking until no timer is scheduled keeps the invariant and stops at a state where no tick is enabled, without touching the reply, the flags or the ledger |
| Turn.RevealCompletes | src/Components/Main/Main.jsx:122-135 | once a reply is in and shown, the reveal ends with the whole formatted reply on screen |
| Turn.InitConsistent | src/Context/Context.jsx:13-32 | a successful start-up with a well-formed stored ledger satisfies the invariant |
| Turn.FreshInitConsistent | src/Context/Context.jsx:13-32 | start-up with no stored ledger or an empty stored value succeeds with the seed list and satisfies the invariant |
| Turn.SendRecords | src/Components/Main/Main.jsx:145-171 | a blank send changes nothing; a send with content records the query in the ledger, persists it, echoes the query and starts a request |
| Turn.SelectKeepsLedger | src/Components/SideBar/SideBar.jsx:19-23 | choosing a recent entry starts a request with it as the input and shows the result view; the ledger and the store are unchanged |
| Turn.CardKeepsLedger | src/Components/Main/Main.jsx:288-291 | clicking a start-page card starts a request with the card's text as the input; the ledger and the store are unchanged |
| Turn.NewChatKeepsTurn | src/Components/SideBar/SideBar.jsx:14-17 | a new chat hides the result view and clears the input and changes nothing else: the reply, the screen text, the reveal position, the loading flag, the pending count, the ledger and the store are unchanged |
| Turn.ReplyKeepsLedger | src/Context/Context.jsx:38-41 | a reply never changes the ledger or the store |
| Turn.StaleRevealFor | src/Components/Main/Main.jsx:138-143 | for any formatter whose outputs for two replies start with different characters: after two sends in a row, the first reply, one tick and then the second reply as written, the first reply's character stays on screen with the reveal position at 1, which breaks the invariant |
| Scenarios.StaleRevealOnPage | src/Components/Main/Main.jsx:138-143 | on the page as built, this happens for any two sent queries with content and any two different plain one-character replies |
| Scenarios.StaleRevealCounterexample | src/Components/Main/Main.jsx:138-143 | the concrete trace: send `a`, send `b`, reply `a`, one tick, reply `b` leaves `a` on screen over the reply `b` |

## Left out

- Case-insensitive ledger comparison uses ASCII lower-casing. `toLowerCase` also folds non-ASCII letters, so two queries that differ only in the case of a non-ASCII letter count as different in the model.
- Strings are sequences of code points. JavaScript indexes UTF-16 code units, so the reveal of a character outside the Basic Multilingual Plane takes one tick in the model and two on the page.
- The backend call is an opaque reply string carried by the `Reply` event. A rejected call is not modelled, because the code has no handler for it and `loading` then simply stays on.
- `JSON.parse`, `JSON.stringify` and `localStorage` are parameters: a parse function returning a `Result`, a serialise function, and a `map<string, string>` store. A stored value that parses to something other than a list of strings is not modelled.
- Ledger.Load: has no contract of its own. Its behaviour is stated through Ledger.FreshStartIsSeed, Ledger.ReloadRoundTrip and Turn.InitConsistent.
- Assembler.Serialise: has no contract of its own. Its behaviour is stated through Formatter.SerialiseClean, Formatter.SerialiseContent, and the concrete outputs of Scenarios.FormatTwo, Scenarios.FormatFour and Scenarios.FormatLetter, which include the strip-and-re-append step.
- Truncator.Cutoff: its own contract gives only bounds. The cutting loop it runs, Truncator.Scan, is characterised by Truncator.CutoffIsFirstDecision, Truncator.ScanKeepsChosen and Truncator.WithinBudgetKeepsAll, and the sentences it keeps by Truncator.Kept.
- Text.WordCount: has no contract of its own. Its behaviour is stated through Text.NoSpaceOneWord and Text.WordCountSpaced.
- Text.Lower: its contract gives only the length. It is ASCII lower-casing, used through Text.MentionsIff and the ledger's case-insensitive comparison.
- Text.Join: has no contract of its own. Its behaviour is stated through Segmenter.SplitJoin and Segmenter.SegmentJoin, and through the cleanliness and content lemmas the formatter uses.
- Turn.Step: has no contract of its own. Its behaviour is stated through Turn.StepPreservesConsistent, Turn.SendRecords, Turn.SelectKeepsLedger, Turn.CardKeepsLedger, Turn.NewChatKeepsTurn and Turn.ReplyKeepsLedger.
- Turn.Init: has no contract of its own. Its behaviour is stated through Turn.InitConsistent and Turn.FreshInitConsistent.
- React's effect scheduling, the 5 ms `setTimeout` and the `clearTimeout` cleanup are replaced by the discrete `Tick` event. The model assumes that each tick reads the reveal position current at that moment.
- Speech input is not modelled as such. Its fallback appends a fixed text to the input after a delay (src/Components/Main/Main.jsx:196-201); that change of the input is covered by the `Type(text)` event.
- File upload, the unused mock response generator, the prompt decoration stored with `setRecentPrompt`, the side bar's expand toggle, the unused chat-container ref (src/Components/Main/Main.jsx:28, 249), and all markup and animation: they are browser I/O or cosmetics, and none of them affects the state modelled here.
- Truncator: monotonicity of the cutoff in the word budget is not claimed. The budget is a constant in the code, and the cutoff is not monotone in it: the conclusion and hard-cap branches can move the cut either way. For example, if the first sentence mentions "thus" and has 310 words, the second has 50 and the third 1, a budget of 300 gives the cutoff 2 (conclusion index plus two), while a budget of 320 gives 1.

## Findings

| source | as written | input that shows it | evidently intended | confidence | as-written member | corrected member |
|---|---|---|---|---|---|---|
| src/Components/Main/Main.jsx:138-143 | the screen text and the reveal position are reset only when `loading` changes to true; `onSent` (src/Context/Context.jsx:38-40) does not reset them when a reply arrives | type and send `a`, then type and send `b` before the first reply arrives (the send button is disabled only for a blank input, src/Components/Main/Main.jsx:435); reply `a` arrives and one tick shows `a`; reply `b` then arrives while `loading` is already off, so nothing resets, the screen keeps `a`, and the reveal continues from position 1 of the formatted `b` | every arriving reply restarts the reveal from an empty screen, so the screen always shows a prefix of the current formatted reply | not executed | Turn.CompleteAsWritten, Scenarios.StaleRevealCounterexample | Turn.Complete, Turn.CompleteRestartsReveal, Turn.CompleteAgrees |
