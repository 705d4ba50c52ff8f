# Memory and context pipeline of the companion chat client

`app.py` is a command-line chat companion. Each turn works like this:

1. It builds a system prompt from a persona text and a memory file.
2. It asks a chat-completion service for a reply.
3. It splits the reply into the text shown to the user and a "record" note.
4. It cleans the shown text to a single display line.
5. It appends the turn to the memory file's history, keeping only the newest turns.

This project models steps 1, 3, 4 and 5 as Dafny and proves what they promise.

| Dafny file | models |
|---|---|
| `wrappers.dfy` | `Option`, for keys that a dictionary may lack |
| `text.dfy` | the parts of Python's `str` the pipeline relies on |
| `reply_parser.dfy` | `parse_reply` |
| `sanitizer.dfy` | `clean_visible` |
| `memory_store.dfy` | `ensure_memory_text` and `update_memory` |
| `context_assembler.dfy` | `build_system_prompt` |
| `session.dfy` | how one turn of `main` chains these together |

`text.dfy` covers these parts of `str`:
- the whitespace set of `isspace()` (the same as the `\s` of `re`);
- `strip()`, `find()` and `in`;
- `splitlines()`, where "\r\n" is one boundary;
- `join()`.

The model follows the Python code in form:
- `parse_reply` and `clean_visible` become methods with their loops (`ReplyParser.ParseReply`, `Sanitizer.CleanVisible`). Each is proved equal to a specification function (`Parse`, `Cleaned`), and the properties are proved as lemmas about that function.
- The memory dictionary becomes a class, `MemoryStore.Memory`.
  - `update_memory` is a method that changes it in place.
  - The pure function `Committed` states its effect.
  - Lemmas about `Committed` and about `Replay` (many turns in a row) state what retention keeps.
- `ensure_memory_text` and `build_system_prompt` are pure functions.

The retention slice `history[-max_history:]` follows Python for every integer limit, through `MemoryStore.Newest`:
- a positive limit keeps the newest `max_history` entries;
- `[-0:]` keeps every entry;
- a negative limit drops that many of the oldest entries.

## Model

In the `Sanitizer` lemmas below, a "word" is `Sanitizer.Word`: a non-empty text with no whitespace, backtick, `-`, `*`, digit, `.` or `)` anywhere in it. Text such as "v2" or "3.5" is not a word, so those lemmas say nothing about it. A display line such as "v2 beta" is covered by `CleanedJoinsDisplayLines`. A line that starts with a digit, such as "3.5 x", loses that prefix in `clean_visible` itself.

| member | source | states |
|---|---|---|
| `Text.Strip` | app.py:55-56 | `strip()` gives the infix of the text between its first and last non-whitespace character. Everything cut off on either side is whitespace. The result is empty exactly when the text is all whitespace. |
| `Text.FindFrom` | app.py:52 | `find()` gives the first index from the start point where the pattern occurs, or -1 when it occurs nowhere after that point. |
| `Text.Find` | app.py:52 | `find()` from the start: the first index where the pattern occurs, or -1 when it occurs nowhere. |
| `Text.Contains` | app.py:52 | `p in s` is `find()` not returning -1. What that means is `ContainsIffOccurs`. |
| `Text.ContainsIffOccurs` | app.py:52 | `p in s` holds exactly when the pattern occurs in the text at some index. |
| `Text.SplitLines` | app.py:59 | No line from `splitlines()` contains a line boundary. There are no lines exactly when the text is empty. |
| `Text.SplitLinesCharacterized` | app.py:59 | A list of lines is what `splitlines()` returns exactly when no line holds a boundary and the lines are the consecutive pieces of the text. The first piece runs to the first boundary, with "\r\n" counted as one boundary. The other pieces are those after that boundary. A boundary at the very end starts no further line. |
| `Text.SplitLinesOfJoinNewline` | app.py:59 | A trailing "\n" starts no extra line: `splitlines()` undoes `"\n".join(lines) + "\n"` for lines that hold no boundary. |
| `Text.SplitLinesOfJoin` | app.py:59 | `splitlines()` undoes a "\n"-join of lines that hold no boundary and whose last line is not empty. |
| `Text.JoinOfSplitLines` | app.py:59 | Conversely, a text whose only boundaries are "\n" and which does not end with one is the "\n"-join of its lines. |
| `Text.LinesOccurInText` | app.py:59-66 | Every line from `splitlines()` occurs somewhere in the text. |
| `Text.LineContainsOnlyWhatTextContains` | app.py:62-63 | A marker found in some line is found in the whole reply. |
| `Text.JoinedLinesAllSpace` | app.py:67 | Rejoining the lines with "\n" gives all-whitespace text exactly when the reply is all whitespace. |
| `Text.JoinEnds` | app.py:29-36 | A join of non-empty parts starts with the first part's first character and ends with the last part. |
| `Text.Join` | app.py:82 | `sep.join(parts)`, as used at lines 29, 46, 67 and 82: the parts in order, with the separator between neighbours. Its properties are `JoinEnds`, `SplitLinesOfJoin` and `JoinOfSplitLines`. |
| `ReplyParser.CutPoint` | app.py:51-53 | `cut` is -1 exactly when neither marker occurs. Otherwise a marker starts at `cut` and no marker starts earlier. |
| `ReplyParser.HasMarker` | app.py:63 | `any(m in line for m in markers)`: one of the two markers, "【记录】" or "[记录]", occurs. |
| `ReplyParser.HasMarkerIffMarkerAt` | app.py:52 | A marker occurs in a text exactly when one starts at some index of it. |
| `ReplyParser.LineScanFindsNoMarker` | app.py:62-66 | Without a marker in the reply, no line has one, so the line scan never puts a line into the memory lines. |
| `ReplyParser.Parse` | app.py:49-69 | The value `parse_reply` returns: with a marker, the stripped text before and from the first marker; without, the rejoined lines (or the stripped reply) and an empty note. Its properties are the lemmas below. |
| `ReplyParser.ParseReply` | app.py:49-69 | The loop computes `Parse`. Both outputs are stripped. The memory note is empty exactly when the reply has no marker. With a marker, the note starts with one and the visible text has none. Without a marker, the visible text is empty exactly when the reply is all whitespace. |
| `ReplyParser.ParseAtFirstMarker` | app.py:54-56 | With a marker, the reply is cut at its first marker: the visible text is the stripped head and the note is the stripped tail from that marker on. |
| `ReplyParser.ParseWithoutMarker` | app.py:57-68 | Without a marker, the note is empty and the visible text is empty only for an all-whitespace reply. |
| `ReplyParser.MemoryEmptyIffNoMarker` | app.py:49-69 | The note is empty if and only if the reply holds no marker. |
| `ReplyParser.ParseProperties` | app.py:49-69 | Both outputs are stripped, the note is empty exactly without a marker, a note starts with a marker while the visible text holds none, and without a marker the visible text is empty exactly for an all-whitespace reply. |
| `Sanitizer.RemoveBold` | app.py:74 | Dropping "**" removes only asterisks and leaves no two adjacent asterisks. A first character that is not a star stays first. |
| `Sanitizer.RemoveBoldConcat` | app.py:74 | After a part that does not end with a star, the "**" pass works on each side separately. |
| `Sanitizer.RemoveBoldWithoutDoubleStar` | app.py:74 | Text without "**" is unchanged, so a lone star stays. |
| `Sanitizer.RemoveBoldDropsPair` | app.py:74 | A leading "**" is dropped, and the rest is treated on its own. |
| `Sanitizer.RemoveBackticks` | app.py:75 | A character survives exactly when it was present and is not a backtick. |
| `Sanitizer.RemoveBackticksConcat` | app.py:75 | The backtick pass distributes over concatenation, so it works character by character and keeps the order. |
| `Sanitizer.RemoveBackticksChar` | app.py:75 | On one character the backtick pass drops a backtick and keeps anything else. |
| `Sanitizer.StripListPrefix` | app.py:79 | The result is a suffix of the line. Everything removed is a list-prefix character (`-`, `*`, digit, `.`, `)`, whitespace), and the result does not start with one. |
| `Sanitizer.CollapseSpaces` | app.py:83 | The non-whitespace characters survive, in order and none lost. The result has no two adjacent whitespace characters and adds no character other than a space. It is empty exactly when the input is, and starts with whitespace exactly when the input does. A non-whitespace first character is kept. |
| `Sanitizer.CollapseSpacesOfRun` | app.py:83 | A whitespace run on its own becomes one space when it has two or more characters. A single whitespace character stays as it is. |
| `Sanitizer.CollapseSpacesConcat` | app.py:83 | No run straddles a cut after a non-whitespace character, so the collapse works on each side of it separately. |
| `Sanitizer.CollapseSpacesAfterRun` | app.py:83 | The same holds for a cut between a whitespace run and a non-whitespace character. |
| `Sanitizer.CleanLine` | app.py:78-79 | One line of the loop: stripped, then its list prefix removed. Its shape is stated by `StripListPrefix` and `Strip`. |
| `Sanitizer.KeptLines` | app.py:76-81 | The `lines` list the loop builds: the non-empty cleaned lines, in order. Its properties are `KeptLinesStep` and `KeptLinesFromSource`. |
| `Sanitizer.KeptLinesStep` | app.py:77-81 | One loop step appends the cleaned line exactly when it is non-empty. |
| `Sanitizer.KeptLinesFromSource` | app.py:77-81 | Every kept line is non-empty and is the cleaned form of some source line. |
| `Sanitizer.Cleaned` | app.py:72-84 | The value `clean_visible` returns: both passes, the line loop, the join with spaces, the collapse and the strip. Its properties are the lemmas below. |
| `Sanitizer.CleanVisible` | app.py:72-84 | The loop computes `Cleaned`. The output is one display line: no line break, no backtick, no whitespace run, nothing to strip, and no list-prefix character first. |
| `Sanitizer.CleanedShape` | app.py:72-84 | Every output of `clean_visible` is such a display line. |
| `Sanitizer.CleanedHasNoDoubleStar` | app.py:74-83 | On text without backticks, no "**" survives. |
| `Sanitizer.CleanedFixesDisplayLine` | app.py:72-84 | A display line without "**" is returned unchanged. |
| `Sanitizer.CleanedIdempotentWithoutBackticks` | app.py:72-84 | On text without backticks, cleaning twice is cleaning once. |
| `Sanitizer.CleanedJoinsCleanLines` | app.py:74-84 | When the two passes leave lines whose cleaned forms are non-empty and have no whitespace run, the result is exactly those cleaned lines, in order, joined by single spaces. |
| `Sanitizer.CleanedJoinsDisplayLines` | app.py:72-84 | Display lines without "**", one per line of the text, come out as the same lines joined by single spaces: each line break becomes one space and no word is lost. |
| `Sanitizer.CleanedInnerRun` | app.py:72-84 | Between two words, a whitespace run of two or more characters without a line break becomes one space. A single whitespace character stays. |
| `Sanitizer.InnerRunExample` | app.py:72-84 | "Hi  there" cleans to "Hi there". |
| `Sanitizer.BoldWordAndListItems` | app.py:74-84 | "**h** w\n- a\n- b" cleans to "h w a b" for words h, w and star-free display lines a, b: the bold markers and list dashes go, and the words stay in order. |
| `Sanitizer.ListExample` | app.py:72-84 | "**Hi** there\n- item one\n- item two" cleans to "Hi there item one item two". |
| `Sanitizer.BacktickMakesDoubleStar` | app.py:74-84 | For words a and b, "a *`* b" cleans to "a ** b": the "**" pass finds no pair and the backtick pass then makes one. |
| `Sanitizer.BacktickTextNotIdempotent` | app.py:72-84 | Cleaning the result of "a *`* b" again changes it. |
| `Sanitizer.BacktickExample` | app.py:72-84 | "a *`* b" cleans to "a ** b", and cleaning that again gives something else. |
| `Sanitizer.BacktickJoinsStars` | app.py:74-75 | Because "**" is removed before backticks, "*`*" comes out of the second pass as "**". |
| `Sanitizer.NotIdempotentWhenStarsRemain` | app.py:74-75 | When the output still holds "**", cleaning it again changes it. |
| `MemoryStore.Summary` | app.py:150-152 | The summary is the stripped reply, or its first 80 characters followed by "..." when it is longer. It never ends in whitespace. |
| `MemoryStore.EnsureMemoryText` | app.py:146-153 | The note is never empty. A non-empty model note is returned as it is. Otherwise the note is "【记录】用户：", the user message, "；回复摘要：" and the summary, in that order, and is stripped. |
| `MemoryStore.Kept` | app.py:173-174 | How many entries `[-m:]` keeps: min(m, n) for m ≥ 1, all n for m = 0, and n − min(−m, n) for m < 0. |
| `MemoryStore.SliceStart` | app.py:174 | Where CPython starts the slice `[start:]` of n entries: never past the end. |
| `MemoryStore.KeptIsSliceLength` | app.py:174 | `Kept` is exactly the number of entries from CPython's slice start of `[-m:]` to the end, for every n and m. |
| `MemoryStore.Newest` | app.py:28 | `[-m:]` is the suffix of the list, and its length is `Kept`. |
| `MemoryStore.NewestLast` | app.py:173-174 | A positive limit always keeps the newest entry. |
| `MemoryStore.ShortHistoryKept` | app.py:173 | The length guard is only a shortcut: a history within the limit is unchanged by the slice. |
| `MemoryStore.NewTurn` | app.py:166-172 | The entry `update_memory` appends: the user message, the visible reply and the note, with no "assistant" key. |
| `MemoryStore.Committed` | app.py:164-176 | The record after `update_memory`: the new note as archive, the old history plus the new turn trimmed by `[-m:]`, other keys as they were. Its properties are the lemmas below. |
| `MemoryStore.Memory.Fresh` | app.py:204-206 | A new memory file reads back as an empty archive and an empty history. |
| `MemoryStore.Memory.Load` | app.py:206 | A loaded memory holds the record read from the file. |
| `MemoryStore.UpdateMemory` | app.py:156-177 | The new state is `Committed` of the old one and is what gets saved. Other keys are untouched. With a positive limit the history holds 1 to `max_history` entries and ends with the new turn. |
| `MemoryStore.CommitKeepsNewestTurns` | app.py:164-176 | With a positive limit, a commit holds min(limit, old length + 1) entries. They are the newest old turns in order, then the new turn. The archive becomes the new note and other keys stay. |
| `MemoryStore.CommitWithoutPositiveLimit` | app.py:173-174 | With a limit of 0 or less, `len(history) <= max_history` does not hold. A limit of 0 keeps every turn, so the history grows by one per commit. A limit of −k drops the k oldest entries of the old history plus the new turn, so the history never grows. |
| `MemoryStore.NewestAfterAppend` | app.py:166-174 | Trimming before appending and trimming again is trimming once. |
| `MemoryStore.NewestIdempotent` | app.py:173-174 | Trimming twice to the same positive limit is trimming once. |
| `MemoryStore.TurnsOf` | app.py:166-172 | The turns committed for a list of exchanges are one `update_memory` entry per exchange, in order. |
| `MemoryStore.Replay` | app.py:156-177 | The record after one `update_memory` per exchange, in order. |
| `MemoryStore.ReplayStep` | app.py:156-177 | One commit appends the exchange's turn, trims, and sets the archive to its note. |
| `MemoryStore.AppendEachIsNewest` | app.py:166-174 | Trimming after every append is the same as trimming once at the end. |
| `MemoryStore.ReplayHistory` | app.py:156-177 | After a run of commits, the history is the turns appended and trimmed one at a time. |
| `MemoryStore.ReplayKeepsNewest` | app.py:156-177 | With a positive limit, after any number of turns the history is the newest `max_history` of all turns ever committed. |
| `MemoryStore.ReplayKeepsLastNote` | app.py:176 | After any number of turns, the archive is the last turn's note and other keys are unchanged. |
| `MemoryStore.ThreeTurnsKeepLastTwo` | app.py:156-177 | From a fresh memory file with limit 2, three turns leave the second and third turn in order, with the third turn's note as archive. |
| `ContextAssembler.Shown` | app.py:32 | The assistant text of an entry: "assistant_visible", else "assistant", else empty. |
| `ContextAssembler.BlockText` | app.py:30-33 | One history entry formatted as three labelled lines; a missing key reads as empty. |
| `ContextAssembler.Block` | app.py:30-34 | A rendered history entry starts with "用户：" and is stripped. |
| `ContextAssembler.Blocks` | app.py:29-35 | One rendered block per entry, in order. |
| `ContextAssembler.HistoryText` | app.py:29-36 | The blocks joined by single line breaks, then stripped. `HistoryTextJoinsBlocks` shows the strip changes nothing. |
| `ContextAssembler.ArchiveSection` | app.py:38-42 | The stripped archive note, or 暂无 when it is missing or blank. |
| `ContextAssembler.HistorySection` | app.py:28-44 | The history text of the newest `max_history` entries, or 暂无 when it is empty. |
| `ContextAssembler.BlocksShape` | app.py:30-34 | Every block is non-empty, stripped, and starts with a non-space character. |
| `ContextAssembler.HistoryTextJoinsBlocks` | app.py:29-36 | The outer `strip()` never changes the joined blocks. The history text is empty exactly when there are no entries. |
| `ContextAssembler.BuildSystemPrompt` | app.py:26-46 | `build_system_prompt`: the five sections joined by blank lines. Its layout is `PromptLayout`. |
| `ContextAssembler.JoinedBlocksEndWithNewest` | app.py:29-36 | The joined blocks of a non-empty window end with the block of its newest entry. |
| `ContextAssembler.PromptLayout` | app.py:38-46 | The prompt is the persona, the archive heading, the stripped archive or 暂无, the history heading, and the rendered window or 暂无, separated by blank lines. The window is the newest entries joined by single line breaks. |
| `ContextAssembler.PromptIgnoresOlderTurns` | app.py:28 | With a positive limit, older turns cannot influence the prompt: dropping them leaves the prompt unchanged. |
| `ContextAssembler.PromptEndsWithLatestTurn` | app.py:28-46 | With a positive limit and a non-empty history, the prompt ends with the newest turn's block. |
| `ContextAssembler.NextPromptShowsCommittedTurn` | app.py:26-46 | After a commit with a positive limit, the next prompt ends with the new turn: its user message, its visible reply and its note. |
| `Session.NoteOfReply` | app.py:217-224 | The archive note one reply leaves behind: the reply is parsed, its visible part cleaned, and `ensure_memory_text` applied to both parts. |
| `Session.NoteStartsWithMarker` | app.py:217-231 | Whatever the model replies, the archived note starts with a record marker and is stripped. |
| `Session.NextPromptShowsNote` | app.py:215-231 | The next system prompt shows that note as its archive section, unchanged. |

## Behaviour of the code

- History blocks are joined by a single "\n" (app.py:29), so consecutive turns in the prompt are separated by one line break.
- `clean_visible` is not idempotent. "a *`* b" cleans to "a ** b", and cleaning that again changes it, because the "**" pass now finds a pair (`Sanitizer.BacktickExample`, `Sanitizer.NotIdempotentWhenStarsRemain`).
- `len(history) <= max_history` holds only for `max_history >= 1`. With 0 the history grows by one turn per commit; with a negative limit it never grows (`MemoryStore.CommitWithoutPositiveLimit`).

## Left out

- `call_one_api` and `fetch_models` (app.py:87-128): HTTP requests to the chat service. In the model, the reply is an input.
- `choose_model` (app.py:131-143): a console menu; it does nothing but keyboard I/O.
- `main` (app.py:180-234):
  - The file-existence checks, config reading, the input loop and the prints are I/O.
  - `textwrap.fill` only formats the output on screen.
  - The data flow of one turn is modelled in `Session`.
- `load_json`, `save_json` and `load_text` (app.py:11-23):
  - File I/O is not modelled.
  - A save and its reload are assumed to round-trip. The record last saved is kept in the ghost field `Memory.saved`.
- JSON values other than strings: the keys the program never reads are held as `map<string, string>`. A history entry missing a key is an `Option` field.
- Turn: a history entry holds only the four keys the program reads. `save_json` would write any other key of an entry back unchanged, but the model drops such keys. Only the record's own top-level keys are kept in `Record.others`.
- The mobile client (the Kotlin files under `mobile_client`) is not part of this model.
- `\d` in the list-prefix pattern is the ASCII digits only. With Python's default Unicode matching it also matches other decimal digits, such as full-width `０`-`９`.
- `UpdateMemory`: the aliasing between the `history` list and `memory["history"]` is not modelled. The method computes the new list and stores it, which gives the same final state.
- SplitLines: its own contract says only that no line holds a boundary and that there are no lines exactly for empty text. `Text.SplitLinesCharacterized` adds that the lines are the consecutive pieces of the text, with "\r\n" as one boundary and no line started by a final boundary. `Text.SplitLinesOfJoin`, `Text.SplitLinesOfJoinNewline` and `Text.JoinOfSplitLines` cover "\n"-joined text only.
- RemoveBold: its own contract says which characters are left and that no "**" remains. It does not say that a lone star stays. The exact result follows from `Sanitizer.RemoveBoldWithoutDoubleStar`, `Sanitizer.RemoveBoldDropsPair` and `Sanitizer.RemoveBoldConcat`.
- RemoveBackticks: its own contract states which characters survive, not their order or count. Those follow from `Sanitizer.RemoveBackticksConcat` and `Sanitizer.RemoveBackticksChar`, which together fix the result.
- CollapseSpaces: its own contract does not say what a run becomes. It says that the non-whitespace characters survive in order, that no run of two remains and that only spaces are added. `Sanitizer.CollapseSpacesOfRun` says that a run of two or more becomes one space and a lone whitespace character stays. `Sanitizer.CollapseSpacesConcat` and `Sanitizer.CollapseSpacesAfterRun` let the result be taken run by run.
