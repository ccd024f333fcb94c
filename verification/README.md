# Verification of the editor, trace, checkpoint, transcript and image code

This project models the parts of the inference engine that carry the most state, and proves what they
promise for every input, every run and every behaviour of the system around them. `dafny verify
dfyconfig.toml` checks all of it.

**Line editor** (`linenoise.c`). `Utf8` and `Grapheme` hold the decoder, its grammar and the grapheme
stepping, and `Clusters` the rules for code points that the stepping comes to. `LineModel` says what every
editing command does to the text, the cursor and the folds; `PasteModel` what a bracketed paste is;
`EditorModel` what one input byte does to the whole editor, and what holds after any run; `EditorKeys` what
each key does, byte by byte, and `Recall` what is folded of an entry. `LineEditor.LineState` is the editor
itself: fixed buffers changed in place, every method tied to the model. `History` keeps and saves entries,
and `RenderLine` lays the line out.

**Evaluation trace** (`p36_eval.c`). `TraceFormat` is the format and its reader, `TraceScan` the loops
that write and scan it, `TraceRoundTrip` the proof that what was written is read back, and `TraceFields`
what every line says and what is made of lines that are not the writer's. `ThinkTags` and `ThinkSplitter`
split a stream at thinking tags (the same lexer serves the printer of `p36_cli.c`), and `ThinkView` says
what is seen of it. `Budget` is the controller that closes thinking in time, and `BudgetRun` says which
token each round takes. `LineSpec` compares answers that name lines, and `LineAnswer` is what is made of
an answer line before that.

**Checkpoint store** (`p36_kvstore.c`). `CheckpointFile` is the file layout with its changes in place,
`Eviction` the score, the order and the greedy loop, `KvStore` the directory and storing into it,
`PrefixLookup` finding and loading, `StoreOutcomes` what these come to for files as they are written, and
`CheckpointStore.Store` the loops. `BlockHash` is the incremental hash with both
finalisers (the second one is that of `p36_image.c`).

**Transcript** (`p36_cli.c`). `TranscriptModel` says what the transcript is for the modes and the dialogue
at hand; `Transcript` splices it in place. `JsonString` writes token texts for the log of probabilities.

**Images** (`p36_image.c`). `PatchPacking` is the order of the vision patches, `Orientation` the eight
orientations, and `ExifOrientation` the search for the tag in a JPEG.

## How to read it

A structure whose fields the program updates is a class; its methods say in their postconditions what the
new state is, as a function of the old one, and the lemmas are about that function. Bytes are a number
below 256 (`Utf8.byte`). What the model cannot see is a parameter: the sampler, the decoder and the user of
a generation (`Budget.Env`), the answers of the file system (`KvStore.World`), the rendered messages of the
engine (`TranscriptModel.Engine`), the compression function of a hash. Theorems hold for all of them, under the
conditions that they name.

What is assumed of the caller:

- Allocation succeeds. Sizes stay below what 64 bits hold where the program adds them unchecked.
- No completion callback is installed in the editor, and history entries are valid UTF-8 without a NUL
  that fit the buffer or are cut between characters (`EditorModel.EntriesOk`): an entry that is cut stays
  valid exactly then (`LineModel.CutEntryClean`).
- Trace metadata are single lines without the text that starts a counted block, and the four fields that
  are read back fit the reader's buffers (`TraceRoundTrip.Writable`). Prompts and model output are free;
  what stands behind a NUL in them is not written.
- The tokens of the closing tag spell it, the last of them is not empty, and none of them ends the text
  (`Budget.Ready`).
- A chat begins with at least one token.

Where the program does not do what one might expect, the exact condition is proved, with an input at which
it fails:

- `TouchChanges`, `TouchClears`: a header with reserved bytes or an unknown reason is changed elsewhere too.
- `SaveLoad`, `ReturnIsLost`: which histories come back from their file.
- `CutEntryClean`, `CutInCharacter`: which entries stay valid when they are cut.
- `FailedTurnLeaves`, `ThinkingStaysOff`: a turn whose image or whose decoding fails is not undone.
- `StringTells`, `StringIsShared`, `StringDoesNotTell`: which two token texts are written alike.
- `OnlyWrittenNamed`, `RightAnswerAccepted`, `RightAnswerRefused`: a dash without a second number names every
  line up to its number, and can cost a right answer.
- `DigitsSurvive`, `DigitLost`: numbers with only blanks between them lose a digit.
- `OutputComesBack`, `NulCutsOutput`: an output with a NUL is traced only up to it.
- `ClosedInTime`, `AnswerReserve`, `NulSpendsReserve`: with a NUL in the text the closing tag is never seen, and
  the whole reserve goes to closing tags.
- `BudgetIsKept`, `BudgetIsExceeded`, `TrailerGrowth`: the budget is exceeded by what a trailer takes more than
  was estimated, and by trailers that are written again.

## Model

| member | source | states |
|---|---|---|
| Utf8.DecodeMeetsGrammar | linenoise.c:213-271 | a decoding step is accepted exactly when a character of the grammar of RFC 3629 starts there, uses its length, and gives a scalar value whose encoding is those bytes |
| Utf8.EncodeDecodes | linenoise.c:213-271 | every scalar value decodes from its encoding, whatever follows it |
| Utf8.AllAcceptedIsWellFormed | linenoise.c:213-271 | repeated decoding never reports an invalid sequence exactly when the text is well formed |
| Utf8.JsonUtf8Valid | p36_cli.c:708-731 | the second recogniser accepts exactly the well-formed texts, hence exactly what repeated decoding accepts |
| Utf8.Utf8Decode | linenoise.c:213-271 | the decoder returns length and code point of the specification, for every input |
| Utf8.BoundarySplits | linenoise.c:1244-1349 | a well-formed text cut at any character boundary gives two well-formed texts |
| Grapheme.NextGrapheme | linenoise.c:455-477 | the loop computes the length of the cluster ahead |
| Grapheme.NextClusterStops | linenoise.c:455-477 | stepping forward moves, stays in the text, ends on a character boundary, and never before a code point that extends a cluster |
| Grapheme.PrevCharLen | linenoise.c:310-383 | the backward loop computes the length of the cluster behind |
| Grapheme.PrevClusterStops | linenoise.c:310-383 | stepping back moves, ends on a boundary, and never at a code point that extends a cluster unless the text starts there |
| Clusters.StepRight | linenoise.c:455-477 | for the text of any code points, a step right takes the first one and those that belong to it: marks, what a joiner ties that is not tied itself, and the other half of a flag; it stops in front of the first that does not |
| Clusters.StepLeft | linenoise.c:310-383 | for the text of any code points with anything behind it, a step left takes the last one that is no mark and has no joiner in front, all behind it, and the one before when both are halves of a flag |
| LineModel.TrackSurvivors | linenoise.c:1316-1349 | a fold outlives an edit exactly when the edit does not reach into it, and is then the fold moved with its text; nothing else becomes a fold |
| LineModel.TrackKeeps | linenoise.c:1316-1349 | folds that outlive an edit lie on boundaries, apart and in order, cover the bytes they were made for, and stay out of the new text |
| LineModel.SpliceGood | linenoise.c:1739-1756 | replacing a stretch between boundaries by clean text keeps the whole line in order |
| LineModel.FoldInsertedKeeps | linenoise.c:1273-1286 | a fold put in its place from the back keeps the folds sorted and apart |
| LineModel.FoldAddedKeeps | linenoise.c:1273-1286 | adding a fold keeps them sorted, apart and at most sixteen, and adds it exactly when it is not empty and there is room |
| LineModel.NextLenStops | linenoise.c:1244-1255 | moving right moves, and ends on a boundary in the text |
| LineModel.NextLenJumps | linenoise.c:1244-1255 | moving right passes a fold that starts at the cursor in one step, and otherwise one cluster |
| LineModel.PrevLenStops | linenoise.c:1259-1270 | moving left moves, and ends on a boundary |
| LineModel.PrevLenJumps | linenoise.c:1259-1270 | moving left passes a fold that ends at the cursor in one step, and otherwise one cluster |
| LineModel.StepsGood | linenoise.c:1877-1996 | every movement and deletion keeps the line in order |
| LineModel.TransposeGood | linenoise.c:2366-2385 | exchanging the clusters around the cursor keeps the line in order and its length |
| LineModel.TransposeExchanges | linenoise.c:2366-2385 | the line changes exactly when there is something of at most 32 bytes on either side and the swap reaches into no fold; then the two pieces have changed places, nothing else has, and the cursor is behind them |
| LineModel.StepsFolds | linenoise.c:1955-1996 | after every deletion the folds are exactly those that it did not reach into, moved with their text; moving and transposing leave them all |
| LineModel.InsertFoldedFolds | linenoise.c:1273-1286 | after a folded insertion the folds are those that the cursor was not inside of, moved, and the new one where there is room |
| LineModel.RecalledFolds | linenoise.c:1105-1146 | a recalled entry has at most one fold, over a part of that entry |
| LineModel.RecalledGood | linenoise.c:1105-1146 | a recalled entry is shown with a fold that lies on boundaries |
| Recall.RecalledIs | linenoise.c:1062-1146 | a recalled entry is the whole text with the cursor behind it, folded exactly when nothing is masked and it has 4096 bytes or 16 lines; hidden is all of it up to 192 bytes, and else what is between its first and last 96 clusters, with either of these where a line break begins one of them |
| LineModel.CutEntryClean | linenoise.c:1930-1940 | an entry cut to the buffer stays well formed exactly when it is cut between characters |
| LineModel.CutInCharacter | linenoise.c:1930-1940 | one that is not: a letter with an accent, cut after its first byte |
| LineModel.FoldCountLines | linenoise.c:1063-1069 | the loop counts the lines |
| LineModel.FindContextAhead | linenoise.c:1112-1125 | the loop finds where the visible head of a folded entry ends |
| LineModel.FindContextBehind | linenoise.c:1127-1138 | the loop finds where its visible tail starts |
| PasteModel.ReadResumes | linenoise.c:2130-2190 | reading a paste in two pieces with a would-block between them is reading it in one |
| PasteModel.PasteContent | linenoise.c:2130-2190 | a read that ends consumed content followed by the terminator at its first occurrence, flags overflow exactly when the content is longer than the limit, and otherwise hands over the content; a read that does not end has met no terminator |
| PasteModel.NormalizedText | linenoise.c:2193-2206 | normalising keeps the lines of the text, leaves no CR, and changes nothing without one |
| PasteModel.NormalizeInPlace | linenoise.c:2193-2206 | the loop with two indices over one buffer leaves the normalised text |
| PasteModel.PasteOkIsCleanText | linenoise.c:2208-2221 | the check accepts exactly well-formed text without controls other than tab and line feed, without DEL and without C1 controls |
| PasteModel.PasteCheck | linenoise.c:2208-2221 | the loop decides that check |
| PasteModel.PastedGood | linenoise.c:2186-2237 | the end of a paste keeps the line in order, whatever was pasted |
| EditorModel.StepGood | linenoise.c:2259-2461 | no input byte breaks the invariant: text clean and within the buffer, cursor and folds on boundaries, folds apart, in order, at most sixteen and over the bytes they were made for, a pending key that can still become one, clean history |
| EditorModel.RunGood | linenoise.c:2259-2461 | the same after any sequence of bytes and clears |
| EditorModel.RunBytesSplit | linenoise.c:2463-2469 | a run over two pieces of input is the run over the first and then over the second |
| EditorModel.StepFolds | linenoise.c:2259-2461 | after an input byte the folds are exactly those that the commands it completes did not reach into, moved with their text, unless a paste ends or another entry is recalled |
| EditorModel.StepRecalls | linenoise.c:1912-1950 | a byte that recalls another entry leaves no fold of the line before: the line is that entry with its own fold |
| EditorModel.StepEndsPaste | linenoise.c:2130-2237 | the byte that ends a paste changes nothing, or inserts the normalised text, with the folds moved and one more over that text when it is long or has several lines |
| EditorModel.PasteRun | linenoise.c:2130-2237 | byte-wise feeding during a paste is the paste reader: the line stays as it is until the terminator and then takes the paste |
| EditorModel.PasteArrives | linenoise.c:2130-2237 | the text up to the first terminator goes into the line whole and normalised, or not at all |
| EditorModel.HistoryReturns | linenoise.c:1912-1950 | moving to an entry and back shows the text that was being edited, which the history then also holds; an entry that fits is shown whole, one that does not is cut and stays cut |
| EditorModel.KeyTextClean | linenoise.c:2286-2309 | the bytes of a decoded key are clean text, and a sequence that decodes to nothing becomes the replacement character |
| EditorModel.DoublesToFit | linenoise.c:1706-1734 | a buffer that grows is doubled just often enough, unless its limit comes first |
| EditorKeys.Reaching | linenoise.c:1303-1349 | an edit reaches into a fold when they share a byte, or when it inserts inside; a fold in front stays, and one behind moves by what the text has grown |
| EditorKeys.Steps | linenoise.c:1244-1270 | a step passes a fold that starts or ends at the cursor, unless the line is masked |
| EditorKeys.PlainSteps | linenoise.c:1244-1270 | without such a fold, or in a masked line, a step is one cluster |
| EditorKeys.HomeKey | linenoise.c:2446-2448 | byte 1 puts the cursor at the start and changes nothing else |
| EditorKeys.EndKey | linenoise.c:2449-2451 | byte 5 puts it at the end |
| EditorKeys.LeftKey | linenoise.c:2386-2388 | byte 2 moves it one step left, if there is one |
| EditorKeys.RightKey | linenoise.c:2389-2391 | byte 6 moves it one step right, if there is one |
| EditorKeys.BackspaceKey | linenoise.c:2351-2354 | bytes 127 and 8 take out exactly the step left of the cursor, if there is one; the folds follow |
| EditorKeys.DeleteKey | linenoise.c:2355-2365 | byte 4 in a line that is not empty takes out exactly the step right of the cursor, if there is one |
| EditorKeys.KillKey | linenoise.c:2440-2445 | byte 11 takes out all behind the cursor |
| EditorKeys.EraseKey | linenoise.c:2434-2439 | byte 21 takes out the whole line with its folds |
| EditorKeys.WordKey | linenoise.c:1981-1996 | byte 23 takes out, left of the cursor, all steps over blanks and then all over others, and no more |
| EditorKeys.SwapKey | linenoise.c:2366-2385 | byte 20 exchanges the steps on either side of the cursor when there are both, each of at most 32 bytes and without a fold among them, and otherwise changes nothing |
| EditorKeys.TypeKey | linenoise.c:2428-2433 | a byte from 32 to 126 goes in at the cursor, or changes nothing where the buffer cannot take it |
| EditorKeys.StrayKey | linenoise.c:2324-2333 | a byte that cannot start a character types the replacement character |
| EditorKeys.OtherKey | linenoise.c:2334-2461 | the other control bytes do nothing |
| EditorKeys.EnterKey | linenoise.c:2335-2347 | byte 13 gives out the text and takes the newest entry off the history |
| EditorKeys.CancelKeys | linenoise.c:2348-2365 | byte 3 interrupts and changes nothing; byte 4 in an empty line ends the input and takes the newest entry off the history |
| EditorKeys.HistoryKeys | linenoise.c:1912-1950 | bytes 16 and 14 put the line down in the history and show the next older or newer entry, whole where it fits, with the cursor at its end; at either end nothing is shown instead, and with a single entry nothing happens |
| EditorKeys.SequenceKey | linenoise.c:2398-2427 | ESC, a bracket or an O, any other bytes and a letter are one key: A, B, C, D, H and F are the keys for older, newer, right, left, home and end, and other last bytes do nothing |
| EditorKeys.SequenceDropped | linenoise.c:2289-2323 | a sequence of 32 bytes that has not ended is dropped |
| EditorKeys.TildeKeys | linenoise.c:2400-2404 | ESC [ 3 ~ erases to the right, and ESC [ 2 0 0 ~ begins a paste |
| EditorKeys.LoneEscape | linenoise.c:2310-2320 | a lone ESC is dropped, and the byte behind it is a key of its own |
| EditorKeys.CharKey | linenoise.c:2286-2309 | the bytes of a character, one by one, type that character, or the replacement character where they are not well formed |
| EditorKeys.BrokenKey | linenoise.c:2286-2309 | a character that is broken off types the replacement character, and the byte that breaks it off is a key of its own |
| EditorKeys.PasteGoesIn | linenoise.c:2130-2237 | from its start marker to its first terminator a paste goes in with its line breaks normalised exactly when it brings something, at most 1048576 bytes and what there is room for, and is then well formed and without control characters; otherwise the line stays as it is |
| EditorKeys.TwoLines | linenoise.c:2193-2221 | one that does: two lines with a carriage return between them arrive with a line feed |
| EditorKeys.ClearDrops | linenoise.c:1688-1701 | clearing drops the line, a half-read key and a half-read paste, and nothing else |
| LineEditor.LineState.constructor | linenoise.c:2022-2078 | a new editor holds an empty line and the invariant |
| LineEditor.LineState.Grow | linenoise.c:1706-1734 | the buffer doubles up to its limit, keeps its text, and succeeds exactly when the limit allows |
| LineEditor.LineState.AdjustFoldsAfterInsert | linenoise.c:1316-1330 | the loop over the fold arrays is the tracking of the model |
| LineEditor.LineState.AdjustFoldsAfterDelete | linenoise.c:1334-1349 | the same for deletions |
| LineEditor.LineState.FoldAdd | linenoise.c:1273-1286 | shifting the arrays inserts the fold in order, and drops it when sixteen are there |
| LineEditor.LineState.RangeOverlapsFold | linenoise.c:1303-1312 | true exactly when some fold shares a byte with the range |
| LineEditor.LineState.EditInsert | linenoise.c:1762-1790 | the in-place insertion is the model's, or changes nothing when there is no room |
| LineEditor.LineState.EditDelete | linenoise.c:1955-1964 | the in-place deletion is the model's |
| LineEditor.LineState.EditBackspace | linenoise.c:1967-1977 | the in-place deletion to the left is the model's |
| LineEditor.LineState.EditDeletePrevWord | linenoise.c:1981-1996 | the two backward scans and the cut are the model's |
| LineEditor.LineState.EditTranspose | linenoise.c:2366-2385 | exchanging bytes by way of a scratch buffer is the model's transposition |
| LineEditor.LineState.EditPaste | linenoise.c:2130-2237 | one call takes as many bytes as single steps would, whatever the input offers |
| LineEditor.LineState.EditHistoryNext | linenoise.c:1912-1950 | saving, moving and showing is the model's move in the history |
| LineEditor.LineState.Feed | linenoise.c:2259-2461 | one call has the effect of as many single steps as it takes bytes, and keeps the invariant |
| LineEditor.LineState.EditClear | linenoise.c:1688-1701 | drops the line, a half-read key and a half-read paste, and nothing else |
| History.SaveLoad | linenoise.c:2750-2801 | a saved history read into an empty list comes back exactly when it is within the maximum, has no adjacent repeats and no CR |
| History.ReturnIsLost | linenoise.c:2750-2801 | one that does not: an entry that is a CR comes back as a line break |
| History.AddedAllKeeps | linenoise.c:2687-2714 | a list built by adding never exceeds the maximum and never has adjacent repeats |
| History.AddedIs | linenoise.c:2687-2714 | a new line is the newest, behind the newest of those before, as many as there is room for; a repeat of the newest changes nothing |
| History.KeepsNewest | linenoise.c:2687-2714 | of lines that differ from their neighbours exactly the newest are kept, as many as the list may hold |
| History.FileOfTwo | linenoise.c:2750-2771 | one file to the letter: an entry of two lines and another one |
| History.HistoryList.Add | linenoise.c:2687-2714 | adds at the end, refuses a repeat, and drops the oldest when full |
| History.HistoryList.Save | linenoise.c:2750-2771 | the loop writes one line for each entry |
| History.HistoryList.Load | linenoise.c:2778-2801 | the loop reads the lines and adds them one by one |
| RenderLine.RenderBuffer | linenoise.c:1176-1240 | the output is the rendered line, fills exactly the length computed beforehand, and the cursor is where the map says |
| RenderLine.LengthIsRight | linenoise.c:1176-1200 | the length computed from the folds alone is the length of the rendered line |
| RenderLine.CursorMonotone | linenoise.c:1205-1240 | the cursor map is monotone and stays within the output |
| RenderLine.CursorOutside | linenoise.c:1205-1240 | outside folds the cursor stands behind the rendered text in front of it |
| RenderLine.CursorInside | linenoise.c:1205-1240 | inside a fold the cursor stands behind the fold's marker |
| RenderLine.MarkerIs | linenoise.c:1087-1101 | the marker of a fold gives its number of lines where it has line breaks, and else its number of bytes, to the letter |
| RenderLine.RenderedMore | linenoise.c:1205-1240 | a further fold behind the others puts its marker in place of its text |
| TraceRoundTrip.TraceIsRead | p36_eval.c:3611-3655 | a trace with any header lines and any writable cases is read back as the list of their sources, ids, states, picks and outputs up to the first NUL, whatever markers the outputs imitate |
| TraceRoundTrip.OutputIsRead | p36_eval.c:3548-3583 | the output of a case comes back byte for byte up to its first NUL |
| TraceRoundTrip.OutputComesBack | p36_eval.c:2672-2683 | so it comes back whole exactly when it holds no NUL |
| TraceRoundTrip.NulCutsOutput | p36_eval.c:2672-2683 | one that does not: what stands behind a NUL is lost |
| TraceRoundTrip.SkipsBlock | p36_eval.c:3428-3465 | a counted block is skipped whole, whatever its text |
| TraceRoundTrip.FindCaseBody | p36_eval.c:3467-3488 | everything behind the header of a case is passed over on the way to the next case |
| TraceRoundTrip.FieldIsRead | p36_eval.c:3513-3529 | the first line with a key gives the field as it was written |
| TraceFields.FieldsAreRead | p36_eval.c:2768-2838 | every key of a case, from timestamp to error, reads back the field that was given for it |
| TraceFields.KindIsRead | p36_eval.c:2845-2847 | so does the kind of its answer |
| TraceFields.ChoicesAreRead | p36_eval.c:2839-2844 | and every choice, under its letter |
| TraceFields.PromptsAreThere | p36_eval.c:2848-2850 | the two prompts stand behind their labels, up to a NUL |
| TraceFields.HeaderSample | p36_eval.c:2787-2792 | the header of the third of twelve cases, to the letter |
| TraceFields.BlockSamples | p36_eval.c:2672-2683 | blocks whose text is empty, ends its line and does not, to the letter |
| TraceFields.FieldIsCut | p36_eval.c:3419-3426 | a field is what stands behind its key without carriage returns at its end, and of that as much as the buffer holds |
| TraceFields.NotRead | p36_eval.c:3611-3655 | a case without a line for its source or its id is not read |
| TraceFields.OldOutput | p36_eval.c:3568-3576 | the output of an old trace, without a count, ends where its end marker first begins a line |
| TraceFields.SkipsOnlyBlocks | p36_eval.c:3428-3465 | only a block is skipped whose name, of at most 96 characters, stands in front of the first mark of its line and again right behind as many characters as were counted, or one line break more |
| TraceFields.CountWithSign | p36_eval.c:3450-3455 | how a count is read behind blanks and a sign, when it is too great, and without digits |
| TraceScan.Regrade | p36_eval.c:3611-3655 | the loop of the regrader reads the trace as specified |
| TraceScan.FindNextCase | p36_eval.c:3467-3488 | the scan finds the next header outside counted blocks |
| TraceScan.FindBlockBegin | p36_eval.c:3490-3511 | the scan finds the next line with a label outside counted blocks |
| TraceScan.SkipCountedBlock | p36_eval.c:3428-3465 | the end of the block, or that there is none |
| TraceScan.BoundedStrstr | p36_eval.c:3408-3417 | the first occurrence within the bounds |
| TraceScan.GetLineField | p36_eval.c:3513-3529 | the field, cut to its buffer |
| TraceScan.CopyModelOutput | p36_eval.c:3548-3583 | the output by its count, or by its end marker in old traces |
| TraceScan.WriteBlock | p36_eval.c:2672-2683 | writes a counted block of the text up to its first NUL, which the loop of strlen finds |
| TraceScan.WriteCase | p36_eval.c:2768-2852 | writes a case as specified |
| ThinkTags.LexIsFaithful | p36_eval.c:2225-2272 | nothing of the text is lost or added, and a byte is given out only where no tag starts |
| ThinkTags.FaithfulIsLex | p36_eval.c:2225-2272 | there is no other way to split a whole text like that |
| ThinkTags.LexInPieces | p36_eval.c:2225-2272 | splitting in two pieces, with what was held back in front of the second, is splitting in one |
| ThinkTags.ChunksDoNotMatter | p36_eval.c:2225-2272 | any cut of a text, fed piece by piece and finished, shows the same text with the same styles |
| ThinkTags.GenerationShows | p36_cli.c:479-531 | a generation printed in any pieces shows thinking in grey and the rest plain, ends the line where thinking closes, and leaves the terminal plain |
| ThinkTags.PrintAllShows | p36_cli.c:441-459 | the printer's idea of the colour is the terminal's, and grey is on only while thinking |
| ThinkView.StreamNext | p36_eval.c:2225-2272 | each tag or character of a text adds nothing, a plain line break or itself, in the style of thinking exactly where the last tag in front opens it |
| ThinkView.OneThought | p36_eval.c:2225-2272 | a text with one thought in it, for all texts around and in it: the tags are gone, the thought is styled, and a line ends behind it |
| ThinkView.LooksNext | p36_cli.c:441-523 | on the terminal each adds nothing, a line break unless a line starts there, or itself, in grey exactly where the last tag in front opens thinking and colours are used |
| ThinkView.HoldsStarts | p36_eval.c:2225-2272 | what is held back is a start of one of the two tags and not all of it, and at the end nothing |
| ThinkSplitter.StreamSplitter.AppendTokenText | p36_eval.c:2225-2272 | the loop is one feeding step; what it holds back fits the pending array and a style is kept for every byte |
| ThinkSplitter.TokenPrinter.ProcessText | p36_cli.c:479-523 | the loop is one printing step |
| ThinkSplitter.TokenPrinter.FinishText | p36_cli.c:525-531 | finishing flushes what was held back and resets the colour |
| LineSpec.SpecNames | p36_eval.c:3116-3144 | a list of numbers, ranges and numbers with an open dash, in any order, names exactly the lines it writes and every line up to an open item |
| LineSpec.OnlyWrittenNamed | p36_eval.c:3116-3144 | only written lines are named exactly when every line up to an open item is written anyway |
| LineSpec.ClosedTells | p36_eval.c:3116-3144 | where line zero is not written, that is exactly when no item is open |
| LineSpec.RightAnswerAccepted | p36_eval.c:3146-3166 | an answer that writes only expected lines is accepted exactly when every line up to its open items is expected as well |
| LineSpec.ClosedNames | p36_eval.c:3116-3144 | a list without open dashes names exactly the lines from 0 to 255 that it writes |
| LineSpec.ClosedAccepted | p36_eval.c:3146-3166 | of such lists an answer is accepted exactly when it writes some line, and only expected ones |
| LineSpec.DashTakes | p36_eval.c:3123-3132 | a dash takes the number behind it, even behind blanks and with a sign |
| LineSpec.NumberWithSign | p36_eval.c:3123-3128 | how a number is read behind blanks and a sign, within 64 bits |
| LineSpec.ParseLineSpec | p36_eval.c:3116-3144 | marks the lines named, keeps the others, and tells whether there are any |
| LineSpec.AnswerMatches | p36_eval.c:3146-3166 | an answer is accepted exactly when it names some line and only expected ones |
| LineAnswer.NormalizedIsSpec | p36_eval.c:3058-3095 | a line that fits the buffer is normalised to its items with commas between them, the last one closed, or to a question mark |
| LineAnswer.SpecIsFound | p36_eval.c:3058-3095 | a list in the compact form is found item by item as it was written |
| LineAnswer.NumberIsFound | p36_eval.c:3072-3092 | behind a number, whatever blanks there are, a character other than a dash is passed over unread, be it a digit |
| LineAnswer.DashIsFound | p36_eval.c:3072-3092 | behind a dash, with whatever blanks around it, a second number makes a range; without one the dash stays open; the character behind is passed over |
| LineAnswer.AnswerNames | p36_eval.c:3058-3144 | whatever an answer line says, it names the lines of its items and every line up to an item with a dash that is not the last; normalising twice is normalising once |
| LineAnswer.RightAnswerRefused | p36_eval.c:3058-3166 | one that is refused: the line 5-, 9 names the lines 0 to 5 and 9, where 5 and 9 are expected |
| LineAnswer.DigitsSurvive | p36_eval.c:3072-3092 | the digits of a line all survive exactly when no number on its own is followed by blanks and another digit |
| LineAnswer.DigitLost | p36_eval.c:3072-3092 | one that loses a digit: 9 15 becomes 9,5 |
| LineAnswer.NormalizeLineSpec | p36_eval.c:3058-3095 | the loop writes the normalised line into the buffer, cut to its size, with a NUL behind it |
| Budget.AfterCounts | p36_eval.c:4267-4424 | a token for each round and never more than the limit |
| Budget.CloseIsSeen | p36_eval.c:4400 | the search sees the closing tag exactly where it stands with no NUL in front of it |
| Budget.RoundKeepsInv | p36_eval.c:4341-4404 | what holds before every round: no closing tag has been seen while there is thinking; all of the reserve so far are closing tokens while there is, more than one turn of them only with a NUL in the text; and what is recorded of the closing is true |
| Budget.ReserveRun | p36_eval.c:4341-4404 | a case that still thinks where the reserve begins gets the closing tokens over and over as long as it thinks, which is until they have been put in once, and for good with a NUL in its text |
| Budget.ClosedInTime | p36_eval.c:4341-4364 | so it gets exactly the closing tokens next, and has then stopped thinking exactly when its text held no NUL |
| Budget.AnswerReserve | p36_eval.c:4330-4364 | behind the closing tokens a case thinks exactly when it did where the reserve began, with a NUL in its text; otherwise what is left of the reserve is for the answer |
| Budget.CleanTokensClose | p36_eval.c:4330-4364 | where no token holds a NUL, what is left of the reserve is for the answer, whatever the sampler does |
| Budget.NulSpendsReserve | p36_eval.c:4330-4404 | one run that spends it: a sampled NUL, then the closing tag twice, and the case still thinks |
| Budget.WhyItEnded | p36_eval.c:4365-4372 | an uninterrupted case ends at the limit, outside thinking, or because the end of its text could not be turned into the end of thinking |
| BudgetRun.RunIs | p36_eval.c:4267-4404 | every token of every run is the one that has its turn, told from the tokens before it alone: closing tokens one after the other in the reserve, the single one where it is likely and few tokens are left, else the sampled one, with the end of thinking in place of the end of the text while there is thinking; each was decoded, no stop came before it, and each way to end has its reason |
| BudgetRun.CloseIsNoted | p36_eval.c:4330-4404 | what is written down of the end of thinking, once: by whom it was brought about, with which token, how many were left, and the rank of a soft end |
| Budget.PickToken | p36_eval.c:4326-4371 | the branches of the controller choose the token of the specification |
| Budget.RunCase | p36_eval.c:4267-4424 | the loop ends as the rounds say |
| CheckpointFile.StoredReadsBack | p36_kvstore.c:402-475 | a stored file gives back its header, text, payload and trailer |
| CheckpointFile.EntryIsStored | p36_kvstore.c:426-475 | a file that reads as an entry with nothing clamped or reserved is one that a store writes |
| CheckpointFile.TouchReads | p36_kvstore.c:494-511 | a touched file reads as before but for hits and time of use |
| CheckpointFile.TouchChanges | p36_kvstore.c:494-511 | touching sets hits and time of use and changes nothing else exactly when the reason is known and the reserved bytes are zero |
| CheckpointFile.TouchClears | p36_kvstore.c:494-511 | one that is changed elsewhere: a header with a reserved byte set loses it |
| CheckpointFile.RewriteKeeps | p36_kvstore.c:892-930 | rewriting the trailer keeps text, payload and every field but flags and time of use, and puts the new trailer behind them |
| CheckpointFile.NumberBack | p36_kvstore.c:200-222 | a number that fits is read back from its bytes |
| CheckpointFile.PutNumber | p36_kvstore.c:200-209 | the bytes of a number in their place, the rest of the buffer as it was |
| CheckpointFile.GetNumber | p36_kvstore.c:211-222 | the loop from the last byte reads the number |
| CheckpointFile.FillHeader | p36_kvstore.c:402-424 | the buffer holds the header |
| StoreOutcomes.HeaderLayout | p36_kvstore.c:402-424 | every byte of a header: the mark, the version, the fields at their places, and each number from its lowest byte up |
| StoreOutcomes.FlagsJoined | p36_kvstore.c:914-922 | a flag that is noted is set in a header, those that were set stay, and no other is |
| StoreOutcomes.NameIsHash | p36_kvstore.c:339-347 | a name stands for a hash exactly when it is that in hexadecimal digits of either case with .kv behind |
| Eviction.EvictsAStart | p36_kvstore.c:570-616 | when files can be deleted, those deleted are the shortest start of the order after which the rest fits the target |
| Eviction.RankedIsSorted | p36_kvstore.c:580-596 | no entry comes in the order before one that is cheaper, or as cheap and longer unused |
| Eviction.RankedIsStable | p36_kvstore.c:580-596 | entries that rank alike go in the order of the index |
| Eviction.RankedIsRearranged | p36_kvstore.c:570-616 | the order holds each entry as often as the index does |
| Eviction.EvictParts | p36_kvstore.c:570-616 | the index loses exactly the entries deleted and the one that could not be |
| Eviction.SurvivorsRankHigher | p36_kvstore.c:570-616 | no survivor ranks below a victim, even when a deletion fails |
| Eviction.SupersededIsCheaper | p36_kvstore.c:513-568 | a superseded entry keeps between a twentieth and a half of its score |
| Eviction.HitsFade | p36_kvstore.c:545-556 | hits never count for more later |
| Eviction.HitsHalve | p36_kvstore.c:545-556 | hits count whole until the last use, or creation, half as much six hours later, and so on, and for nothing below a hundredth or where neither time is known |
| Eviction.ScorePerByte | p36_kvstore.c:557-560 | what an entry is worth: its tokens for each byte, once and once more for every hit that counts, and twice that for reasons 1, 3 and 4 |
| Eviction.SupersededKeeps | p36_kvstore.c:561-566 | what a superseded one keeps: 10h + 1 of 20h + 20 parts with h hits that count |
| Eviction.AnchorsStay | p36_kvstore.c:531-560 | of two entries alike in all else the one stored cold, on eviction or at shutdown is worth twice the other, which goes first |
| Eviction.ScoreOrder | p36_kvstore.c:557-560 | more tokens, more hits that count or a smaller file never make an entry worth less |
| Eviction.GoesFirst | p36_kvstore.c:580-596 | the victim is the cheapest, of those the one not used for longest, and of those the first in the index |
| Eviction.EvictsInOrder | p36_kvstore.c:570-616 | whether or not files can be deleted, they go in order as long as the total is too great, and it ends at the first that cannot be deleted |
| KvStore.StoreKeepsBudget | p36_kvstore.c:1026-1115 | after a new file the indexed total is within the budget, up to what the trailer took more than was estimated, and within it altogether where the estimate left no room for another file |
| KvStore.BudgetIsKept | p36_kvstore.c:1026-1115 | every run that stores a request ends within the budget exactly when the trailer takes no more than was estimated or the estimate leaves no room for another file |
| KvStore.BudgetIsExceeded | p36_kvstore.c:1026-1115 | one run that does not: a directory with a single file that fills what the estimate leaves ends above the budget by what the trailer took more |
| KvStore.TrailerGrowth | p36_kvstore.c:892-930 | storing into a compatible file changes the indexed total by exactly what is written of the new trailer less the old one, whatever the budget, and nothing where the file cannot be opened; text and payload stay, and a failing write loses the old trailer |
| StoreOutcomes.FitsIsFitsIn | p36_kvstore.c:780-821 | a file fits when its size is below 2^64 and, where there is a budget, 101 times it is within 100 times the budget |
| StoreOutcomes.OutcomeIs | p36_kvstore.c:1035-1164 | when a new file is stored, when it is too big, and when storing fails |
| StoreOutcomes.KeptWhen | p36_kvstore.c:823-874 | a stored file is kept instead exactly when it has the text, the model, the quantisation where that matters, and no larger context |
| StoreOutcomes.StoredSays | p36_kvstore.c:1081-1100 | a new file says what was asked for, never hit, created and used now |
| StoreOutcomes.OthersStay | p36_kvstore.c:932-1164 | the other files stay as they are or are deleted, and none without a budget |
| StoreOutcomes.OwnFile | p36_kvstore.c:852-874 | where nothing is stored or kept, the file of that name is gone exactly when it was a checkpoint that could be deleted |
| StoreOutcomes.NoMoreThanNeeded | p36_kvstore.c:570-616 | for a new file the start of the order goes, and with one file less the budget would be exceeded |
| StoreOutcomes.WaypointGivesWay | p36_kvstore.c:513-529 | an entry counts as superseded exactly when it is a continued one, the incoming text goes on from its text, and model, quantisation and context allow it |
| KvStore.EvictedDirFits | p36_kvstore.c:570-616 | whatever is listed afterwards, without the files deleted, fits the target |
| PrefixLookup.FindBest | p36_kvstore.c:1199-1222 | the scan returns the first entry than which no matching one covers more text, or as much with more tokens |
| PrefixLookup.BestIsUnique | p36_kvstore.c:1199-1222 | an index has no two such entries, so the scan is fixed by that |
| PrefixLookup.FindsLongest | p36_kvstore.c:1199-1222 | without collisions, and with files named after their text, that is the longest text stored that starts the prompt, and there is one whenever some text stored does |
| PrefixLookup.StoreKeepsNames | p36_kvstore.c:932-1164 | every outcome of a store keeps files named after their text |
| PrefixLookup.ChangesKeepNames | p36_kvstore.c:1225-1340 | so does every sequence of stores, uses and deletions |
| PrefixLookup.FindsLongestEver | p36_kvstore.c:1199-1222 | so in every directory that comes from an empty one the scan finds the longest text stored that starts the prompt, as far as the hash tells texts apart |
| PrefixLookup.LoadedSpellsPrompt | p36_kvstore.c:1250-1305 | the tokens of a load spell the whole prompt, even when hashes collide |
| PrefixLookup.StoredIsFound | p36_kvstore.c:932-1164 | after a store, a prompt that the text starts finds it, or one that covers at least as much |
| StoreOutcomes.ContinuesFrom | p36_kvstore.c:1199-1222 | a stored file is a match exactly when its text starts the prompt, its model, quantisation and context allow it, and it has the tokens asked for, counted as a signed number |
| StoreOutcomes.BestIsLongest | p36_kvstore.c:1199-1222 | the best match covers most, of those has the most tokens, and of those is the first |
| StoreOutcomes.LoadIs | p36_kvstore.c:1224-1305 | what loading a stored file comes to: nothing, a corrupt file, or the restored tokens and those of the rest of the prompt |
| CheckpointStore.Store.Refresh | p36_kvstore.c:477-492 | the index is that of the listing |
| CheckpointStore.Store.ChooseVictim | p36_kvstore.c:580-596 | the inner loop finds the first of the least |
| CheckpointStore.Store.MakeRoom | p36_kvstore.c:570-616 | the greedy loop with its running total is the specified eviction, of the index and of the directory |
| CheckpointStore.Store.StoreCheckpoint | p36_kvstore.c:1000-1164 | storing leaves the specified directory in every outcome |
| CheckpointStore.Store.FindTextPrefix | p36_kvstore.c:1199-1222 | refreshing and scanning returns the best match |
| BlockHash.PadLenIsLeast | p36_kvstore.c:304-312 | no shorter filling leaves room for the length (section 5.1.1 of FIPS 180-4) |
| BlockHash.FoldMore | p36_kvstore.c:287-302 | hashing full blocks and then more is hashing all of it |
| BlockHash.ValueBack | p36_kvstore.c:310-311 | the eight bytes of the length spell it from the highest down |
| BlockHash.PaddedBytes | p36_kvstore.c:304-312 | what is hashed, byte for byte: the message, 0x80, only zeros, and the number of its bits in eight bytes, in the fewest whole blocks |
| BlockHash.Context.Update | p36_kvstore.c:287-302 | after any updates the state is the fold of the compression function over the full blocks of all that was put in, and the block holds the rest |
| BlockHash.Context.FinalByUpdates | p36_kvstore.c:304-319 | the finaliser that puts the filling in byte by byte ends, with the fold over the padded message |
| BlockHash.Context.FinalInPlace | p36_image.c:108-127 | the finaliser that writes the filling into the block ends with the same fold |
| TranscriptModel.SplicingIsRendering | p36_cli.c:1033-1078 | whatever was decided since, splicing prefix and system block in place gives the chat that rendering the dialogue from scratch gives |
| TranscriptModel.ImagesStay | p36_cli.c:1033-1078 | after any commands without a clear every image still names its own tokens |
| TranscriptModel.AfterGrows | p36_cli.c:1187-1335 | no command but a clear takes anything away from the dialogue |
| TranscriptModel.BadImageKeepsThinking | p36_cli.c:1203-1212 | a turn whose image fails leaves the talk as it was exactly when its text said nothing new about thinking |
| TranscriptModel.ThinkingStaysOff | p36_cli.c:1194-1212 | one that does not: a text that turns thinking off leaves it off |
| TranscriptModel.FailedTurnLeaves | p36_cli.c:1187-1335 | when any failed turn leaves the talk as it was: always when its prompt is not processed or it is stopped before its first token, and after a failed decoding only when nothing was rendered or generated |
| TranscriptModel.SetThinkSets | p36_cli.c:1389-1423 | setting a mode makes it the one in force, but max below a context of 98304 gives high; the dialogue stays |
| TranscriptModel.NoThinkStops | p36_cli.c:1424-1430 | turning thinking off leaves none, and a text that turns it on again gets high |
| TranscriptModel.SetContextKeeps | p36_cli.c:1455-1483 | another context changes what max comes to, and nothing else |
| TranscriptModel.ClearBegins | p36_cli.c:1431-1433 | clearing begins with the leading messages alone, in the mode set last as far as the system text and the context allow |
| TranscriptModel.TurnAdds | p36_cli.c:1187-1335 | a turn adds what the user says, the start of an answer in the mode this leaves, what is generated and, if it is done, the suffix, in that order, with an image where its message has it |
| TranscriptModel.RenderedIs | p36_cli.c:1033-1078 | what is in front of the dialogue in each mode, and where images are |
| TranscriptModel.InsertedIs | p36_cli.c:1002-1019 | an insertion outside the tokens goes to their start or end |
| TranscriptModel.RemovedIs | p36_cli.c:1021-1027 | a removal ends with the tokens, and one that begins outside them removes nothing |
| Transcript.Tokens.Insert | p36_cli.c:1002-1019 | the in-place insertion with its clamps |
| Transcript.Tokens.Remove | p36_cli.c:1021-1027 | the in-place removal with its clamps |
| Transcript.ReplChat.constructor | p36_cli.c:1105-1128 | a new chat is the one rendered from scratch |
| Transcript.ReplChat.ApplyMax | p36_cli.c:1033-1053 | transcript, counts and image positions after the prefix was seen to |
| Transcript.ReplChat.Sync | p36_cli.c:1055-1078 | transcript, counts and image positions after the system block was seen to |
| Transcript.ReplChat.Rollback | p36_cli.c:1172-1181 | the transcript, images, counts and thinking flag are again those before the turn |
| Transcript.ReplChat.RunTurn | p36_cli.c:1187-1335 | after a turn, however it ends, the chat is the rendering of what was said |
| Transcript.ReplChat.Do | p36_cli.c:1386-1525 | every command keeps the chat the rendering of what was decided and said |
| PatchPacking.PackingRearranges | p36_image.c:448-467 | the closed forms of where a value comes from and goes to are inverse bijections for every size |
| PatchPacking.PixelIsPacked | p36_image.c:448-467 | where the values of each pixel go: groups of 32 by 32 row by row, in each its four patches, in each its three planes, each row by row |
| PatchPacking.Pack | p36_image.c:448-467 | the nested loops write every patch value, each from its place in the canvas, and end with the index at the number of values |
| PatchPacking.PackPatch | p36_image.c:454-463 | the three inner loops pack one patch |
| Orientation.MovedIsSeen | p36_image.c:198-210 | each pixel goes to the one point where section 8 of TIFF 6.0 says that its row and column are seen |
| Orientation.MovedAndBack | p36_image.c:198-210 | the eight maps are bijections; 2, 3, 4, 5 and 7 undo themselves, 6 and 8 undo each other |
| Orientation.TurnedBack | p36_image.c:186-217 | turning and then turning by the inverse gives the image back |
| Orientation.PixelIsMoved | p36_image.c:186-217 | the three bytes of each pixel of the turned image are those of the pixel moved there, or three times its first where it has fewer |
| Orientation.Orient | p36_image.c:186-217 | the loops write every byte of the turned image |
| JsonString.WrittenIsRead | p36_cli.c:733-757 | any bytes are written as one JSON string (section 7 of RFC 8259) that is read as the text they are, or, when they are no UTF-8, as one character for each byte |
| JsonString.StringTells | p36_cli.c:733-757 | two token texts are read alike exactly when they are the same, or when one is no UTF-8 and the other is the UTF-8 text of its byte numbers |
| JsonString.StringIsShared | p36_cli.c:733-757 | each text that is no UTF-8 shares its string with exactly one that is |
| JsonString.StringDoesNotTell | p36_cli.c:748-751 | one such pair: a letter with an accent and the lone byte of its number |
| JsonString.Forms | p36_cli.c:733-757 | the form of each kind of byte, in instances |
| JsonString.JsonWriteString | p36_cli.c:733-757 | the loop writes that string |
| ExifOrientation.OrientationIsRead | p36_image.c:148-184 | behind any markers on their own and segments that are not Exif, an Exif directory in either byte order is read as its first orientation entry, and the search goes on where it has none |
| ExifOrientation.EntriesAreRead | p36_image.c:171-179 | directory entries are read as they were written |
| ExifOrientation.SaidIs | p36_image.c:171-179 | a directory says the number of its first orientation entry, in its byte order, taken for 1 where it is not from 1 to 8 |
| ExifOrientation.SearchEnds | p36_image.c:148-184 | the search ends with 1 where no marker follows, at a segment that does not fit, at the image data, and at a broken Exif directory |
| ExifOrientation.BrokenIs | p36_image.c:159-169 | when a directory is broken |
| ExifOrientation.ScanIsTag | p36_image.c:148-184 | whatever the bytes, the answer is one of the eight tags |
| ExifOrientation.JpegOrientation | p36_image.c:148-184 | the scan ends, reads within the data, and is the specified search |

## Left out

- Terminal painting, raw mode, hints, completion, the status line and `display[64]`: they do not change the line.
- The input queue of the editor: reading a byte is a parameter of the model.
- Errors of `read`, and editing when standard input is not a terminal.
- Decoding and resampling images, and the floating-point scaling of pixels.
- The compression functions of SHA-1 and SHA-256: they are a parameter of `BlockHash`.
- Free-text answer heuristics, the normalisation of answers other than line lists, and number formats of the trace (numbers are given as they are printed).
- LineEditor.LineState.EditHistoryNext: an entry longer than the buffer is cut as the program does, but the invariant is proved for entries that fit or that no cut can split; a buffer that may grow can have any size up to its limit then.
- LineAnswer.NormalizedIsSpec: the line holds no NUL, as the text is a C string up to its end; the window of 160 characters is shorter than the buffers of 256.
- History.SaveLoad: entries hold no NUL, as they are C strings.
- TraceRoundTrip.TraceIsRead: metadata fields are given without a NUL, as they are C strings, and must not hold the text that starts a counted block; the program does not escape them.
- Budget.RunCase: pausing, the screen and the clock are not modelled; an interruption may come before any round.
- Eviction.HitsFade: the factor of an age is any between 0 and 1 that does not grow with it (`HitsHalve` takes the program's half-life, at whole multiples of it); the score is over real numbers.
- KvStore.StoreKeepsBudget: file sizes are natural numbers, so that the running total cannot wrap.
- PrefixLookup.LoadedSpellsPrompt: says nothing of checkpoints stored under a visible transcript, whose tokens do not spell their text.
- CheckpointStore.Store.StoreCheckpoint: staging of the payload, the temporary file and log messages are not modelled; a new file is written whole or not at all, a trailer that is written again may be left with any start of it, and seeking, truncating and rewriting a header in an open file do not fail.
- When a continued checkpoint is due, the length and anchor of a store, and stores refused because the live state is elsewhere: branches before anything is touched.
- Transcript.ReplChat.Do: the session and its cached prefix are not modelled, nor is a context change that fails, which ends the program; image positions are unbounded numbers.
- The rest of the JSON output, option parsing, help, benchmarks and the case tables.
