# A verified model of raoui

raoui is a console for R: an OCaml thread runs the user interface, a C thread runs R, and a byte ring carries R's
messages from one to the other. This project models the parts of it that are hard to get right and proves what they
are for. To verify it, run `dafny verify dfyconfig.toml` in this directory.

**The ring and the protocol over it.** `RingBuffer` is the circular byte array with its headers, wrap-around, eviction
and truncation, as a class whose methods are proved to do to the queue of frames what `RingQueue` says. `WorkerSlots` is
the mailbox the worker looks into, `FfiBackend` the frontend's bookkeeping and its wait for a response. `Protocol` puts
the two threads together as a system of atomic steps with an invariant; `Delivery` and `Progress` say what every run
keeps, `Waiting` that the turns of the wait in this system, taken alone, are the wait of `FfiBackend`, and what text such a
wait returns. `Output` follows every message over a whole run: it is shown in the order of writing, held, hidden or lost.
The ring forgets its oldest frames and the command slot overwrites what is in it; still no command, no end of a command and no question to the user is ever lost, in any
interleaving, and from every reachable state the system can come to rest.

**Text on the screen.** `UnicodeString` wraps a line of clusters greedily (with the fewest rows possible) and relates
the packed run-time record to lists of clusters. `StyledRanges` and `View` hold the second wrapper, a loop that also
colours; the two are proved to agree row for row on exactly the lines that are described by `View.Unambiguous`.
`FrontendTypes` converts between cursor and screen, `VerticalMoves` has `move_up` and `move_down`, and `VerticalKeys` the
Up and Down keys, which on the first and the last line go to the history instead.

**The editor.** `LexerCache` lexes incrementally, for any lexer with modes. `TextEditor` is the list of lines with a
cursor, and `FlatEditor` the same editor as one flat text with one offset, which the lines refine key by key. `RHighlight` collects coloured ranges, through glue strings within glue
strings, and `Normalizing` sorts, clips and merges them.

**Layout.** `MdLayout` breaks styled runs into words, wraps them under two prefixes and caps table columns.
`SearchPager` packs search results into a budget of rows.

**History and quoting.** `History` browses commands with a filter that follows the draft, and searches them. `RawString`
writes a shell command into an R raw string behind a guard it searches for, and reads raw strings back; `OpenLines` has the
loop of the lexer over a line that leaves a string open, quoted or raw, and `RawLines` reads raw strings line by line.

`Strings`, `Numbers` and `Wrappers` hold what several of these use.

Where a promise fails, the code is modelled as it is, with an input on which the promise fails and the exact condition
under which it holds:

- The `Done` of a user's command is not reported when another command is queued behind it (`DoneCanBeSwallowed`,
  `DoneIsReportedIff`).
- The two wrappers disagree when a zero-width cluster follows an exactly full row, or an over-wide cluster follows
  clusters of no width (`PainterCanDiffer`, `PainterFollowsWrapIff`).
- The cursor comes back from the screen unless it stands before a cluster of no width, such as a tab
  (`TabDoesNotComeBack`, `RoundTripIff`).
- The end of a line can be outside the screen: the empty row that a full line is given for the cursor is missing where
  wide clusters leave earlier rows incomplete (`EndOffScreen`, `CursorOnScreenIff`).
- Below the first line Up goes to the start of the cursor's own row when the row above is too short for the column and is
  not the last row of its line, which takes a row that a wide cluster left incomplete (`UpStaysOnRow`, `WelcomingIff`).
- When Up on the first line finds nothing in the history, the Down after it uses the column of an earlier run of
  vertical keys; likewise for Down on the last line (`OldColumnInForce`, `DownAfterFailedUpIff`, `UpAfterFailedDownIff`).
- k Ups and k Downs do not always bring the cursor back: the history takes the Ups on the first line and the Downs on the
  last one, whichever of its rows the cursor is on (`KeysNeedNotRestore`, `KeysRestoreIff`).
- Backspace after an opening bracket takes too much when the bracket was typed before a closing bracket that carries a
  combining mark (`BackspaceTakesTheMark`, `BackspaceUndoesTypingIff`).
- A long paste may lose a whole line: it is cut after 5120 bytes, and if that is within a character, the last line is not
  valid text any more and is dropped (`LongPasteIsLost`, `PasteSpells`).
- The tokens of a line need not hold just its bytes: an opening single quote at the end of a line is put off to the next
  one, and what stands in front of the bracket of a raw string comes twice if the line ends there (`QuoteIsPutOff`,
  `PrefixComesTwice`, `FirstLineTilesIff`, `LinesTileIff`).
- Hence normalized ranges need not tile the line: they run past its end when a token begins behind it. The styles of the
  line's bytes are what the ranges say all the same (`RangesCanRunPastTheLine`, `NormalizeSpec`, `HarmlessIff`,
  `HighlightSpec`).
- A step back in the history that fails still moves while older entries are left. The next step forwards then seems to
  do nothing, and the one after it may skip entries (`FailedBackSkips`, `ForwardsAfterFailedBack`,
  `SkipsAfterFailedBackIff`).
- A raw string over several lines is not read as one text when its first line ends before its bracket: then the first
  character below, on the next line that is not empty, ends it (`UnfinishedDelimiterEndsAtOnce`, `LinesReadAsOneIff`).

One more exact condition is a bound on the primitives rather than a failure of the program: the cursor would leave the
text if nothing were typed at the end of a line, or if a completion began behind the end of the line
(`CursorStaysInTextIff`). A typed key carries a character, and lib/completion_controller.ml:18 drops a completion whose
start is no longer in the line; no caller in the repository passes either input on the paths modelled here.

Conventions: a `char` of a text stands for a byte, except within `Cluster`s, where the text of a cluster is its bytes.
Lists that the source builds in reverse are kept in order. A ghost parameter names the value that a run-time record
stands for.

## Model

| member | source | states |
|---|---|---|
| RingQueue.EvictCountIsShortest | c_ffi/ring_buffer.c:140-148 | Evicting from the old end while there is no room removes the shortest prefix of frames that makes room, for every queue. |
| RingQueue.PushEffect | c_ffi/ring_buffer.c:118-156 | A push drops the shortest sufficient prefix and counts its frames and bytes, keeps every younger frame in order and puts the frame (cut if oversize) last; it drops nothing exactly when there was room. |
| RingQueue.OversizeEmptiesTheRing | c_ffi/ring_buffer.c:124-138 | An oversize message leaves itself alone in the ring, and counts all frames and bytes that were there as dropped. |
| RingQueue.OversizeFillsTheRing | c_ffi/ring_buffer.c:124-138 | It is cut to fill the ring exactly, and marked as truncated. |
| RingQueue.RunConserves | c_ffi/ring_buffer.c:48-68 | After any sequence of pushes and pops since a reset: stored = popped + dropped + held, for frames and for payload bytes, and the ring holds the youngest stored frames in order, within capacity. |
| RingBuffer.HeaderRoundTrip | c_ffi/ring_buffer.c:149-153 | Every header comes back from its six bytes. |
| RingBuffer.EncodeAllInjective | c_ffi/ring_buffer.c:166-211 | The bytes in the ring determine the frames: headers and payloads cannot be confused, whatever the payloads hold. |
| RingBuffer.WriteAppends | c_ffi/ring_buffer.c:8-20 | Bytes written at the head, around the end of the array or not, are appended to the occupied bytes and disturb none of them. |
| RingBuffer.SkipDrops | c_ffi/ring_buffer.c:49-68 | Moving the tail on by any number of bytes drops exactly these from the front of the occupied bytes. |
| RingBuffer.RingBuffer.Init | c_ffi/ring_buffer.c:72-94 | A fresh ring is empty; a capacity that leaves no room behind a header is refused. |
| RingBuffer.RingBuffer.Reset | c_ffi/ring_buffer.c:107-116 | A reset forgets frames and counters and keeps the capacity. |
| RingBuffer.RingBuffer.RingPeek | c_ffi/ring_buffer.c:36-46 | Peeking returns the oldest bytes, around the end of the array, and changes nothing. |
| RingBuffer.RingBuffer.RingRead | c_ffi/ring_buffer.c:22-34 | Reading returns the oldest bytes and removes them. |
| RingBuffer.RingBuffer.DropOldest | c_ffi/ring_buffer.c:49-68 | Dropping removes exactly the oldest frame and counts it and its payload; the branch for a corrupt header is dead. |
| RingBuffer.RingBuffer.EvictAll | c_ffi/ring_buffer.c:124-137 | The loop that empties the ring for an oversize message ends with the ring empty and everything counted. |
| RingBuffer.RingBuffer.EvictFor | c_ffi/ring_buffer.c:140-148 | The eviction loop drops the shortest prefix that makes room. |
| RingBuffer.RingBuffer.Push | c_ffi/ring_buffer.c:118-156 | `rb_push` on the array of bytes acts on the queue of frames as `RingQueue.Push`, for every capacity, offset and wrap position. |
| RingBuffer.RingBuffer.HasData | c_ffi/ring_buffer.c:158-164 | There is data exactly when there is a frame. |
| RingBuffer.RingBuffer.Pop | c_ffi/ring_buffer.c:166-211 | `rb_pop` returns and removes exactly the oldest frame, cut to the caller's buffer when that is smaller, and touches nothing else. |
| WorkerSlots.RequestSlots.Submit | c_ffi/load_r.c:1196-1202 | Submitting writes the command slot, over whatever is in it, and touches no other slot. |
| WorkerSlots.RequestSlots.RequestCompletions | c_ffi/load_r.c:1224-1233 | A completion request replaces an earlier one and withdraws a request for columns. |
| WorkerSlots.RequestSlots.TakeWork | c_ffi/load_r.c:1091-1150 | The worker takes a command before completions before columns, and no request survives the turn; turns that run sandboxed code, which leave requests alone, are left out. |
| WorkerSlots.LastRequestIsTaken | c_ffi/load_r.c:1196-1245 | After any stretch of requests the worker evaluates the last command, and without one does what was asked for last: it completes that line at that position or lists the columns of that object. |
| FfiBackend.Backend.DoSubmit | lib/ffi_backend.ml:126-132 | Submitting sends the code at once or queues it, as `Submit` says of the record and the slots. |
| FfiBackend.Backend.DoBackgroundSubmit | lib/ffi_backend.ml:134-142 | Likewise for a background command, whose output will be suppressed. |
| FfiBackend.Backend.DoFlushPending | lib/ffi_backend.ml:93-104 | The oldest pending command is sent, if there is one, with or without suppression by its sort. |
| FfiBackend.Backend.AwaitResponse | lib/ffi_backend.ml:215-276 | Waiting for a response acts on record, slots and ring as `Await`: the startup output first, then the put-aside message, then the ring, output being collected and the message behind it put aside. |
| FfiBackend.Backend.DoLoop | lib/ffi_backend.ml:235-276 | The message loop acts as `AwaitMessage`, through suppressed messages and ends of commands. |
| FfiBackend.Backend.DoDrain | lib/ffi_backend.ml:226-234 | The loop over consecutive output acts as `AwaitDrain`; what that returns is `Waiting.OutputIsJoined`. |
| Waiting.OutputIsJoined | lib/ffi_backend.ml:215-276 | A wait that finds k > 0 messages of output, put aside or in the ring, and does not hide them returns their payloads joined in order as one text, and puts just the next message aside. |
| Waiting.HiddenIsSkipped | lib/ffi_backend.ml:245-253 | While a background command runs, messages of every kind but DONE, passthrough, completions, input and 12 are passed over. |
| Waiting.MessageIsReturned | lib/ffi_backend.ml:245-276 | Any other message that is not passed over is returned with its kind and payload. |
| Waiting.WaitAloneIsAwait | lib/ffi_backend.ml:215-276 | Turns of the wait in the system of both threads, with nobody else at work, until one returns a chunk or the ring is empty, give the same record, slots, ring and chunk as the wait of the method. |
| Protocol.StepKeeps | c_ffi/load_r.c:1091-1150 | Every step of either thread keeps the invariant: the shape of the ring, one token for the command under way, one question at a time, order, suppression and authorship of output. |
| Protocol.AlwaysInv | lib/ffi_backend.ml:88-142 | The invariant holds in every state that any interleaving reaches. |
| Delivery.BusyMeansExactlyOneToken | lib/ffi_backend.ml:215-276 | The frontend is busy exactly when exactly one of these holds: command in the slot, worker evaluating, DONE in the ring, DONE put aside. |
| Delivery.CommandsAreNotOverwritten | c_ffi/load_r.c:1196-1202 | When the slot comes to hold another command, it was empty and the worker was not evaluating. |
| Delivery.StartsFindTheSlotEmpty | lib/ffi_backend.ml:88-103 | Whenever the frontend starts a command, be it the same text again, the slot is empty and nothing is being evaluated, and it starts just one. |
| Delivery.SignalsSurvive | c_ffi/load_r.c:590-662 | A DONE, READLINE or PASSTHROUGH leaves ring and put-aside message only by being handled or shown; no push evicts it, no reset discards it. |
| Delivery.BlockedWorkerWillBeAnswered | c_ffi/load_r.c:310-333 | A worker blocked on an answer has exactly one question to be read, shown or answered; no answer is given to a worker that does not wait. |
| Delivery.CommandsArriveInOrder | lib/ffi_backend.ml:93-142 | Received commands, the one in the slot and the pending ones make up what was submitted, in order, user and background mixed; ready and not busy implies nothing is pending and all are handled. |
| Delivery.UserOutputIsShown | lib/ffi_backend.ml:245-253 | A message that is suppressed and written by a command was written by a background command. |
| Delivery.ResetDiscardsNoOutput | c_ffi/load_r.c:1110-1118 | The reset before a command discards only what completion requests wrote. |
| Delivery.DoneIsReportedIff | lib/ffi_backend.ml:259-264 | At the end of a command `Done` is returned exactly when it was the user's and nothing is pending behind it. |
| Delivery.DoneOnlyAtDone | lib/ffi_backend.ml:235-276 | `Done` is returned in no other step. |
| Delivery.HidingChanges | lib/ffi_backend.ml:88-142 | In every step: a command that starts decides by its sort whether output is hidden, a submission of the user's and the end of a command end it, nothing else changes it. |
| Output.ShownInOrder | lib/ffi_backend.ml:215-276 | Over every run: what was returned, byte by byte, with the text being added up, is what was taken from the ring; that and what is held are parts of what was written, in that order; every message written was taken, is held, was hidden or was lost. |
| Output.NothingIsMissing | lib/ffi_backend.ml:215-276 | If nothing was hidden or lost, what was returned and what is still held are exactly what was written, startup output included. |
| Output.BackgroundOutputIsHidden | lib/ffi_backend.ml:245-253 | Output of a background command behind which nothing is pending is never shown. |
| Progress.EverythingFinishes | lib/ffi_backend.ml:215-276 | From every reachable state there is a run without new input to a state in which all that was submitted has been received in order and handled. |
| Progress.DoneCanBeSwallowed | lib/ffi_backend.ml:259-264 | A run in which a user's command ends, a background command queued behind it ends, and no `Done` is ever returned. |
| UnicodeString.WrapIsLayout | lib/unicode_string.ml:344-372 | Wrapping ends, its rows concatenate to the line, and each fits the width or is one over-wide cluster. |
| UnicodeString.WrapIsShortest | lib/unicode_string.ml:344-372 | Apart from the empty row for the cursor no layout of the line has fewer rows. |
| UnicodeString.GraphemeAtWidthIsLongest | lib/unicode_string.ml:48-57 | The result is the length of the longest prefix within the target width. |
| UnicodeString.PackInjective | lib/unicode_string.ml:1-14 | Bytes, offsets and widths determine the clusters. |
| UnicodeString.SubCutsClusters | lib/unicode_string.ml:308-322 | `sub` on the record is the slice of clusters, with start and length taken into bounds. |
| UnicodeString.InsertAsciiWidth1 | lib/unicode_string.ml:192-217 | The fast path of insertion gives the record of the line with the cluster inserted. |
| UnicodeString.DeleteAscii | lib/unicode_string.ml:252-291 | The fast path of deletion gives the record of the line without the cluster. |
| UnicodeString.Delete | lib/unicode_string.ml:252-291 | Deletion on either path removes exactly the cluster, and does nothing out of bounds; only the slow path asks for a segmentation. |
| StyledRanges.MaximalTilingIsUnique | lib/r_highlight.ml:101-111 | Two tilings by maximal runs that give each byte the same style are the same list. |
| StyledRanges.JoinLastTiles | lib/view.ml:51-61 | Adding a segment extends the tiling, joins equal neighbours and leaves earlier bytes their style. |
| View.AdvanceKeepsStyles | lib/view.ml:71-82 | Of ranges with their starts in order, forgetting those that end before a byte changes the style of no later byte, and the first one left decides. |
| View.WrapStyledLine | lib/view.ml:63-124 | The loop paints, row for row, exactly the bytes of the rows of `AllPaintedRows`, each cluster in the style of the range at its first byte. |
| View.RowsAgreeIff | lib/view.ml:98-118 | From any point of a line on, loop and wrapper make the same rows exactly when neither ambiguous situation arises. |
| View.PainterFollowsWrapIff | lib/view.ml:63-124 | The loop paints the rows of `Unicode_string.wrap` if and only if the line is unambiguous. |
| View.PainterFollowsWrap | lib/view.ml:63-124 | Lines without zero-width clusters are always painted on the rows of `Unicode_string.wrap`. |
| View.PainterCanDiffer | lib/view.ml:111-118 | A line with a tab after a full row on which the two differ. |
| FrontendTypes.RoundTripIff | lib/frontend_types.ml:91-153 | Cursor to screen and back is the identity at a position exactly when it is at the end of its line or before a cluster of positive width. |
| FrontendTypes.TabDoesNotComeBack | lib/frontend_types.ml:91-153 | A cursor before a tab that comes back behind it. |
| FrontendTypes.RoundTrip | lib/frontend_types.ml:91-153 | With positive widths it is the identity at every valid position, for every width. |
| FrontendTypes.PlacesAreOrdered | lib/frontend_types.ml:91-116 | A later position is never shown earlier, and at the same place only with nothing visible in between. |
| FrontendTypes.PlacesAreStrictlyOrdered | lib/frontend_types.ml:91-116 | With positive widths the way to the screen is strictly increasing. |
| FrontendTypes.Landing | lib/frontend_types.ml:119-153 | Every place on the screen leads to a valid position; it is shown on that row exactly when the column is within the row or the row ends its line, else at the start of the next row. |
| FrontendTypes.CursorOnScreenIff | lib/unicode_string.ml:342-372 | A cursor before a visible cluster or at the end of its line is within the width, except exactly at the end of a line whose last row is full while its total width is no multiple of the screen's. |
| FrontendTypes.EndOffScreen | lib/unicode_string.ml:366-372 | A line of wide clusters whose end is outside the screen. |
| VerticalMoves.WelcomingIff | lib/text_editor.ml:225-286 | `move_up` and `move_down` reach the row they aim at exactly when the column lies within that row or the row is the last of its line; otherwise they go to the start of the row below that. |
| VerticalMoves.UpStaysOnRow | lib/text_editor.ml:225-254 | A text of two lines in which `move_up`, called on the second, goes to the start of the cursor's own row. |
| VerticalMoves.MovesStayInText | lib/text_editor.ml:225-286 | `move_up` and `move_down` never leave the text. |
| VerticalMoves.UpsThenDownsRestore | lib/text_editor.ml:225-286 | With positive widths, `move_up` k times and `move_down` k times restore the cursor if the rows passed are wide enough or last of their lines. |
| VerticalMoves.UnitMovesGoOneRow | lib/text_editor.ml:225-286 | With unit widths and the column below the width, the functions land exactly on the next row at min(column, row length). |
| VerticalMoves.UnitUpsThenDownsRestore | lib/text_editor.ml:225-286 | With unit widths `move_up` k times and `move_down` k times restore the cursor whenever there are k rows above. |
| VerticalKeys.KeysStayInText | lib/mode_common.ml:70-92 | Whatever the history answers, Up and Down leave the cursor within the text, be it the old one or the recalled one. |
| VerticalKeys.KeysAskHistory | lib/mode_common.ml:70-92 | A key on the first or last line, while leafing or outside of Normal mode: the recalled text replaces the old with the cursor behind all of it, in its mode, to be leafed on; without one all stays. |
| VerticalKeys.RowTellsLine | lib/normal_mode.ml:74-85 | The guards of the keys in terms of the screen: the cursor is on the first line exactly on its rows, and on the last line exactly from its first row on. |
| VerticalKeys.KeysRestoreIff | lib/normal_mode.ml:74-85 | With unit widths and nothing in the history, k Ups and k Downs bring the cursor back exactly when there is one line, or the cursor is on the first row of the last line, or it is between that and the first line with k rows to it. |
| VerticalKeys.KeysRestoreWhateverHistory | lib/normal_mode.ml:74-85 | From no lower than the first row of the last line, k Ups that end no higher than the last row of the first line and k Downs bring text and cursor back whatever the history holds. |
| VerticalKeys.KeysNeedNotRestore | lib/normal_mode.ml:74-85 | From the second row of the last line, two Ups and two Downs end elsewhere. |
| VerticalKeys.AimsAgreeIff | lib/text_editor.ml:225-286 | Aiming at two columns of a row leads to the same position exactly when the length of the row cuts both to the same one. |
| VerticalKeys.DownAfterFailedUpIff | lib/update.ml:131-144 | A Down behind an Up that found nothing in the history goes where Down alone goes exactly when the next row cuts the remembered column and the cursor's to the same one. |
| VerticalKeys.UpAfterFailedDownIff | lib/update.ml:131-144 | Likewise for Up behind a Down on the last line. |
| VerticalKeys.OldColumnInForce | lib/update.ml:131-144 | A text in which it goes elsewhere. |
| LexerCache.CreateIsLexing | lib/lexer_cache.ml:24-34 | A cache is what `create` makes exactly when every line has its text, begins in the mode the line above ends in, the first in the initial one, and has the tokens and end mode of lexing it in that mode. |
| LexerCache.UpdateIsCreate | lib/lexer_cache.ml:49-89 | Updating the cache of the old lines gives the cache of the new ones, which lexes them line by line as said, for every lexer with modes, if the lines agree outside the given range; if their numbers differ, whatever they are. |
| TextEditor.InsertEffect | lib/text_editor.ml:66-79 | Typing splices the clusters into the flat text at the cursor, which moves by one cluster. |
| TextEditor.DeleteEffect | lib/text_editor.ml:81-120 | Backspace removes the atom before the cursor, be it a line end, and is impossible only at offset 0. |
| TextEditor.NewlineEffect | lib/text_editor.ml:122-142 | Enter splices in a line end and moves behind it. |
| TextEditor.PasteEffect | lib/text_editor.ml:144-197 | Given the pasted lines, of any number, their flat text is spliced in and the cursor is behind it; which lines a text makes is `FlatEditor.PasteSpells`. |
| TextEditor.MoveLeftEffect | lib/text_editor.ml:199-211 | Left moves the offset by one, across line ends, and changes no text. |
| TextEditor.MoveRightEffect | lib/text_editor.ml:213-223 | Right likewise; it does not move exactly at the end of the text. |
| TextEditor.ClearEffect | lib/text_editor.ml:396-410 | Deleting before the cursor removes the atoms from the start of the line to it. |
| TextEditor.DeleteCharAfterCursorEffect | lib/text_editor.ml:412-415 | Delete removes the atom at the cursor, be it a line end, and leaves the cursor in place. |
| TextEditor.ReplaceRangeEffect | lib/text_editor.ml:422-450 | Replacing takes the bounds into the line and splices the new text in; where the cursor goes, and when that is in the line. |
| TextEditor.SessionFollows | lib/text_editor.ml:3-15 | Along every sequence of typing, Backspace, Enter, Delete, clearing, pasting, completing and moving left or right in Normal mode the cache lexes the text in full: each line in the mode in which the one above ends. |
| TextEditor.SessionStaysDefault | lib/text_editor.ml:3-24 | In shell, AI and readline mode it holds one token for each line, whatever is typed. |
| FlatEditor.PressIsFlat | lib/text_editor.ml:66-450 | Every key does to the lines what it does to one flat text with one cursor: where a bracket or quote brings its partner or is typed over, what Backspace takes, what Enter, clearing, pasting and completing splice in. |
| FlatEditor.SessionIsFlat | lib/text_editor.ml:66-450 | So does every sequence of keys. |
| FlatEditor.LineInText | lib/text_editor.ml:41-48 | The cursor's line lies in the flat text between the line ends around the cursor. |
| FlatEditor.PasteSpells | lib/text_editor.ml:144-197 | What a paste splices in at the cursor spells the first 5120 bytes of the text but for its lines that are not valid, of which nothing is left: exactly those bytes if and only if none of them that is not empty is invalid. |
| FlatEditor.LongPasteIsLost | lib/text_editor.ml:145-159 | A text of 5121 bytes on one line of which a paste leaves nothing. |
| TextEditor.CursorStaysInTextIff | lib/text_editor.ml:66-197 | Exactly which of these keep the cursor within the text: all but typing no cluster at the end of a line and completing from behind it. |
| TextEditor.BackspaceUndoesTypingIff | lib/text_editor.ml:288-333 | Backspace right after typing any ASCII character restores text and cursor exactly when it was not typed over the same closing bracket or quote, and, if it may bring a partner, the cursor did not stand before that partner with a combining mark. |
| TextEditor.BackspaceTakesTheMark | lib/text_editor.ml:314-333 | A line with an accented closing bracket that Backspace takes together with the opening one. |
| TextEditor.UserInputFollows | lib/text_editor.ml:288-312 | Typing, with pairing and skipping, keeps the cache equal to a full lexing. |
| TextEditor.UserDeleteFollows | lib/text_editor.ml:314-333 | So does Backspace, with pairs. |
| TextEditor.BackspaceUndoesTyping | lib/text_editor.ml:288-333 | In that case and Normal mode the whole editor is restored, cache included. |
| Normalizing.SortOrdersBytes | lib/r_highlight.ml:113-121 | Sorting keeps the ranges and puts them in the order of their first bytes, and of their last ones where these are the same. |
| Normalizing.NormalizeSpec | lib/r_highlight.ml:101-144 | Whatever the ranges, overlapping, empty or beyond the text: each byte of the text has the style of the first range covering it in sort order, plain if none does; the starts are in order; and the list is the tiling of the text by maximal runs exactly when the ranges are harmless. |
| Normalizing.HarmlessIff | lib/r_highlight.ml:122-141 | Ranges are harmless exactly when each has a byte of the text or begins no later than where the ranges before it in sort order reach. |
| Normalizing.ClipTilesIff | lib/r_highlight.ml:122-141 | From any position on, the loop tiles the rest of the text exactly when the remaining ranges are harmless. |
| Normalizing.MergeTilesIff | lib/r_highlight.ml:101-111 | Merging neither makes nor spoils a tiling. |
| Normalizing.TilingIsHarmlessIff | lib/r_highlight.ml:122-141 | Ranges that tile bytes from the first on are harmless exactly when none begins behind the text. |
| Normalizing.EmptyRangesBreakTheTiling | lib/r_highlight.ml:122-144 | An empty range, with the text before it in the list twice. |
| RHighlight.RangesPaint | lib/r_highlight.ml:153-178 | The ranges of a token list cover its bytes without gap or overlap, each in the colour that the byte-by-byte reference gives it, at any depth of glue. |
| RHighlight.FindCloseIsFirst | lib/r_highlight.ml:187-194 | The brace that closes an expression is exactly the first with which one more brace has closed than opened since the expression began; there is none exactly when that never happens. |
| RHighlight.GluePaints | lib/r_highlight.ml:180-292 | Likewise for the ranges of a glue string, in whatever order they come. |
| RHighlight.GlueTiles | lib/r_highlight.ml:180-292 | The ranges of a glue string, once sorted, tile exactly its bytes. |
| RHighlight.TokensTile | lib/r_highlight.ml:153-178 | The ranges of a token list, once sorted, tile exactly its bytes. |
| RHighlight.TextIsString | lib/r_highlight.ml:196-205 | What the parser of a glue string takes as string in one piece is what the reference colours as string. |
| RHighlight.HighlightSpec | lib/r_highlight.ml:294-296 | A highlighted line, be its tokens longer or shorter than it: each byte has its reference colour, plain behind the tokens; the starts are in order, as the painter needs; the ranges are one tiling by maximal runs exactly when none begins behind the end of the line, as is always so when the tokens are no longer than the line. |
| RHighlight.EmptyLine | lib/r_highlight.ml:294-296 | An empty line in a mode without a lexer is highlighted as nothing. |
| RHighlight.RangesCanRunPastTheLine | lib/r_highlight.ml:87-125 | A line below an opening single quote, with the tokens the lexer makes of it, whose normalized ranges run past its end. |
| MdLayout.WordsOfRuns | lib/md_layout.ml:79-103 | The loops over runs and parts compute `WordsOf`. |
| MdLayout.WordsAreTheBreaks | lib/md_layout.ml:76-103 | The words are the stretches between the spaces of the styled text, wherever runs begin and end; no piece is empty or holds a space; each width is the sum of its pieces' widths. |
| MdLayout.WrapWords | lib/md_layout.ml:108-137 | The loop computes the greedy lines under their prefixes; measured in columns, each line with its prefix and single spaces has at most `width` or holds one word, and no other division of the words has fewer lines; without words the first prefix stands alone. |
| MdLayout.WrappingIsShortestLayout | lib/md_layout.ml:105-137 | For any two rooms, the lines keep all words in order, fit the room or hold one word, and no layout with these rooms has fewer lines. |
| MdLayout.LinesFit | lib/md_layout.ml:105-137 | Line for line, prefix, words and single spaces are what the words of the line make them and measure at most the width, unless the line holds one word. |
| MdLayout.ParagraphKeepsInk | lib/md_layout.ml:79-137 | Breaking and wrapping together lose, add, reorder or restyle no visible character. |
| MdLayout.CapIsLargest | lib/md_layout.ml:222-233 | Columns that fit are not capped; otherwise no larger cap would fit, and this one fits unless one column of screen each does not. |
| SearchPager.ViewRows | lib/search_pager.ml:25-66 | The rows are the selected entry's block and exactly min(n - 1, budget - height) others at consecutive indices, within the budget; none without entries or budget. |
| SearchPager.SelectedBlockIsComplete | lib/search_pager.ml:32-44 | The selected entry's block stands in one piece from its first line on, and has all lines exactly when they leave room for the context. |
| SearchPager.EveryLineIsAccountedFor | lib/search_pager.ml:46-64 | For each visible entry rows shown plus lines said to be hidden is its number of lines; others have neither. |
| SearchPager.EveryEntryIsShown | lib/search_pager.ml:46-64 | Each visible entry can be read from its rows: the first is marked, and their lines with as many more as are said to be hidden are the text. |
| SearchPager.AlternativesStayVisible | lib/search_pager.ml:17-19 | Three other entries stay visible, or all, or all there is room for beside one row. |
| History.History.UpdateSearchNeedle | lib/history.ml:87-94 | The filter becomes what is on display unless that is the entry the position says. |
| History.History.GoBack | lib/history.ml:99-115 | The recursive method acts as `Back` on index, saved draft and filter. |
| History.History.GoForwards | lib/history.ml:117-133 | The recursive method acts as `Forwards`. |
| History.History.Add | lib/history.ml:246-254 | A command that is not blank is appended and browsing starts anew. |
| History.BackShowsNearest | lib/history.ml:99-115 | Back shows the nearest older entry that contains the draft and does not repeat its newer neighbour, and fails exactly when there is none. |
| History.BackShowsEntry | lib/history.ml:96-115 | What Back shows is the text and mode of the nearest older entry that holds the filter's text and differs from the next newer one; it shows nothing exactly when there is none. |
| History.ForwardsUndoesBack | lib/history.ml:117-133 | Forwards from where Back led shows what was there before, draft included, and restores the position. |
| History.BackAndForth | lib/history.ml:99-133 | n successful Backs and n Forwards, each fed what is on display, show the same prompts in reverse and end where they began. |
| History.BackCountsMatches | lib/history.ml:96-115 | From the draft, the n-th Back shows the n-th newest match, with the index in bounds and draft and filter kept. |
| History.FailedBackKeepsFilterIff | lib/history.ml:87-115 | After a Back that failed, Forwards keeps the filter exactly when the oldest entry reads like the one on display, or the filter does. |
| History.ForwardsAfterFailedBack | lib/history.ml:99-133 | After a Back that failed, Forwards leaves position and display where they were exactly when older entries are left; otherwise the failed Back changed nothing. |
| History.SkipsAfterFailedBackIff | lib/history.ml:99-133 | The Forwards after that goes elsewhere than without the failed Back exactly when the oldest entry reads differently from the one on display and the nearest newer match does not contain the text on display. |
| History.FailedBackSkips | lib/history.ml:99-133 | A history in which a failed Back makes Forwards skip a match. |
| History.History.SearchMatches | lib/history.ml:138-165 | The loop returns the first `limit` of the distinct matches, newest first. |
| History.DistinctMatchesSpec | lib/history.ml:138-165 | The distinct matches are exactly the entries that contain the needle, ignoring case, none twice. |
| History.SearchIgnoresCase | lib/history.ml:138-165 | An entry is found exactly when it is in the history and reads like the needle somewhere but for the case of ASCII letters. |
| RawString.SafeGuardIsShortest | lib/shell_mode.ml:6-16 | The guard search ends with the fewest dashes behind which the end mark does not occur in the text. |
| RawString.ReadRawString | lib/r_lexer.ml:179-201 | The reader stops behind the first occurrence of the end mark, or at the end of the line with the mode to go on in. |
| RawString.ReadRawStringStart | lib/r_lexer.ml:203-219 | The delimiter reaches to the first bracket, and the end mark is made of both. |
| RawString.StopsAtEndMarkIff | lib/r_lexer.ml:179-193 | The reader stops exactly behind the end mark that follows a text if and only if the text does not hold it: no occurrence straddles the boundary. |
| RawString.LiteralReadsBackIff | lib/r_lexer.ml:203-219 | A text between any number of dashes reads back as one token, with what follows left over, exactly when its end mark does not occur in it. |
| RawString.QuoteReadsBack | lib/shell_mode.ml:6-28 | Every command reads back from its raw string, whatever follows, and no shorter guard would do. |
| RawString.AnyLiteralReadsBackIff | lib/r_lexer.ml:173-219 | With any delimiter and any of the three brackets, a raw string reads back as one token up to its end mark exactly when that does not occur any earlier. |
| OpenLines.TokensHold | lib/r_lexer.ml:332-347 | In every mode within a string, the tokens of a line hold what the line above left over and the bytes read, less what is left over for the next line. |
| OpenLines.QuotedLine | lib/r_lexer.ml:129-155 | A line in a quoted string is read up to a quote exactly when that is the first one not behind an odd number of backslashes. |
| OpenLines.OpenLine | lib/r_lexer.ml:332-347 | A string that stays open takes the whole line, and leaves nothing over but a single quote with nothing to read. |
| OpenLines.FirstLineTilesIff | lib/r_lexer.ml:129-219 | The tokens of the line on which a string begins hold just its bytes exactly when it is neither a single quote at the end of the line nor a raw string without its bracket; only the quote is put off. |
| OpenLines.LinesTileIff | lib/r_lexer.ml:129-219 | So do the tokens of all its lines, under the same condition on the first. |
| OpenLines.UnfinishedDelimiter | lib/r_lexer.ml:203-219 | Without its bracket the line is in two tokens, both with all of it, and no end mark is handed on. |
| OpenLines.QuoteIsPutOff | lib/r_lexer.ml:143-155 | A single quote at the end of its line has no token there. |
| OpenLines.PrefixComesTwice | lib/r_lexer.ml:203-219 | A raw string prefix at the end of its line has two. |
| RawLines.OpenStringGoesOn | lib/r_lexer.ml:194-199 | A line without the end mark is taken whole, in one token, and the next line goes on under the same mark. |
| RawLines.ReadLinesIsRead | lib/r_lexer.ml:179-201 | Under an end mark without a line end, reading line by line closes where reading the joined lines does, with the same text, and not at all when that does not. |
| RawLines.LinesReadAsOneIff | lib/r_lexer.ml:179-219 | A raw string over any number of lines, read in the modes handed on, closes at the same place and with the same text as read from the joined lines exactly when its first line holds the bracket. |
| RawLines.UnfinishedDelimiterEndsAtOnce | lib/r_lexer.ml:203-219 | After a line that ends before the bracket, and comes out twice, empty lines are passed over and the first character of the next line is the rest of the string. |

## Left out

- R, the shared objects it is loaded from, forking, signals, crash logging and the sandbox, with the sandboxed `run_r`: foreign code. The worker may write any frames while it runs.
- Thread primitives and the scheduling of fibers: a step of `Protocol.System` is what one side does under a lock or without giving way. The wait for a response does not give way between a pop and what follows it.
- Questions and message boxes of a profile script while R starts: `Protocol.System` begins with a silent startup, whose captured output comes with the answer. What is proved of questions is not said of these; no command can be started before `init` returns, so what is proved of commands is untouched.
- Messages from R's event handlers while the worker is idle (`process_events`): taken to be silent. Output without end could evict a DONE that nobody reads.
- Shutdown, and the timeouts of waiting.
- `size_t` and 64-bit counters wrap around in C and not here; payloads are shorter than 2^32 bytes, as the length field of a header demands.
- The order of the bytes of a length in a header: least significant first, as on the machines that raoui is built for.
- How payloads are decoded into responses (`map_kind`, `parse_image_payload`): a `Message` keeps kind and payload.
- `main`'s own loop during a passthrough: it is one action, `AnswersPassthrough`.
- How bytes fall into grapheme clusters and how wide these are (`of_string`): given from outside; clusters that come to stand side by side do not merge.
- FlatEditor.PasteSpells: takes it as given that segmenting a text keeps its bytes.
- UnicodeString.Delete: takes it as given, for a cluster that is not one ASCII byte of width one, that segmenting the remaining bytes finds the remaining clusters.
- WorkerSlots.RequestSlots.TakeWork: leaves out the turns for sandboxed code, after which a completion request does survive.
- The lexer of R: any lexer with modes for the cache; for highlighting expressions within glue strings, one that makes no empty lexemes and no more bytes than it is given, where no bare double quote is in what it is given. The tokens of the highlighted line itself may be any without empty lexemes, as a line may carry bytes of an earlier one.
- RHighlight.RangesPaint: assumes that of the lexer (`WellBehaved`), since the tokens of the real one may leave out a lone quote at the end of an expression. It is not assumed for a bare double quote, where a raw string may begin whose prefix comes twice (`PrefixComesTwice`): expressions within a double-quoted token hold none, as the token would end there. That double-quoted tokens of glue calls end at their first bare quote is assumed for the same reason (`Tidy`).
- Names in backticks that a line leaves open: they are read as strings in single quotes are.
- The plain highlighter `tokens_to_spans`, an older sibling of the ranges.
- Completion menus, word-wise cursor movement, the clamping of the prompt's rows, continuation heuristics: easier cousins of what is here.
- The walk over Markdown blocks and inlines, code blocks, alignment and assembly of table rows.
- History.History.Add: does not store the command in the database; nor do entries that are not valid text appear, for which the source raises an exception.
- SearchPager: rows are not cut to the width of the terminal, and the mode of a match is not kept.
- RawString: the reader looks for the end mark after every byte instead of after every code point, which makes no difference for a mark of ASCII characters.
- Storage, the HTTP server, the AI assistant, images, themes and terminal input.
