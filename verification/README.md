# Verified models of the stateful cores of an agent terminal multiplexer

This project models the parts of the terminal multiplexer where a small mistake shows up only after a long
run, and proves what holds over every run.

* **Raw input** (`bytes`, `utf8`, `input_*`, `framer_*`, `raw_input_byte_framer`). The host
  terminal sends one byte stream; the framer cuts it into keys, control sequences, mouse reports, pastes and
  replies, while bytes arrive in arbitrary portions and idle timeouts strike in between. `InputFramer` gives the
  transition functions, `RawInput.RawInputByteFramer` is the object with its fields and loops, proved equal to
  them. `framer_scheduling` says when the portions matter, `framer_accounting` where each byte goes and how
  long it can be held, `framer_discards` how much of the input a host reply can swallow, `framer_delivery` what
  arrives whatever the timing, `framer_units` where a unit ends and how a chunk reads a second time,
  `input_events` which event each report is read as, `framer_timeouts` what a timeout gives out and what becomes of
  a sequence that it cuts, `framer_replies` how replies that are due hold an ESC back, and `framer_examples` runs
  at whose end a cut shows.
* **Host graphics** (`geometry`, `kitty_*`, `host_graphics_cache`). Three maps describe what images and
  placements the outer terminal holds. Commands are a datatype, the terminal is an interpreter for them, and the
  maps are proved to mirror it; a change of view is proved to restore whatever was painted over.
* **Tiling layout** (`layout_*`, `tile_layout`). A tree of splits with ratios, the rectangles it lays out,
  navigation by direction, what resizing moves on the screen, and every run of operations.
* **Agent detection** (`agent_detection`, `agent_detection_runs`, `agent_publishing`, `detection_task`). The loop that decides which
  agent runs in a pane, in its two variants: the plain one (`spawn_basic_detection_task`) and the one behind
  spawned panes, which differ in how a reset, a grace period, a restored session and a skipped screen update are
  treated.
* **Smaller stores**: metadata tokens with deadlines, the bounded event log, the path component of a plugin id.

## What the proofs found

Where a property that one would expect of the code does not hold for all inputs, the model keeps the code as it
is and the exact condition is proved; where a failing input is not plain from the condition, a lemma shows one.

* *Cutting input into pushes* is invisible if and only if neither of two things happens at the cut
  (`FramerScheduling.SplitInvariance`): the mouse-tail mode runs past its 128 bytes inside the first push and so
  drops all that is buffered, or, after a lone ESC was flushed, the first push makes the framer give up an
  orphaned mouse tail that the second one completes (`[<+` and `0;1;1M`: a sign is not a digit for the test of an
  unfinished tail, but is one for the parser of a finished tail). `FramerExamples` gives a run for each.
* *A chunk read a second time* loses its event if and only if it is two or more ESC bytes and nothing else
  (`FramerUnits.ChunkReadsAgain`). Splitting doubled escapes rules that out; the legacy policy does not
  (`FramerUnits.LegacyLosesEvent`).
* *A colliding image id without data* is the only way for the graphics cache to lose track of the host: the image
  is deleted there but stays in the cache (`KittyMirror.PlaceMirrors`, `KittyLosses.CollisionIsLost`).
* *Leaving out image data* because the image is cached is harmless while a source keeps the image. The update is
  exact if no visible placement without data finds its image given up in front of it, and with distinct placement
  ids only if, a condition on cache and frame alone (`KittyExactness.UpdateIsExact`, `KittySources.Loses`,
  `KittyLosses.SharedImageIsLost`). Painting the same frame once more brings what was lost back
  (`KittyExactness.SecondUpdateRecovers`).
* *The clip* covers exactly the common cells if and only if the negated position does not saturate with effect,
  and one cell more otherwise (`KittyClip.ClipIsIntersection`, `KittyClip.SaturationShowsOneMore`). Source pixels
  stay in the part asked for if and only if the offset does not wrap around and either the image ends with the
  part or the excess of crop and visible part is rounded away (`KittyClip.SourceLiesInside`): no excess always
  stays, and one of two source pixels never does (`KittyClip.ShortCropStaysInside`, `KittyClip.LongCropLeavesPart`).
* *A process exit* is always reported by the plain loop; the spawned loop reports it if and only if the screen
  update of that tick is not skipped, and may never report it (`AgentDetectionRuns.ShellTakesOver`,
  `AgentDetectionRuns.ExitIsSwallowed`).
* *A plugin id that is cut* shares its component with an id that needs no cut if and only if the cut does not fall
  inside an escape (`PluginPaths.CutNameIsShared`), although the repository's own test calls the names free of
  collisions.
* *Closing the focused pane* leaves the placeholder root behind if and only if several panes are there and all have
  one id, which only a saved tree can bring about (`LayoutRuns.PlaceholderRemains`).
* *An event reader* misses events if and only if more than 512 are pushed between two of its polls
  (`EventHub.ReadsExactlyOnce`).

## Model

| member | source | states |
|---|---|---|
| Bytes.FindSubStable | src/raw_input.rs:1163-1167 | the first occurrence of a needle stays the first when bytes are appended |
| Utf8.FirstCharLenIsHead | src/raw_input.rs:937-967 | taking the width announced by the lead byte and validating that many bytes finds a character exactly when the UTF-8 validator (section 4 of RFC 3629) reads one at the front, and of the same length |
| Utf8.EncodeIsChar | src/raw_input.rs:937-953 | every Unicode scalar value, encoded as section 3 of RFC 3629 says, is one character for the validator, and is read back |
| Utf8.CharIsEncoded | src/raw_input.rs:937-953 | and nothing else is: every character the validator takes is the encoding of a scalar value in its shortest form, and no surrogate |
| InputSequences.TerminatorStable | src/raw_input.rs:1120-1152 | the end found for a control string, of any family, stays the end when bytes are appended, also with BEL and ST competing |
| InputSequences.EscapeLenStable | src/raw_input.rs:969-1014 | a complete escape sequence keeps its length when bytes are appended, through nested doubled escapes and the mouse exception |
| InputSequences.PasteEndAfterStart | src/raw_input.rs:776-783 | the end marker found in a paste never overlaps its start marker, so slicing out the text cannot fail |
| InputSequences.PartialPasteStartIsHeld | src/raw_input.rs:776-787 | no proper prefix of the paste start marker is taken for another event |
| InputSequences.ExtractStable | src/raw_input.rs:771-842 | an event found at the front of the buffer is found again, the same and as long, whatever is appended |
| InputSequences.OrphanDecisionStable | src/raw_input.rs:1023-1054 | a buffer that stopped looking like an unfinished mouse tail never looks like one again, and a complete tail stays the same |
| InputEvents.CellSizeIsRead | src/raw_input.rs:811-886 | round trip: `CSI 6 ; height ; width t`, written in decimal, is extracted as that width and that height, whatever follows it |
| InputEvents.CellSizeParses | src/raw_input.rs:873-886 | a written report is taken for one exactly when both extents are positive and fit 32 bits |
| InputEvents.MouseIsRead | src/raw_input.rs:1169-1234 | round trip: a mouse report written from kind, button, column, row and modifiers is extracted as exactly these |
| InputEvents.KnownCodes | src/raw_input.rs:1203-1220 | a report carries one of sixteen button numbers, under any modifiers |
| InputEvents.ReportsAreChecked | src/raw_input.rs:1169-1201 | three numbers are a mouse report exactly if the first is such a code and the others are positions counted from one, in 16 bits |
| InputEvents.FocusIsRead | src/raw_input.rs:801-805 | the two focus sequences, each as its own event |
| InputEvents.SchemeIsRead | src/raw_input.rs:863-869 | the dark and the light report, each as its own event |
| InputEvents.ColorIsRead | src/raw_input.rs:789-799 | any sequence that the colour parsers take is a colour reply, before anything else |
| InputEvents.KeyIsRead | src/raw_input.rs:825-833 | any sequence that is no report is a key if the key parser takes it, and unsupported otherwise |
| InputEvents.PasteIsRead | src/raw_input.rs:776-783 | a bracketed paste is extracted as its text |
| InputFramer.StepDecreases | src/raw_input.rs:459-535 | each further pass of the drain loop shortens the buffer, or keeps its length and leaves a discard mode: the loop ends |
| FramerScheduling.RunKeepsValid | src/raw_input.rs:229-535 | over every run of pushes, timeouts and query notices: waiting for an orphaned tail and discarding exclude each other, and a discard mode never counts past its 128 bytes |
| FramerScheduling.DrainConserves | src/raw_input.rs:459-535 | from a state that skips nothing, draining ends in such a state, and chunks followed by the buffer are exactly the bytes there were |
| FramerScheduling.DrainReachesRest | src/raw_input.rs:459-535 | after draining, a further pass would stop at once and change nothing |
| FramerScheduling.ScanTailSplit | src/raw_input.rs:1069-1118 | scanning a discarded tail can be interrupted at any byte and resumed with the rest of the budget |
| FramerScheduling.SplitInvariance | src/raw_input.rs:243-246 | for every valid state and both escape policies, push(a) then push(b) gives the chunks and the final state of push(a + b) if and only if the boundary does not show: no overflow of the mouse-tail mode in the first push with b not empty, and no orphaned tail given up by the first push and completed by the second |
| FramerScheduling.ScheduleIndependence | src/raw_input.rs:243-246 | from any state that skips nothing, every way of cutting the input into pushes gives the chunks and the state of one push |
| FramerExamples.OrphanBoundaryExample | src/raw_input.rs:1023-1054 | after ESC and one timeout, under either policy, `[<+` then `0;1;1M` differs from one push of both: a run that reaches the state, and the two outcomes |
| FramerExamples.MouseTailBoundaryExample | src/raw_input.rs:1110-1114 | after the mouse introducer and one timeout, any 126 digits in one push overflow the mode, and the byte behind them is lost or delivered depending on the cut |
| FramerAccounting.DrainAccounts | src/raw_input.rs:459-535 | from every state, discarding or not, chunks and buffer are an order-preserving subsequence of the buffer there was |
| FramerAccounting.RunAccounts | src/raw_input.rs:290-535 | over every run, output followed by the buffer is an order-preserving subsequence of the pushed bytes |
| FramerAccounting.RunConserves | src/raw_input.rs:459-535 | when no timeout occurs, output followed by the buffer equals the pushed bytes |
| FramerDiscards.SkippingStarts | src/raw_input.rs:377-401 | a timeout that enters the host-reply mode leaves nothing held and starts counting from zero |
| FramerDiscards.HostReplyLoss | src/raw_input.rs:1069-1090 | over any run of pushes, timeouts and query notices the host-reply mode swallows at most 128 parameter bytes and one final byte: once the tail has ended, the run is that of a framer outside the mode without these bytes; until then nothing is emitted |
| FramerDiscards.LongTailIsCutOff | src/raw_input.rs:1069-1090 | a tail without an end is cut off behind exactly 128 parameter bytes |
| FramerAccounting.TimeoutAtRest | src/raw_input.rs:290-457 | what one timeout does to a drained buffer, case by case: it waits without limit, holds once, or empties it |
| FramerAccounting.Settling | src/raw_input.rs:290-457 | from every valid state not discarding, two timeouts in a row leave the buffer empty, unless it holds an unfinished paste, OSC 10/11 reply or UTF-8 character (also behind ESC), and then every further timeout changes nothing |
| FramerAccounting.LoneEscapeDelay | src/raw_input.rs:416-433 | a lone ESC comes out at the next timeout, or at the one after it exactly when a reply is due and it was not held yet |
| FramerTimeouts.TimeoutGivesOut | src/raw_input.rs:319-457 | what a timeout gives out of a drained buffer: all of it, exactly if it is a lone ESC not held or a key and is not set aside (waiting, held, or the start of a mouse report, an orphaned tail, a control string or a reply); nothing otherwise |
| FramerTimeouts.UnfinishedColorReplies | src/raw_input.rs:888-895 | waited for without limit: `ESC ] 10 ;` and `ESC ] 11 ;` without either terminator |
| FramerTimeouts.UnfinishedCellSizes | src/raw_input.rs:904-922 | skipped while due: `CSI 6` and up to two numbers behind semicolons, the first of them written by the time that the second begins |
| FramerTimeouts.FlushGivesOut | src/raw_input.rs:290-457 | the same of the whole timeout, behind what drains by itself |
| FramerTimeouts.JunkIsDropped | src/raw_input.rs:319-457 | what is neither given out nor set aside is dropped, and with it the wait for an orphaned tail |
| FramerTimeouts.SwallowsThrough | src/raw_input.rs:1069-1090 | which bytes the tail of a reply is made of: 0x20 to 0x3f, and a final byte from 0x40 to 0x7e that goes with it; any other byte stays |
| FramerTimeouts.PlausibleTails | src/raw_input.rs:540-566 | which pieces of a control string keep the mode going: the bytes of a colour reply for an operating system command, and an ESC at the end for the others |
| FramerTimeouts.AltBracketIsDelivered | src/raw_input.rs:435-440 | `ESC [` pushed to a new framer comes out at the first timeout if it is a key |
| FramerTimeouts.CutStringIsSwallowed | src/raw_input.rs:403-414 | a control string that a timeout cuts is swallowed with its rest up to the terminator |
| FramerTimeouts.ControlTailLoss | src/raw_input.rs:496-505 | a control-string mode swallows everything up to the terminator and nothing behind it |
| FramerTimeouts.TailOutlastsTimeout | src/raw_input.rs:304-316 | the mode outlasts a timeout while the piece is plausible and short, even when the timeout strikes inside the terminator |
| FramerTimeouts.ImplausibleTailEnds | src/raw_input.rs:304-316 | any other timeout ends the mode with what is held |
| FramerTimeouts.CutMouseIsSwallowed | src/raw_input.rs:337-347 | a mouse report that a timeout cuts behind its introducer is swallowed with its rest |
| FramerTimeouts.MouseModeRunsOut | src/raw_input.rs:1092-1118 | the mode takes 128 bytes, with those held at the timeout, and then ends with all that is buffered |
| FramerTimeouts.LongMouseIsDropped | src/raw_input.rs:337-347 | a longer piece of a report is dropped and leaves no mode behind |
| FramerTimeouts.OrphanIsSwallowed | src/raw_input.rs:1034-1054 | the rest of any mouse report whose ESC was flushed alone is dropped, and nothing else |
| FramerTimeouts.WholeOrphan | src/raw_input.rs:1034-1054 | a whole report whose ESC was flushed alone is dropped if it has at most 32 bytes; of a longer one nothing is lost |
| FramerTimeouts.CutSchemeIsSwallowed | src/raw_input.rs:392-401 | a colour scheme report cut by a timeout anywhere behind `CSI ?` is swallowed with its rest |
| FramerTimeouts.CutCellSizeIsSwallowed | src/raw_input.rs:377-390 | a cell size report that is due and cut anywhere behind its first parameter byte is swallowed with its rest, and no longer waited for |
| FramerReplies.ColorRepliesCount | src/raw_input.rs:516-520 | each colour reply closes one of the places that a query opened, down to none |
| FramerReplies.QueryWindow | src/raw_input.rs:250-265 | behind a colour query a lone ESC is held until 258 replies have come |
| FramerReplies.SchemeReportOpensWindow | src/raw_input.rs:524-528 | a report of a changed scheme opens the places anew exactly when such changes are tracked |
| FramerReplies.TrackingIsAsked | src/raw_input.rs:267-269 | a new framer does not track such changes until it is asked to |
| FramerReplies.QueriesRenewHold | src/raw_input.rs:250-265 | a query of either kind holds a lone ESC once more, also one that was held before |
| FramerReplies.CellSizeReplyCounts | src/raw_input.rs:521-523 | one report answers a cell size query |
| FramerReplies.AnswerEndsHold | src/raw_input.rs:416-433 | a lone ESC is held in front of the answer to a cell size query and comes out at once behind it |
| FramerReplies.KeysDoNotCount | src/raw_input.rs:516-529 | what is no reply moves no counter |
| FramerReplies.EscapeEndsWaiting | src/raw_input.rs:422-432 | a lone ESC given out ends all waiting for replies |
| FramerReplies.DoubledEscapeSplits | src/raw_input.rs:507-511 | when doubled escapes are split, ESC in front of any sequence is one chunk and the sequence another |
| FramerReplies.DoubledEscapeKept | src/raw_input.rs:974-985 | when they are kept, both are one chunk, unless the sequence is a mouse report |
| FramerReplies.ColorReplyAtomicity | src/raw_input.rs:359-365 | behind its first five bytes a reply to a colour query comes out as one chunk under every schedule of pushes and timeouts |
| FramerReplies.OrphanIsHeldUpTo32 | src/raw_input.rs:1023-1032 | what may be the rest of a mouse report behind a flushed ESC is held up to 32 bytes |
| FramerDelivery.QuietRunIsPush | src/raw_input.rs:243-457 | if no timeout finds anything to do at any prefix of the input, a run with timeouts equals a single push |
| FramerDelivery.PasteEndIsFirst | src/raw_input.rs:776-782 | in start marker, text and end marker the first end marker is the last six bytes, for every text without one |
| FramerDelivery.PasteAtomicity | src/raw_input.rs:349-357 | with nothing buffered and nothing discarded: the start marker is held, and every schedule of pushes and timeouts over UTF-8 text and end marker emits exactly one chunk, the whole paste, and restores the state |
| FramerDelivery.TextDelivery | src/raw_input.rs:836-841 | every schedule of pushes and timeouts over characters that the key parser accepts emits exactly these, one per chunk |
| FramerUnits.UnitsAreCut | src/raw_input.rs:459-535 | a stream of units is delivered as exactly these units |
| FramerUnits.UnitsUnderSchedules | src/raw_input.rs:459-535 | the same for every way of cutting the stream into pushes |
| FramerUnits.ControlSequenceIsUnit | src/raw_input.rs:987-995 | every control sequence of section 5.4 of ECMA-48, other than mouse introducer and paste marker, is a unit |
| FramerUnits.MouseReportIsUnit | src/raw_input.rs:988-990 | the mouse introducer, digits and semicolons, and `M` or `m` are a unit |
| FramerUnits.BellStringIsUnit | src/raw_input.rs:1120-1133 | an operating system command ended by BEL is a unit for every body that is UTF-8 and holds neither ESC nor BEL |
| FramerUnits.StringIsUnit | src/raw_input.rs:997-1002 | a control string of any kind, ended by the string terminator, is read whole |
| FramerUnits.FunctionKeyIsUnit | src/raw_input.rs:1004-1006 | ESC, `O` and one byte are read whole |
| FramerUnits.AltCharacterIsUnit | src/raw_input.rs:1008-1013 | ESC and any character of UTF-8 that opens nothing longer are read whole |
| FramerUnits.PasteIsUnit | src/raw_input.rs:776-783 | a paste is a unit if and only if its text is valid UTF-8 |
| FramerUnits.EscapeLenOfPrefix | src/raw_input.rs:969-1014 | the length found in the stream is found again in the chunk cut off, unless the chunk is ESC bytes alone, and then none is found |
| FramerUnits.ChunkExtractsAgain | src/raw_input.rs:771-842 | the extractor finds a chunk cut off the stream again, event and length, if and only if the chunk is not ESC bytes alone |
| FramerUnits.ChunkReadsAgain | src/raw_input.rs:192-208 | the second reading, in which a bare ESC is the Esc key, loses the event of a chunk if and only if the chunk is two or more ESC bytes and nothing else; otherwise it gives the event the chunk was cut off for |
| FramerUnits.DrainReadsAgain | src/raw_input.rs:163-208 | of all chunks drained from any state the second reading loses exactly those of two or more ESC bytes alone; when doubled escapes are split it loses none |
| FramerUnits.LegacyLosesEvent | src/raw_input.rs:974-985 | `ESC ESC ESC [<0;1;1M` pushed to a new framer that keeps doubled escapes: the first chunk is `ESC ESC`, and it is lost |
| RawInput.RawInputByteFramer.ForHostInput | src/raw_input.rs:229-241 | a new framer is in the start state of its policy |
| RawInput.RawInputByteFramer.Push | src/raw_input.rs:243-246 | state and chunks are those of the push function |
| RawInput.RawInputByteFramer.DrainAvailableChunks | src/raw_input.rs:459-535 | the loop, ended by its measure, computes the drain function |
| RawInput.RawInputByteFramer.DrainOnce | src/raw_input.rs:462-531 | one pass is one step of the drain |
| RawInput.RawInputByteFramer.FlushTimeout | src/raw_input.rs:290-457 | state and chunks are those of the timeout function |
| RawInput.RawInputByteFramer.ExpireTimeout | src/raw_input.rs:293-456 | the branches behind the drain |
| RawInput.RawInputByteFramer.ExpirePending | src/raw_input.rs:377-456 | replies, control strings, lone ESC, keys and unfinished characters at a timeout |
| RawInput.RawInputByteFramer.TimeoutDiscarding | src/raw_input.rs:293-317 | a timeout in a discard mode keeps skipping only while the tail is plausible and within 128 bytes |
| RawInput.RawInputByteFramer.DiscardHostReplyCsiTail | src/raw_input.rs:1069-1090 | the in-place scan leaves the buffer, count and verdict of the scan function |
| RawInput.RawInputByteFramer.DiscardOrphanedSgrMouseTail | src/raw_input.rs:1092-1118 | the same for the mouse tail, which drops the whole buffer past its limit |
| RawInput.RawInputByteFramer.NoteEvent | src/raw_input.rs:516-529 | how an event moves the reply counters |
| RawInput.RawInputByteFramer.HostColorQuerySent | src/raw_input.rs:250-253 | the counter is set and the hold released |
| KittyClip.ClipIsIntersection | src/kitty_graphics.rs:804-848 | an axis of the clip covers exactly the cells that placement and pane share, if and only if the position is not the smallest one with a grid that ends in the pane or at its edge |
| KittyClip.SaturationShowsOneMore | src/kitty_graphics.rs:804-838 | when the negated position saturates with effect, the axis shows the common cells and exactly one more behind them |
| KittyClip.ClipVanishes | src/kitty_graphics.rs:785-900 | an axis is clipped away exactly when it shows no cell or the crop starts behind the image |
| KittyClip.ClipLiesInside | src/kitty_graphics.rs:831-889 | the clip is not empty, lies in the pane, and takes its pixels from the image |
| KittyClip.ScaledPartsFit | src/kitty_graphics.rs:882-930 | a crop and a visible part of one stretched extent scale to disjoint parts of the source, the visible one rounded up to a pixel, if and only if their excess over the extent is no more than what rounding takes off |
| KittyClip.SourceLiesInside | src/kitty_graphics.rs:850-889 | the pixels shown lie in the part of the image asked for if and only if the offset does not wrap around and either the part reaches the end of the image or crop and visible part fit |
| KittyClip.ClipIsProportional | src/kitty_graphics.rs:850-889 | without saturation the first pixel shown is the one under the edge of the pane and as many are shown as the visible cells cover, both to within one source pixel, at least one and none behind the image |
| KittyClip.ShortCropStaysInside | src/kitty_graphics.rs:877-889 | without wrap-around, a crop and a visible part that are together no longer than the extent keep the pixels in the part asked for |
| KittyClip.LongCropLeavesPart | src/kitty_graphics.rs:877-889 | an excess of two source pixels or more leaves it, unless the image ends with the part |
| KittyClip.UnsaturatedLiesInside | src/kitty_graphics.rs:850-889 | when no product saturates they always do, including the forced minimum of one pixel |
| KittyClip.UnclippedShowsAll | src/kitty_graphics.rs:831-889 | a placement wholly in the pane and not drawn larger than its grid shows its whole source part |
| KittyClip.SaturationExample | src/kitty_graphics.rs:856-889 | a concrete axis whose products saturate and whose pixel lies behind the part asked for |
| KittyGraphics.ClippedPlacementLiesInside | src/kitty_graphics.rs:784-926 | both axes: cells in the pane area, source rectangle in the image, and in the placement's own source rectangle exactly under the condition of each axis, so whenever nothing saturates |
| KittyGraphics.OffsetsWithinFirstCell | src/kitty_graphics.rs:913-922 | the pixel offset in the first cell counts exactly while that cell is not cut off |
| KittyGraphics.ColumnsAreStretched | src/kitty_graphics.rs:784-926 | the same proportion of a whole placement from left to right, in its own columns, cell width and pixel width |
| KittyGraphics.RowsAreStretched | src/kitty_graphics.rs:784-926 | and from top to bottom, in its rows, cell height and pixel height |
| KittyGraphics.ClippedPlacementCoversCells | src/kitty_graphics.rs:784-926 | a screen cell shows the placement exactly when it lies in the pane and in the placement's grid, or in the one column or row more that a saturated negation adds |
| KittyMirror.PlaceMirrors | src/kitty_graphics.rs:344-415 | one round of the placement loop keeps cache and host in step if and only if it is not a collision without data, and keeps every source and placement pointing to a cached image |
| KittyMirror.ReleaseMirrors | src/kitty_graphics.rs:433-459 | releasing a superseded image keeps the mirror and the image just provided |
| KittyMirror.UpdateMirrors | src/kitty_graphics.rs:295-429 | replaying an update's commands on a mirrored host gives a host that the new cache mirrors |
| KittyMirror.ClearEmptiesHost | src/kitty_graphics.rs:494-504 | deleting the cached images is enough to empty the host |
| KittyMirror.RunMirrors | src/kitty_graphics.rs:295-513 | over every run of frames and clears, replaying all commands leaves on the host exactly the images and placements that the cache lists |
| KittyMirror.ClearAfterRun | src/kitty_graphics.rs:494-504 | from an empty host, any run followed by a clear leaves it empty |
| KittyKeys.UpdateKeyed | src/kitty_graphics.rs:355-378 | with distinct image ids no update meets a collision, and each cached image stays under the id of its signature |
| KittySources.MissingStep | src/kitty_graphics.rs:433-459 | which images are missing one round later: the image just placed is not, the one its source had before is exactly when no other source is backed by it, every other image is as it was |
| KittySources.ReferencedImages | src/kitty_graphics.rs:305-320 | the images that sources refer to in front of a round: those drawn before it, and those of sources not placed yet |
| KittySources.StayingImageIsNotLost | src/kitty_graphics.rs:573-578 | data may be left out for a cached image that backs any source of the frame which shows nothing else before, the placement's own or another |
| KittyExactness.UpdateCatchesUp | src/kitty_graphics.rs:295-429 | if nothing is lost, the cache after an update lists exactly the visible placements; its sources and images are those that the frame and the cache before it determine |
| KittyExactness.UpdateIsExact | src/kitty_graphics.rs:305-429 | after an update the host shows exactly the clipped visible placements of the frame, over images with their signatures, if and, with distinct placement ids, only if no visible placement without data finds its image given up: not drawn before it, and not cached, or left by a source it was backing while none stays |
| KittyExactness.LostIsNotShown | src/kitty_graphics.rs:366-376 | the first such placement is visible and yet not among the placements after the update |
| KittyExactness.SecondUpdateRecovers | src/kitty_graphics.rs:573-578 | whatever an update has lost, a second one with the same frame, its data left out only for images then cached, loses nothing and is exact |
| KittyExactness.UnbackedImagesStay | src/kitty_graphics.rs:305-328 | which images stay although no source is backed by them: exactly the cached ones that nothing in the frame draws and that only backed terminal sources gone from the frame |
| KittyExactness.RunShowsLastFrame | src/kitty_graphics.rs:216-233 | after any run of honest frames and clears from a fresh cache, one more frame leaves on the host exactly what that frame wants, under the same exact condition |
| KittyViews.ViewChangeRedisplays | src/kitty_graphics.rs:390-415 | when the view has changed and nothing is lost, an update brings a host with the cached images, whatever it still shows of the cached placements, to show exactly the frame |
| KittyViews.OtherViewRedisplays | src/kitty_graphics.rs:206-233 | the same after any run from a fresh cache, for a frame of another view |
| KittyViews.ChangedPlacementIsDisplayed | src/kitty_graphics.rs:393-415 | without a change of view a placement is displayed again when anything about it has changed, though it be only the scrollback offset |
| KittyViews.ScrollingDisplays | src/kitty_graphics.rs:390-415 | a placement that was scrolled is displayed again, even where it covers the same cells |
| KittyViews.IdentitiesGiveKeys | src/kitty_graphics.rs:707-719 | pane, image, placement number and kind of source tell placements apart, unless the hash itself collides |
| KittyViews.ScrolledOutImageStays | src/kitty_graphics.rs:305-320 | a terminal image that is out of sight stays cached while its placement is part of the frame |
| KittyViews.RetiredLayerIsDeleted | src/kitty_graphics.rs:313-328 | a pane layer that is gone or out of sight takes its image with it, unless something else of the frame needs it |
| KittyExactness.RepeatedUpdateIsSilent | src/kitty_graphics.rs:393-428 | the same frame again, in the same view and with any data, emits nothing and changes nothing |
| KittyExactness.DistinctRunMirrors | src/kitty_graphics.rs:295-513 | with distinct image ids every run of honest frames and clears keeps the mirror |
| KittyLosses.SharedImageIsLost | src/kitty_graphics.rs:431-459 | a source moves to another image and a second source asks, without data, for the image it left: that placement is lost |
| KittyLosses.SharedImageExample | src/kitty_graphics.rs:573-578 | concrete honest frames of that kind |
| KittyLosses.CollisionIsLost | src/kitty_graphics.rs:357-371 | with colliding ids, an image shown again without data after another has taken its id over: the host loses the image and the cache keeps listing it |
| KittyLosses.CollisionExample | src/kitty_graphics.rs:357-371 | concrete honest frames of that kind |
| HostGraphics.HostGraphicsCache.UpdateView | src/kitty_graphics.rs:506-512 | the view is stored, and a change of it is reported exactly |
| HostGraphics.HostGraphicsCache.Paint | src/kitty_graphics.rs:216-233 | a painted frame is one step of the run, for the iteration orders met |
| HostGraphics.HostGraphicsCache.EncodeGraphicsUpdate | src/kitty_graphics.rs:295-429 | maps and commands are those of the update function |
| HostGraphics.HostGraphicsCache.DeleteRetiredImages | src/kitty_graphics.rs:305-328 | sources are pruned, and images of retired pane layers are deleted unless still used |
| HostGraphics.HostGraphicsCache.PlaceOne | src/kitty_graphics.rs:344-415 | one round of the placement loop in place |
| HostGraphics.HostGraphicsCache.ReleaseSupersededSourceImage | src/kitty_graphics.rs:433-459 | maps, seen keys and commands after recording the image of a source |
| HostGraphics.HostGraphicsCache.DeleteStalePlacements | src/kitty_graphics.rs:418-428 | exactly the placements not seen in the frame are deleted, each once |
| HostGraphics.HostGraphicsCache.ClearBytes | src/kitty_graphics.rs:494-504 | one delete per cached image, and a cache as new |
| LayoutTree.PanesTile | src/layout.rs:413-437 | every cell of the area lies in exactly one pane and no cell outside it in any |
| LayoutTree.PanesInOrder | src/layout.rs:413-437 | the panes come in the order of the ids, and exactly the focused one is marked |
| LayoutTree.SplitRectDivides | src/layout.rs:621-640 | the two parts of a split lie in its area, and every cell of it is in exactly one of them, after rounding half away from zero |
| LayoutSizes.SplitRectShares | src/layout.rs:621-640 | the first part has the share that the ratio asks for, to the nearest cell, and the second the rest |
| LayoutTree.SplitDividesTarget | src/layout.rs:520-547 | splitting replaces the target's rectangle by its two halves and moves no other |
| LayoutTree.SplitAtIds | src/layout.rs:520-547 | the new id comes directly behind the target in the order of ids |
| LayoutTree.RemovePaneIds | src/layout.rs:557-578 | removing takes exactly the target out of the order, and leaves nothing exactly when nothing else was there |
| LayoutTree.RemoveUndoesSplit | src/layout.rs:520-578 | removing a freshly split pane restores the tree |
| LayoutTree.SwapIsInvolution | src/layout.rs:504-518 | swapping twice restores the tree |
| LayoutTree.SwapKeepsRectangles | src/layout.rs:504-518 | a swap renames panes and moves no rectangle |
| LayoutTree.WithRatioAtChangesOne | src/layout.rs:580-619 | setting a ratio succeeds exactly where one can be read, and changes that one and no other |
| LayoutTree.RatiosTellChange | src/layout.rs:478-502 | the list of ratios changes exactly when the ratio at the path does, and that is when the tree does |
| LayoutTree.SplitPathsResolve | src/layout.rs:439-466 | every listed border carries a path that leads to its split and the ratio found there |
| LayoutNavigation.BestBefore | src/layout.rs:287-335 | of the eligible panes the one found is beaten by none, and beats all before it: ties go to the lower index |
| LayoutNavigation.NavigationFindsNeighbour | src/layout.rs:280-335 | from a non-empty pane of a tiling not touching the border on that side, the pane found shares the edge with positive overlap, and no pane that shares it overlaps more |
| LayoutNavigation.NavigationPrefersCentre | src/layout.rs:324-332 | among neighbours that overlap equally the one whose centre is nearest is found, then the first, in areas whose doubled coordinates fit 16 bits |
| LayoutNavigation.NavigationStopsAtBorder | src/layout.rs:280-335 | when no pane is empty, none is found exactly at the border |
| LayoutNavigation.NearestBefore | src/layout.rs:356-368 | the split found is movable, no movable one is nearer, and the first among the nearest is taken |
| LayoutNavigation.ResizeSplit | src/layout.rs:229-231 | a split is chosen exactly when one is movable on the requested or the opposite side |
| LayoutRuns.RunKeepsWellFormed | src/layout.rs:126-257 | every run of split, insert, close, focus, swap, set-ratio and resize keeps ids distinct, focus among them, every ratio in [0.1, 0.9], and every id below the counter |
| LayoutRuns.RunsTile | src/layout.rs:111-116 | after any run from a new layout the panes tile any area |
| LayoutRuns.CloseKeepsWellFormed | src/layout.rs:165-186 | closing works exactly when more than one pane is left, takes out only the focused pane, and moves the focus |
| LayoutRuns.CloseUndoesSplit | src/layout.rs:126-186 | closing a freshly split pane restores the tree |
| LayoutSizes.FocusMovesOn | src/layout.rs:165-186 | closing moves the focus to the pane behind the closed one, or from the last to the one before it |
| LayoutSizes.SplitGivesShare | src/layout.rs:126-138 | splitting gives the focused pane the share asked for, the new one the rest and the focus; what is not a number stands for one half |
| LayoutSizes.SetRatioTells | src/layout.rs:209-211 | setting a ratio tells whether the path leads to a split, and changes only the ratio there, to the nearest allowed one |
| LayoutSizes.InsertGivesShare | src/layout.rs:142-162 | a pane moved in gets its place behind the target, the share asked for, and the focus |
| LayoutSizes.SwapTellsChange | src/layout.rs:196-206 | a swap reports exactly whether the tree has changed |
| LayoutSizes.ClampIsNearest | src/layout.rs:549-555 | a requested ratio is replaced by the nearest one allowed |
| LayoutRuns.PlaceholderRemains | src/layout.rs:165-186 | in any layout, repeated ids included, the placeholder root is left behind exactly when there are several panes and all have the id of the focus |
| LayoutRuns.ChosenSplitResolves | src/layout.rs:215-236 | the split to resize is a listed one within a cell of the focused pane's edge on the axis, and its path leads to it |
| LayoutRuns.ResizeChangesOneRatio | src/layout.rs:215-239 | a resize moves at most one ratio, the chosen one, by the amount asked for within bounds; all other ratios, the ids and the focus stay |
| LayoutSizes.ResizeAmount | src/layout.rs:215-239 | the ratio moves up by the amount asked for to the right and down, down by it to the left and up, and stops at its bounds |
| LayoutSizes.ResizeMovesBorder | src/layout.rs:215-239 | on the screen only the two parts of the chosen split change: to the right and down the first never gets smaller and the second never larger, to the left and up the other way round |
| LayoutSizes.BorderingSplit | src/layout.rs:439-466 | where a pane does not reach the border of the area, a split runs along its edge |
| LayoutSizes.ResizePicksOwnBorder | src/layout.rs:341-368 | from a pane that is not empty and does not reach the border on that side, a resize takes hold of the split exactly at its edge |
| LayoutSizes.ResizeStaysClose | src/layout.rs:341-368 | in any case the split taken runs at most one cell from the edge of the pane on that side or, if none does, on the opposite side |
| LayoutRuns.ResizePaneReports | src/layout.rs:241-257 | resizing around another pane restores the focus and reports exactly whether the tree changed |
| LayoutRuns.SwapKeepsWellFormed | src/layout.rs:196-206 | a swap permutes the ids |
| Tiling.TileLayout.New | src/layout.rs:92-101 | a new layout has one focused pane and is well formed |
| Tiling.TileLayout.SplitFocusedWithRatio | src/layout.rs:131-138 | root and focus afterwards, in any layout; well-formedness is kept for a fresh id |
| Tiling.TileLayout.InsertPaneNear | src/layout.rs:142-162 | inserts exactly when the target is there and the moved pane is not |
| Tiling.TileLayout.CloseFocusedPane | src/layout.rs:165-186 | in any layout whose focus is one of its panes: closes exactly when another id is there, and then only the focused id goes |
| Tiling.TileLayout.FocusOn | src/layout.rs:188-192 | the focus moves only to a pane of the tree |
| Tiling.TileLayout.Swap | src/layout.rs:196-206 | swaps exactly two different panes of the tree |
| Tiling.TileLayout.SetRatioAt | src/layout.rs:209-211 | sets the clamped ratio, or reports that the path leads nowhere |
| Tiling.TileLayout.Resize | src/layout.rs:215-239 | root and focus after a resize |
| Tiling.TileLayout.ResizeOther | src/layout.rs:241-257 | borrows the focus, gives it back, and reports exactly whether the tree changed |
| Tiling.CollectPanes | src/layout.rs:413-437 | appends the layout of the node |
| Tiling.CollectSplits | src/layout.rs:439-466 | appends the borders of the node with their paths |
| Tiling.CollectIds | src/layout.rs:468-476 | appends the ids of the node in order |
| AgentDetectionRuns.StepHandshake | src/pane.rs:690-921 | the handshake after a whole tick in terms of its probe: which exit is due, whether it is reported, and what flags remain |
| AgentDetectionRuns.RunKeepsSound | src/pane.rs:660-922 | in every reachable state a reported exit is pending to be cleared and belongs to a current agent; in the plain loop a pending exit has been reported between ticks |
| AgentDetectionRuns.ReportedExitEnds | src/pane.rs:305-367 | after a reported exit the next tick with a live pid probes, and the probe ends the reported state: same agent back, another one, or none at once |
| AgentDetectionRuns.ReportedExitWaits | src/pane.rs:708-725 | without a live pid a reported exit waits with its identity and is not reported again |
| AgentDetectionRuns.ShellTakesOver | src/pane.rs:2314-2430 | when the shell has taken the foreground back, the plain loop reports the exit; the spawned loop does so if and only if the screen update is not skipped, and keeps it due otherwise |
| AgentDetectionRuns.ExitIsSwallowed | src/pane.rs:2361-2364 | two ticks of a spawned pane: the exit falls on a skipped update, the next probe finds another agent, and the exit is never reported |
| AgentDetectionRuns.IdentityIsLostOnlyFor | src/pane.rs:928-975 | over every run, a tick without reset that drops the identity comes right after a published exit of that agent, or completes six misses with no positive probe between; a changed identity was found |
| AgentPublishing.SixthMissLoses | src/pane.rs:950-974 | a probe that finds nothing, and not the shell, loses the agent if and only if it is the sixth miss in a row |
| AgentPublishing.TickPublishes | src/pane.rs:830-921 | a screen that is read is published, with its state and the signals tied to it, if and only if it is not still being confirmed and differs from what was shown, or the agent changed, or a blocker is due again; otherwise nothing changes |
| AgentPublishing.ExitIsShown | src/pane.rs:848-921 | an exit that is due is published as idle, or swallowed |
| AgentPublishing.ChangeIsExact | src/pane.rs:769-773 | the agent counts as changed exactly when it is another one, or none, or came back after its reported exit |
| AgentPublishing.ChangeIsAnnounced | src/pane.rs:769-801 | a changed agent is announced as idle and given three seconds |
| AgentPublishing.NewAgentIsAnnounced | src/pane.rs:769-801 | any other agent that a probe finds is announced as idle |
| AgentPublishing.ComebackIsAnnounced | src/pane.rs:346-351 | an agent that comes back after its reported exit is announced once more and keeps its identity |
| AgentPublishing.GraceIsQuiet | src/pane.rs:814-828 | while the three seconds last no screen is read |
| AgentPublishing.GraceEndsWithReading | src/pane.rs:814-843 | after any run: behind its three seconds an agent's screen is read, also when the content has stayed the same since before the agent was found |
| AgentPublishing.TickRemembers | src/pane.rs:213-249 | content read once counts as read, and the time of an event with a blocker or activity is kept |
| AgentPublishing.EventsTellShown | src/pane.rs:660-922 | over every run without a reset the last event tells the state, blocker and activity that are shown |
| AgentPublishing.IdleIsShown | src/pane/agent_detection.rs:39-77 | an agent gone idle is shown as idle at the fourth reading at the latest |
| AgentPublishing.OutputOpensWindow | src/pane.rs:447-487 | new content of an unidentified pane opens the acquisition window, anew only after it has run out in silence |
| AgentPublishing.IdentifiedProbes | src/pane.rs:400-445 | an identified pane is probed when its group changes or after five seconds, not while an agent in charge keeps the foreground |
| AgentPublishing.MissingGroupProbes | src/pane.rs:437-442 | outside the window an unidentified pane without a foreground group is probed when it had one, and every thirty seconds |
| AgentPublishing.ReleaseProbes | src/pane.rs:416-421 | while an agent is being released the process is probed once, and when the foreground group changes |
| AgentPublishing.ReleasedIsNotFound | src/pane.rs:737-743 | the agent that is being released is not found |
| AgentPublishing.ReleaseEndProbes | src/pane.rs:691-697 | when the release of the tick before has run out an unidentified pane is probed at once |
| AgentPublishing.RestoredIsProbed | src/pane.rs:412-415 | an agent restored from a session is looked for at the first tick that has a process |
| AgentPublishing.NewGroupOpensWindow | src/pane.rs:760-768 | a new foreground group in which nothing is found opens the acquisition window |
| AgentPublishing.ProbeIsRemembered | src/pane.rs:727-768 | the time and the foreground group of a probe are what later probes go by, and an agent found closes the window |
| AgentPublishing.InterruptionsStartAnew | src/pane.rs:805-850 | whatever interrupts the readings of an idle screen starts its confirmation anew |
| AgentPublishing.ResetForgets | src/pane.rs:2138-2157 | two detectors that are reset behave alike ever after, except that behind spawned panes the time of the last check is kept |
| AgentDetectionRuns.WindowStays | src/pane.rs:447-487 | while output does not pause for two seconds the acquisition window is not restarted |
| AgentDetectionRuns.UnidentifiedProbes | src/pane.rs:400-445 | an unidentified pane is probed exactly inside the acquisition window, half a second after the last check at first and two seconds later on, unless an agent is in charge |
| AgentDetectionRuns.ProbeBudget | src/pane.rs:412-487 | an unidentified, unsuppressed pane with a foreground group that stays put and output that never pauses for two seconds is probed at most seven more times, however long it runs and whether or not a window is open at first; six when time advances strictly |
| AgentDetectionRuns.HoldIsBounded | src/pane/agent_detection.rs:39-77 | a step from working to a plain idle screen is held back at most three times in a row |
| DetectionTasks.AgentDetectionPresence.ObserveProcessProbe | src/pane.rs:950-974 | presence after a probe, and an identity lost only at the sixth miss |
| DetectionTasks.AgentDetectionPresence.ClearCurrentAgent | src/pane.rs:940-948 | the identity is gone, and a change is reported exactly |
| DetectionTasks.DetectionTask.ApplyForegroundShellAgentAction | src/pane.rs:337-367 | presence and handshake flags after each action, and nothing else changed |
| DetectionTasks.DetectionTask.SyncContentChangeAcquisition | src/pane.rs:447-487 | the window after new or unchanged content |
| DetectionTasks.DetectionTask.ProbeProcess | src/pane.rs:727-803 | state, change and events of the probe step; a reported exit ends with it; a pending release ends exactly when the probe finds anything but the agent being released |
| DetectionTasks.DetectionTask.Publish | src/pane/agent_detection.rs:186-287 | what is held back, what is published, and how the shown state moves |
| DetectionTasks.DetectionTask.ScanScreen | src/pane.rs:805-921 | authority, grace period, skipped scans and reading, in both variants |
| DetectionTasks.DetectionTask.Reset | src/pane.rs:2138-2157 | what a reset forgets, in both variants |
| DetectionTasks.DetectionTask.RunTick | src/pane.rs:2122-2431 | one round of the loop is one step of the run; the handshake stays sound, a reported exit is remembered, and it ends at the first tick that has a process to probe |
| MetadataTokens.SweepBeforeNextExpiry | src/metadata_tokens.rs:91-103 | a sweep changes nothing if and only if it comes before the next expiry |
| MetadataTokens.SweepingRefinesLazyExpiry | src/metadata_tokens.rs:84-103 | right after a sweep the values are those of each key's last patch whose deadline has not passed, whatever was swept before |
| MetadataTokens.TimeToLive | src/metadata_tokens.rs:44-60 | a key set with a time to live is found by a sweep until that time has passed since the patch, and for ever without one or past the end of the clock |
| MetadataTokens.PatchIsSelective | src/metadata_tokens.rs:52-65 | keys that a patch does not name stay, and those it clears are gone |
| MetadataTokens.SourcesStayBounded | src/metadata_tokens.rs:25-41 | no run of requests remembers more than 32 sources |
| MetadataTokens.AcceptedNumbersRise | src/metadata_tokens.rs:17-41 | over every run the accepted numbers of a source rise strictly, from above what was seen before |
| MetadataTokens.AcceptsFreshNumbers | src/metadata_tokens.rs:17-41 | after any run a number is accepted exactly if it is above all accepted from its source, or, for a new source, if there is room |
| MetadataTokens.TokenStore.Patch | src/metadata_tokens.rs:44-67 | entries after the loop, whatever the order of keys, and a change reported exactly |
| MetadataTokens.TokenStore.KeyCountAfterPatch | src/metadata_tokens.rs:69-82 | predicts the number of keys that the patch leaves, for every deadline |
| MetadataTokens.TokenStore.ExpireAt | src/metadata_tokens.rs:98-103 | drops exactly what is due, and comparing sizes tells exactly whether anything changed |
| MetadataTokens.TokenStore.NextExpiry | src/metadata_tokens.rs:91-96 | the least deadline of an entry, or none when there is none |
| PluginPaths.PluginConfigPathComponent | src/plugin_paths.rs:64-92 | the loop computes the component, which is never empty, at most 120 long, does not end in a dot and has no reserved stem |
| PluginPaths.ComponentIsSafe | src/plugin_paths.rs:64-92 | the same of the component function, for cut and uncut ids |
| PluginPaths.CutStemIsFree | src/plugin_paths.rs:85-90 | cutting a name and appending the hash does not uncover a reserved stem |
| PluginPaths.LongNamesAreCut | src/plugin_paths.rs:85-90 | a name of more than 120 characters keeps its first 107, a dash and the hash |
| PluginPaths.ReservedAreDevices | src/api/schema/plugins.rs:162-189 | the reserved stems are exactly the twenty-two device names |
| PluginPaths.NoDeviceNames | src/plugin_paths.rs:82-84 | the first part of a component is no device name in any spelling |
| PluginPaths.ComponentAlphabet | src/plugin_paths.rs:64-92 | a component holds nothing but lower-case letters, digits, dot, underscore, dash, and escapes |
| PluginPaths.ProperIdsKeepTheirName | src/plugin_paths.rs:66-91 | an id of such characters that fits, does not end in a dot and starts with no device name is its own component |
| PluginPaths.DecodeReadable | src/plugin_paths.rs:64-84 | a decoder gives every id back from its readable name: marked stems, final dots and the empty id included |
| PluginPaths.ComponentRoundTrip | src/plugin_paths.rs:64-92 | decoding the component of an id that needs no cut gives the id back |
| PluginPaths.ComponentInjective | src/plugin_paths.rs:64-92 | two ids that need no cut have the same component if and only if they are the same id |
| PluginPaths.CutComponentsAgree | src/plugin_paths.rs:85-90 | two cut ids share a component exactly when they agree in front of the cut and in their hash |
| PluginPaths.CutNameIsShared | src/plugin_paths.rs:85-90 | the component of a cut id is also that of some id that needs no cut if and only if the cut does not fall inside an escape |
| PluginPaths.CleanCutIsName | src/plugin_paths.rs:85-90 | and then that id is made of the bytes in front of the cut, a dash and the hash, marked and escaped prefixes included |
| PluginPaths.CutEncoding | src/plugin_paths.rs:66-74 | a prefix of an encoded id that does not end inside an escape encodes a prefix of the id |
| PluginPaths.SharedComponentExample | src/app/api/plugins/manifest.rs:584-600 | two ids that plugins may have share a component: 119 times `a` and a dot, and what its component spells |
| PluginPaths.ReservedStartsWithLetter | src/api/schema/plugins.rs:162-189 | a reserved stem has at least three characters, starts with a letter, and is not `plugin` |
| EventHub.Hub.Push | src/api/event_hub.rs:15-26 | the log holds the last 512 events of its history with contiguous numbers |
| EventHub.Hub.EventsAfter | src/api/event_hub.rs:28-38 | the loop gives exactly the retained events with higher numbers, in order |
| EventHub.Hub.CurrentSequence | src/api/event_hub.rs:40-45 | the number of events ever pushed |
| EventHub.PollGivesRound | src/api/event_hub.rs:28-38 | a reader that was up to date gets the events of the round, or its last 512, and is up to date again |
| EventHub.ReadsExactlyOnce | src/api/event_hub.rs:12-45 | a reader that asks again with its last number gets every event once and in order if and only if at most 512 are pushed between polls |

## Left out

* The key parser and the parsers for colour replies: arbitrary predicates over whole sequences (`Recognizers`);
  every result holds for any choice of them. Decoded keys and colours are not part of this model.
* The second reading of chunks flushed by a timeout: only chunks cut by the drain are read again here. Some flushed
  chunks, such as `ESC [`, are keys that the extractor does not find by itself.
* The readers around the framer, palette batching and the choice of timeout lengths: a timeout is an input.
- FramerDelivery.TextDelivery: starts with no flushed ESC outstanding; after one, text that begins with `[<` may be taken for a mouse tail, which `FramerScheduling.SplitInvariance` and `FramerAccounting.RunAccounts` cover.
- KittyMirror.UpdateMirrors: asks that data sent along is the data its signature was computed from; the descriptors come from the terminal emulation, which is not part of this model.
- KittyExactness.UpdateIsExact: asks for distinct image ids and one signature per source; ids are hashes taken modulo 900000, so distinctness is an assumption, and an image id denotes one image in its pane.
* Hash functions, base64, the chunking and the text of graphics commands: ids and fingerprints are functions given
  from outside, a command is a datatype value.
* `collect_visible_placements` and the choice of data to send. The filter for pane layers looks its image up under
  an id with the highest bit set, which updates never use, so layers always bring their data.
* `u32` addition of source offsets wraps, as in a build without overflow checks; with checks it stops instead.
* Layout ratios are real numbers: `f32` rounding is not modelled, and "not a number" only where a split is asked for.
- LayoutNavigation.NavigationPrefersCentre: asks for an area whose doubled coordinates fit 16 bits, because the code saturates them beyond that and centres can no longer be told apart.
- FramerTimeouts.CutStringIsSwallowed: is about a rest that holds the whole terminator; when the first timeout strikes between the two bytes of a string terminator, the code has dropped its ESC and skips on until a later terminator or timeout.
- AgentDetectionRuns.ProbeBudget: is about panes with a foreground group; one without a group is probed again every 30 seconds.
- LayoutRuns.RunKeepsWellFormed: starts from well-formed layouts; a saved tree with repeated ids or a focus outside it is accepted by the code and not excluded there.
- Tiling.TileLayout.CloseFocusedPane: asks for the focus to be one of several panes, because the code stops the program otherwise.
- Tiling.TileLayout.SetRatioAt: takes a real number; a ratio that is not a number passes the clamp in the code and is stored.
* Inner rectangles, borders and scrollbar lanes, which drawing fills in later; the 16-bit sums in navigation are
  only modelled for rectangles whose far edges fit.
* Process inspection, terminal contents and manifests for agent detection: a tick carries the probe's answer, the
  detected screen, whether the content changed, and the release that is pending.
- DetectionTasks.DetectionTask.ProbeProcess: says that a pending release ends, but later ticks take the release that is pending as an input, because other threads set it.
* Delivery of published events, sleep durations and restoring the terminal theme in the detection loops.
* Wrap-around of event, content and request counters (64 bits), of pane ids (32 bits) and of reply counters.
* A poisoned lock of the event log, which makes pushes vanish and answers empty.
* SHA-256: the hash of a plugin id is a parameter of its shape; directory creation and migration.
* Hash-map iteration order is open in the models of the graphics cache and the token store, not fixed.
* Everything else in the repository: PTY, processes, sockets, persistence, configuration, rendering, the command
  line, scripts. Selection, popup sizes and themes would only add easy members.
