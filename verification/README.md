# Verified models of a remote terminal

The repository connects a reader, over a relay, to terminal sessions on a host. Three of its parts have a
short specification and an intricate implementation; they are modelled here and proved right, or proved
right exactly under a stated condition.

**The terminal core** (`internal/xterm`) keeps the screen of every session without showing it.
`CircularList` is the ring of rows, `BufferService` the scrollback and viewport over it, `RegionLines` the
control functions that work on lines. `Wrapping` says what greedy line wrap is; `GrowingRows`/`GrowReflow` and
`ShrinkingRows`/`ShrinkReflow` prove the two in-place reflows against it, `GrowLayout`/`GrowBuffer` the pass
over a whole buffer that gets wider, `ReflowText` when a text can be read back. `ParserTable`, `ParserParams`,
`ParserMachine` and `Parser` are the escape sequence parser, `CsiRoundTrip` the way of a control sequence
through it and `CsiLimits` its limits, `StringRoundTrip` the way of strings and escape sequences, `DroppedSequences`
what is let pass without a call, `TextDecoder` the UTF-8 decoder in front of it
and `IllFormedText` what it makes of anything else. `Attributes`, `Sgr`, `SgrColon`, `Screen` and `Serializer` are
what is drawn and how it is written down; the `SerializeReplay*` modules feed what was written to a fresh
terminal and compare, from single characters to bytes; `SerializeReplayCounts` counts what a cut loses.

**The output batcher** (`cmd/claw/output_batcher.go`): `OutputPacking` is the packing of writes into messages,
`OutputRuns` the interleavings of its methods as a step system, `OutputSeals` what a history snapshot and its seal
are worth over every run, `OutputAges` how long a write waits, `OutputBatcher` the class, tied to the steps.
`HistoryChunks` is the cutting of the history that a snapshot returns.

**Two protocols**: `SecureChannel`, the numbered envelope over an unreliable transport, with `SecureRuns` on what exactly arrives,
and `FileWindow`, the
sliding window of a file transfer with its one-slot wake-up. `ByteWords` holds bytes and machine words.

Main results: `OutputSeals.ExactlyOnceAcrossSnapshot` with `SnapshotIsRightExactly`, `OutputPacking.PackBatch` and `PackingTiles`,
`GrowReflow.GrowGroup`, `ShrinkReflow.ShrinkGroup`, `GrowBuffer.WidenColumns` and `TextSurvives`,
`Parser.EscapeSequenceParser.Parse` with `ParserMachine.CutsDoNotMatterExactly`, `CsiRoundTrip.CsiRoundTrips`,
`StringRoundTrip.StringRoundTrips`, `Sgr.SgrRoundTrips`, `SgrColon.ColonColor`, `TextDecoder.StreamDecodes`, `SerializeReplayScreen.ReplayRebuilds` and its end-to-end form
`SerializeReplayBytes.BytesRebuildScreen`, `CircularList.SplicedExactly`,
`BufferService.BufferService.Scroll`, `BufferService.Buffer.Resize`, `SecureRuns.AcceptedExactly`,
`OutputAges.TickTakesOld` and `FileWindow.RunKeepsInv`.

Imperative code is modelled by classes and loops proved against functions; the theorems are about those
functions. `dafny verify dfyconfig.toml` checks everything.

## Where the code and its documentation disagree

The model follows the code. Each point is proved by the member named.

- The clamp of a parameter to the 32-bit range (`parser_params.go:166-170`) never acts: the sum has wrapped
  before it is compared, so a large number comes out negative (`ParserParams.DigitsNeverClamp`).
- The comment on the run-ahead loops for string payloads names DEL among the codes that end them; the loops do
  not stop at it, so codes that the table drops are handed over if they come behind payload in the same call. Where
  the input is cut matters exactly if it has such a code (`ParserMachine.CutsMatterExactly`, `TracesCanDiffer`).
- A U+FFFD that a chunk boundary cuts is dropped, one that is not cut is kept (`TextDecoder.StreamDecodes`,
  `SerializeReplayBytes.CutIsNotRebuilt`).
- A splice that has to trim beyond the point where it inserts, unless that is the end, loses an element; any other is
  right (`CircularList.SplicedExactly`, `FrontIsLost`). `ShiftElements` has a condition of its own (`ShiftedExactly`).
- Dim and bold are switched off by the same parameter, and a palette colour of 256 with an index below 16 is
  written as a basic colour, so not every style comes back (`Sgr.SgrRoundTrips`, `BoldIsLost`;
  `SerializeReplayScreen.PaletteIsLost`).
- The dashes by which the serializer forces a wrap stay behind in column 0 of an empty row, and on a screen of
  one row anywhere (`SerializeReplayScreen.ReplayRebuilds`, `EmptyWrapIsLost`). Unless the cursor stands where the
  text ends, it does not come back when it waits to wrap, or when the last written row is full and the cursor is not
  in the first column (`CursorMissesColumn`).
- The serializer is to know the background that scrolling fills new rows with; it learns of it one row late, so the first
  row scrolled in can come back in the colour of the row above. A forced wrap colours the cell that it starts in, and
  trailing empty rows are left out even if they have a background (`SerializeReplayScreen.ReplayRebuilds`,
  `ScrolledRowIsStained`, `ForcedWrapStains`, `ColouredRestIsLost`).
- A direct colour with colons is only understood with the place of the colour space; without it the components are read
  one place too far on (`SgrColon.WithoutColorSpace`).
- Ill-formed bytes are said to be skipped; behind a leading byte that promises more than the chunk holds, letters are
  skipped with it (`IllFormedText.AsciiKeptExactly`, `LetterIsLost`).
- An empty cell at the end of a full row in front of a wide character is taken for padding by the next reflow
  (`ReflowText.ReadsBackExactly`, `EmptyCellIsLost`).
- When a group behind the cursor's line needs fewer lines at the new width, the cursor leaves its line, unless that is
  the first one (`GrowBuffer.ReflowLarger`, `CursorCanLeave`).
- History chunks are said to fit the secure payload; they do if every unit of the history does
  (`HistoryChunks.AllFit`), and a unit of escapes does not (`DenseUnitIsRefused`).
- The history is read without the batcher's lock, so a snapshot can hold a write that is Added only afterwards; its
  reader is then misled by some way to go on (`OutputSeals.SnapshotIsRightExactly`), and can get the write twice
  (`LateWriteIsReadTwice`).

## Model

| member | source | states |
|---|---|---|
| `OutputPacking.FittingPrefix` | cmd/claw/output_batcher.go:391-411 | The halving search returns a prefix that marshals within the budget beside the data already in the message, and never nothing when the message is still empty, so splitting ends. |
| `OutputPacking.PackWrite` | cmd/claw/output_batcher.go:371-423 | Packing one write, with spilling into further messages, keeps the packing invariant: bytes in order, budget kept, each message labelled by the write its last byte belongs to. |
| `OutputPacking.PackBatch` | cmd/claw/output_batcher.go:347-425 | The messages of a batch carry exactly the bytes of its writes in order, none is empty, each marshals within SecureMaxTextPayload - outputChunkMargin (also those let through unmeasured), and `n` and `Seq` label them. |
| `OutputPacking.EmitKeepsPacking` | cmd/claw/output_batcher.go:356-369 | Closing the open message keeps the packing invariant. |
| `OutputPacking.TakePieceKeepsPacking` | cmd/claw/output_batcher.go:381-420 | Moving a piece of a write into the open message keeps the packing invariant. |
| `OutputPacking.PackingTiles` | cmd/claw/protocol.go:291-299 | For contiguously numbered writes the messages tile the sequence space: n >= 1 starts right behind the watermark, n = 0 repeats it, and the last watermark is the last write. |
| `OutputRuns.SealPoint` | cmd/claw/output_batcher.go:291-300 | The split index: everything in front of it is numbered up to H, and the write at it is above H. |
| `OutputRuns.DetachSplits` | cmd/claw/output_batcher.go:176-190 | However the map is iterated, what a flush detaches and what it leaves are, for every session, a prefix and the rest of its buffered writes. |
| `OutputRuns.StepKeepsInv` | cmd/claw/output_batcher.go:161-323 | Every atomic step (Add, the flush inside Add, tick, FlushSession, FlushAll, snapshot, seal, dispatch) keeps segments contiguous, lastSeq and rawLen right, and all writes accounted for. |
| `OutputRuns.RunKeepsInv` | cmd/claw/output_batcher.go:161-323 | Over every interleaving: for each session, dispatched ++ in flight ++ buffered ++ held by its writer = Added, in order. |
| `OutputSeals.SnapshotSeals` | cmd/claw/daemon.go:1079-1127 | A snapshot up to H, even one that runs ahead of Add, finds nothing on the wire that straddles H. |
| `OutputSeals.StraddlesExactly` | cmd/claw/output_batcher.go:291-300 | Only a contiguous stretch that holds H and goes on behind it straddles it. |
| `OutputSeals.StepKeepsSealed` | cmd/claw/output_batcher.go:270-323 | No step but a late Add of write H makes a batch that straddles H possible. |
| `OutputSeals.RunKeepsSealed` | cmd/claw/output_batcher.go:270-323 | The same over whole runs, if write H is not Added after the snapshot. |
| `OutputSeals.ExactlyOnceAcrossSnapshot` | cmd/claw/daemon.go:1079-1127 | A reader that takes the history up to H and then only messages with Seq > H has, with what is still pending, every byte of every Added write once and in order, if write H is not Added after the snapshot. |
| `OutputSeals.SealedWritesAreOut` | cmd/claw/output_batcher.go:278-323 | When SealAt has returned, every write up to H that had been Added is on the wire. |
| `OutputSeals.SealIsNecessary` | cmd/claw/daemon.go:1097-1106 | A batch is read right across H under every correct packing exactly if its writes do not straddle H: the seal cannot be left out. |
| `OutputSeals.SealIsSafeExactly` | cmd/claw/daemon.go:1079-1127 | Between flushes, no way to go on puts a batch that straddles H on the wire exactly if write H or a later one has been Added and H is neither buffered nor held back. |
| `OutputSeals.ReaderIsRightExactly` | cmd/claw/daemon.go:1079-1127 | And exactly then the reader has every byte once and in order whatever happens next. |
| `OutputSeals.SnapshotIsRightExactly` | cmd/claw/daemon.go:1079-1127 | A snapshot up to H is read right in everything that can follow it exactly if write H has been Added and is not held back by its writer. |
| `OutputSeals.LateWriteIsReadTwice` | cmd/claw/daemon.go:1079-1127 | A run in which a snapshot holds a write that is Added after it: the reader gets the write twice. |
| `OutputRuns.FlushPath` | cmd/claw/output_batcher.go:163-190 | A flush as the batcher runs it, also the one inside Add, is a path of the step system. |
| `OutputRuns.AddPath` | cmd/claw/output_batcher.go:198-219 | So is Add of a write that follows its segment. |
| `OutputRuns.AddGapPath` | cmd/claw/output_batcher.go:198-219 | So is Add of any other write: noted, session flushed, buffered. |
| `OutputRuns.RunGoesOn` | cmd/claw/output_batcher.go:161-323 | A run continued by such a path is a run, so the results about runs apply to the methods called in any order. |
| `OutputRuns.SealPath` | cmd/claw/output_batcher.go:278-323 | So is SealAt. |
| `OutputAges.AgeIsOpening` | cmd/claw/output_batcher.go:204-219 | Over every run the age noted for a buffered segment is the time of the Add, or resumed Add, that opened it; no later write and no seal has changed it. |
| `OutputAges.TickTakesOld` | cmd/claw/output_batcher.go:163-190 | A tick takes a segment exactly if it was opened the deadline or longer ago, however many writes followed, or if its bytes have reached the limit. |
| `OutputAges.NothingOldIsLeft` | cmd/claw/output_batcher.go:163-190 | After a tick whatever is still buffered was opened less than the deadline ago. |
| `OutputBatcher.OutputBatcher.constructor` | cmd/claw/output_batcher.go:120-126 | A new batcher is empty. |
| `OutputBatcher.OutputBatcher.Add` | cmd/claw/output_batcher.go:198-219 | A write extends its segment if it is the next in number; otherwise the segment is flushed first; an empty write does nothing. |
| `OutputBatcher.OutputBatcher.Tick` | cmd/claw/output_batcher.go:163-190 | Exactly the segments that are old enough for the current tier, or large enough, are flushed. |
| `OutputBatcher.OutputBatcher.FlushSession` | cmd/claw/output_batcher.go:222-237 | Exactly that session is flushed. |
| `OutputBatcher.OutputBatcher.FlushAll` | cmd/claw/output_batcher.go:242-268 | Everything buffered is flushed. |
| `OutputBatcher.OutputBatcher.SealAt` | cmd/claw/output_batcher.go:278-323 | Every segment is cut behind H; the fronts are dispatched, the rests keep their age with rawLen recomputed. |
| `OutputBatcher.OutputBatcher.Reset` | cmd/claw/output_batcher.go:328-332 | Drops what is buffered and sends nothing. |
| `OutputBatcher.OutputBatcher.SendBatch` | cmd/claw/output_batcher.go:347-425 | A batch goes to the wire as a correct packing of its entries. |
| `HistoryChunks.PlainChunks` | cmd/claw/daemon.go:1186-1212 | The chunks lie end to end; each is one unit or measured to fit, and would not fit with one unit more. |
| `HistoryChunks.ChunksJoin` | cmd/claw/daemon.go:1231-1260 | Joining the chunks gives the history back. |
| `HistoryChunks.AllFit` | cmd/claw/daemon.go:1175-1184 | All chunks fit the budget if every 4096-byte unit of the history does, and only then if a part never marshals to more than the whole. |
| `HistoryChunks.PartsCanBeLonger` | cmd/claw/daemon.go:1214-1228 | Where a part can marshal to more, as with a character that is cut, a chunk may fit although its units do not. |
| `HistoryChunks.DenseUnitIsRefused` | cmd/claw/daemon.go:1182-1184 | They need not: a unit of bytes that each take six marshals to more than SecureMaxTextPayload and forms a chunk of its own. |
| `HistoryChunks.SmallChunkFits` | cmd/claw/daemon.go:1171-1176 | A chunk of at most (budget - envelope) / 6 bytes always fits. |
| `SecureChannel.BigEndianReads` | cmd/claw/securechannel.go:118-123 | The eight big-endian bytes of a number determine it. |
| `SecureChannel.NoncesDiffer` | cmd/claw/securechannel.go:118-123 | Two numbers below 2^64 have the same nonce exactly if they are equal. |
| `SecureChannel.NumbersRepeatAfterAll` | cmd/claw/securechannel.go:142-144 | The 64-bit counter repeats a nonce after 2^64 sends, and no earlier. |
| `SecureChannel.SecureChannel.WrapJSON` | cmd/claw/securechannel.go:128-150 | Seals under the next number, or refuses when inactive or too large without using one up. |
| `SecureChannel.SecureChannel.UnwrapJSON` | cmd/claw/securechannel.go:153-179 | Opens forward only; a failed opening changes nothing, a text that opens but does not parse uses up its number. |
| `SecureChannel.SecureChannel.WrapBinary` | cmd/claw/securechannel.go:186-203 | As WrapJSON, from the same counter, without a size limit. |
| `SecureChannel.SecureChannel.UnwrapBinary` | cmd/claw/securechannel.go:207-228 | As UnwrapJSON, against the same counter. |
| `SecureChannel.SecureChannel.Reset` | cmd/claw/securechannel.go:94-110 | Keys are zeroed, counters cleared, the channel is inactive. |
| `SecureChannel.OpenedWasSealed` | cmd/claw/securechannel.go:167-172 | With an ideal AEAD, what opens under a number is the message that was sealed under it. |
| `SecureChannel.StepKeepsInv` | cmd/claw/securechannel.go:86-228 | Send, delivery of anything, and a reset of either side keep the invariant of one direction. |
| `SecureChannel.RunKeepsInv` | cmd/claw/securechannel.go:86-228 | So does every run. |
| `SecureChannel.AcceptedInOrder` | cmd/claw/securechannel.go:153-228 | Whatever the transport drops, repeats, reorders or alters, the accepted messages are sealed ones, unchanged, in strictly increasing number, and no nonce is used twice, across text and binary. |
| `SecureRuns.AcceptedExactly` | cmd/claw/securechannel.go:128-228 | Over every run: the texts sent are sealed in order, the k-th under number k, and a delivery is accepted exactly if it brings what was sealed under its number, parses, reaches a receiver that has not been reset, and its number is above that of every genuine delivery before. |
| `SecureRuns.AnsweredExactly` | cmd/claw/securechannel.go:153-228 | Over every run: which of inactive, replay and decryption failure a refused delivery is answered with. |
| `SecureRuns.AllArrive` | cmd/claw/securechannel.go:128-228 | If the transport delivers every sealed message once, in order, and they parse, every text is accepted, in order. |
| `FileWindow.StepKeepsInv` | cmd/claw/filetransfer.go:326-360 | Each step of sender and acknowledgement handler keeps: sent - acked <= 4, acked never falls, and a parked sender that could go on has a token or is about to get one. |
| `FileWindow.RunKeepsInv` | cmd/claw/filetransfer.go:326-447 | The same over every interleaving. |
| `FileWindow.WakeUpArrives` | cmd/claw/filetransfer.go:330-343 | A parked sender with room in the window reaches its next chunk in at most three steps, none of which sends or needs another acknowledgement. |
| `FileWindow.SpareTokensDoNoHarm` | cmd/claw/filetransfer.go:326-343 | A token left over costs one more check and changes nothing else. |
| `FileWindow.CountsAreRight` | cmd/claw/filetransfer.go:326-360 | After any actions the stored count is the greatest acknowledged so far, and the other the number of chunks sent. |
| `FileWindow.FileSendTask.HandleAck` | cmd/claw/filetransfer.go:346-360 | The handler takes the steps of the protocol: a smaller count is ignored, a larger one is stored and the slot filled if free. |
| `FileWindow.ChunkSize` | cmd/claw/filetransfer.go:269-277 | A chunk with its header and envelope fits the frame of the channel, and a configured size that does is kept. |
| `FileWindow.ChunksCover` | cmd/claw/filetransfer.go:278-281 | The announced number of chunks is enough for the file, and one fewer is not. |
| `FileWindow.SendFile` | cmd/claw/filetransfer.go:390-448 | The frames carry the file, numbered from zero, all but the last full, as many as announced; an empty file is announced as one chunk and sent as none. |
| `CircularList.InsertedIs` | internal/xterm/circularlist.go:117-148 | An insertion acts on the sequence as insertion followed by dropping the overflow from the front, if it starts no earlier than it trims, or at the end. |
| `CircularList.InsertedExactly` | internal/xterm/circularlist.go:117-148 | Where elements can be told apart, it does so only then. |
| `CircularList.InsertedLoses` | internal/xterm/circularlist.go:127-148 | Otherwise the element at the insertion point is lost although it should have stayed. |
| `CircularList.FrontIsLost` | internal/xterm/circularlist.go:127-148 | A full ring of three, one element inserted in front: instead of nothing changing, an element and the order are lost. |
| `CircularList.SplicedIs` | internal/xterm/circularlist.go:117-148 | Deletion and insertion together act as they do on a sequence, under the same condition. |
| `CircularList.SplicedExactly` | internal/xterm/circularlist.go:117-148 | And only under it. |
| `CircularList.ShiftedExactly` | internal/xterm/circularlist.go:161-190 | A shift towards the end acts as on a sequence exactly if count + offset is at most the capacity, or offset is the capacity. |
| `CircularList.DeletedIs` | internal/xterm/circularlist.go:119-125 | Deletion acts as on a sequence. |
| `CircularList.SlotsDiffer` | internal/xterm/circularlist.go:199-205 | Indices closer than the capacity never share a slot. |
| `CircularList.CircularList.Push` | internal/xterm/circularlist.go:89-98 | Appends, dropping the oldest element when full; trims are counted. |
| `CircularList.CircularList.Recycle` | internal/xterm/circularlist.go:101-108 | Turns a full ring by one and hands out the oldest element. |
| `CircularList.CircularList.Pop` | internal/xterm/circularlist.go:111-114 | Removes the last element. |
| `CircularList.CircularList.Splice` | internal/xterm/circularlist.go:117-148 | The in-place shifting loops compute the specified ring, and the count of trimmed elements. |
| `CircularList.CircularList.TrimStart` | internal/xterm/circularlist.go:151-158 | Drops elements from the front and counts them. |
| `CircularList.CircularList.ShiftElements` | internal/xterm/circularlist.go:161-190 | The loops compute the specified ring for every stretch and offset, and the count of what is trimmed; as a list under the exact condition. |
| `CircularList.CircularList.SetLength` | internal/xterm/circularlist.go:35-43 | Cuts the sequence off or fills it with zero values. |
| `CircularList.CircularList.SetMaxLength` | internal/xterm/circularlist.go:51-69 | Keeps the elements that fit, in order, in a new array. |
| `CircularList.CircularList.Get` | internal/xterm/circularlist.go:78-80 | Reads the element at an index of the sequence. |
| `CircularList.CircularList.Set` | internal/xterm/circularlist.go:83-86 | Replaces the element at an index of the sequence. |
| `BufferService.ScrolledFromTop` | internal/xterm/bufferservice.go:102-122 | For a region that starts at the top, inserting the blank line behind the region is: top line to the history, history cut to its newest lines, region shifted up. |
| `BufferService.ScrolledInside` | internal/xterm/bufferservice.go:123-128 | For a region further down only its own lines move. |
| `BufferService.BufferService.Scroll` | internal/xterm/bufferservice.go:88-135 | Scroll acts on history and viewport as specified, whether the ring is full or not, keeps all row objects and their cells distinct, and moves the view as documented. |
| `BufferService.BufferService.ScrollLines` | internal/xterm/bufferservice.go:138-160 | The view moves by the amount asked for within [0, YBase]; whether the user is scrolled back is recorded. |
| `BufferService.ScreenScrollAgrees` | internal/xterm/bufferservice.go:88-135 | The screen of the replay theorem scrolls as the buffer does. |
| `BufferService.Buffer.Resize` | internal/xterm/buffer.go:170-266 | A change of rows keeps the buffer filled, the cursor on the same row object, all kept rows the same objects with the same cells; how many rows go below the cursor, come from or overflow into the history and are added is exact, and the view stays as far above its lowest position as it was, as far as there is history. |
| `BufferService.Buffer.GrowRows` | internal/xterm/buffer.go:190-207 | More rows: history comes back while the cursor is on the last line, the rest is new. |
| `BufferService.Buffer.ShrinkRows` | internal/xterm/buffer.go:208-219 | Fewer rows: lines below the cursor go first, then lines become history. |
| `BufferService.FillViewportRows` | internal/xterm/buffer.go:145-156 | An empty buffer is filled with blank lines that share nothing. |
| `RegionLines.MoveLines` | internal/xterm/inputhandler_csi.go:281-342 | Insert line and scroll down shift the lines down, delete line and scroll up shift them up; from the cursor on or over the whole region, with the fill colours of each, the cursor column, and nothing at all if the cursor is outside the region. |
| `RegionLines.InsertedIs` | internal/xterm/inputhandler_csi.go:281-298 | Inserting n times shifts the region down by min(n, its height) and clears the top. |
| `RegionLines.DeletedIs` | internal/xterm/inputhandler_csi.go:300-317 | Deleting n times shifts it up and clears the bottom. |
| `RegionLines.DeleteUndoesInsert` | internal/xterm/inputhandler_csi.go:281-317 | Deleting what has been inserted brings back all lines but those pushed out of the region. |
| `RegionLines.UndoneExactly` | internal/xterm/inputhandler_csi.go:281-317 | The two cancel exactly if the lines pushed out were blank. |
| `RegionLines.SetScrollRegion` | internal/xterm/inputhandler_csi.go:544-558 | The region is set only if it holds two lines, always lies within the viewport, and the cursor goes home. |
| `BufferLines.BufferLine.CopyCellsFrom` | internal/xterm/bufferline.go:431-458 | A copy in an order that reads each cell before it is overwritten is a simultaneous copy, also within one line. |
| `BufferLines.BufferLine.ReplaceCells` | internal/xterm/bufferline.go:275-303 | Fills a range and clears wide characters cut in half at its edges. |
| `BufferLines.ReplacedStaysWhole` | internal/xterm/bufferline.go:275-303 | Filling a range clears exactly the halves of wide characters that it cuts off at its edges, so characters stay whole. |
| `BufferLines.BufferLine.GetTrimmedLength` | internal/xterm/bufferline.go:410-417 | The column behind the last filled cell, counting its width. |
| `BufferLines.BufferLine.SetCell` | internal/xterm/bufferline.go:173-184 | Replaces one cell. |
| `BufferLines.BufferLine.CopyFrom` | internal/xterm/bufferline.go:371-386 | Takes over cells and wrap mark. |
| `BufferLines.BufferLine.Clone` | internal/xterm/bufferline.go:389-407 | A copy that shares no cells. |
| `BufferLines.BufferLine.Resize` | internal/xterm/bufferline.go:307-339 | Cuts the cells off or fills them up. |
| `Wrapping.WrapLosesNothing` | internal/xterm/bufferreflow.go:11-12 | Greedy wrap loses and reorders nothing. |
| `Wrapping.WrapNeverSplitsWide` | internal/xterm/bufferreflow.go:65-72 | It splits no wide character, and a row is one short only in front of one. |
| `GrowingRows.WriteStaysBehindRead` | internal/xterm/bufferreflow.go:45-73 | In the forward copy the write position never passes the read position and never leaves the group. |
| `GrowingRows.UsedLengthUnchanged` | internal/xterm/bufferreflow.go:46-47 | The lengths the loop reads off the half-rewritten rows are those of the old rows. |
| `GrowReflow.GrowGroup` | internal/xterm/bufferreflow.go:37-90 | The in-place copy leaves the rows holding exactly the greedy wrap of the group at the new width, padded with nulls, and the count to remove is exactly the trailing rows without text. |
| `ShrinkReflow.GetNewLineLengths` | internal/xterm/bufferreflow.go:137-171 | The lengths are those of the greedy wrap: they sum to the text, are newCols or newCols - 1 except the last, and cut no wide character. |
| `ShrinkingRows.NoFewerRows` | internal/xterm/buffer.go:341-343 | A group never gets fewer rows. |
| `ShrinkReflow.ShrinkGroup` | internal/xterm/buffer.go:340-400 | The backward copy fills every row with exactly its slice and overwrites no unread cell. |
| `ReflowText.ReadsBackExactly` | internal/xterm/bufferreflow.go:174-184 | A text wrapped at n columns is read back, but for empty cells at its end, exactly if the wrap puts no empty cell at the end of a full row in front of a wide character. |
| `ReflowText.GrownReadsBack` | internal/xterm/bufferreflow.go:37-90 | So a group that has grown spells its old text under exactly that condition. |
| `ReflowText.ShrunkReadsBack` | internal/xterm/buffer.go:340-400 | And so does one that has shrunk. |
| `ReflowText.EmptyCellIsLost` | internal/xterm/bufferreflow.go:174-184 | A letter, an empty cell and a wide character at two columns: the empty cell is taken for padding. |
| `GrowLayout.CreateNewLayout` | internal/xterm/bufferreflow.go:95-122 | The layout lists exactly the lines that are not removed, in order, and the count is the rest. |
| `GrowLayout.ApplyNewLayout` | internal/xterm/bufferreflow.go:125-134 | The ring holds the lines of the layout and nothing else. |
| `GrowLayout.GroupMoves` | internal/xterm/bufferreflow.go:95-134 | What is left of a wrapped group is a wrapped group of the new layout. |
| `GrowingRows.KeptIsNeeded` | internal/xterm/bufferreflow.go:76-90 | The rows kept of a group are those its text needs at the new width, computed from the text alone. |
| `GrowBuffer.NoneBehindGoes` | internal/xterm/buffer.go:283-311 | No line behind the cursor's is removed exactly if every group behind it needs all its lines at the new width. |
| `GrowBuffer.CursorCanLeave` | internal/xterm/buffer.go:283-311 | Four lines, two to four columns: the last group needs one line of its two, and the cursor leaves its line. |
| `GrowBuffer.WidenLines` | internal/xterm/buffer.go:181-186 | Every line is filled up, in place, and what was well formed is ready to be re-wrapped. |
| `Wrapping.FilledUpSpells` | internal/xterm/buffer.go:181-186 | Filling the lines of a group up changes nothing of its text. |
| `GrowBuffer.WidenColumns` | internal/xterm/buffer.go:181-311 | A buffer of well-formed lines gets wider: filled up, re-wrapped, laid out anew, viewport put back. |
| `GrowBuffer.GetLinesToRemove` | internal/xterm/bufferreflow.go:13-92 | Every wrapped group but the cursor's is re-wrapped, nothing else is touched, and exactly the lines left over are reported. |
| `GrowBuffer.AdjustViewport` | internal/xterm/buffer.go:293-311 | Puts the viewport back so that it is filled, the cursor and the view within it; new lines are blank. |
| `GrowBuffer.ReflowLarger` | internal/xterm/buffer.go:283-311 | The whole reflow of a wider buffer: new layout, viewport, distinct rows; the cursor is still on its row object exactly if every group behind it needs all its lines, or it is on the first line. |
| `GrowBuffer.TextSurvives` | internal/xterm/buffer.go:283-291 | Every group is found again, one behind the other; a re-wrapped one spells its old text at the new width exactly if no row of that text looks padded, any other has its rows. |
| `ParserTable.BuildVt500` | internal/xterm/parser_table.go:68-202 | The builder fills the table with the VT500 transition function, for every state and code. |
| `ParserTable.SectionsMakeVt500` | internal/xterm/parser_table.go:68-202 | Its sections, later ones winning, make up that function. |
| `ParserTable.TransitionTable.AddMany` | internal/xterm/parser_table.go:39-43 | Overwrites exactly the entries named. |
| `ParserMachine.RunAheadRefinesTable` | internal/xterm/parser.go:336-526 | Running ahead ends in the machine of the code-by-code table; its events are the table's with stray payload codes put in. |
| `ParserMachine.TracesAgree` | internal/xterm/parser.go:451-511 | The events are equal exactly if no DEL in a device control string and no DEL or control code in an application string was run over. |
| `ParserMachine.TracesCanDiffer` | internal/xterm/parser.go:451-461 | They can differ, and where the input is cut then matters. |
| `ParserMachine.ChunksDoNotMatter` | internal/xterm/parser.go:336-345 | However the input is cut into calls, machine and events are those of the whole, but for stray payload. |
| `ParserMachine.OneCallAgrees` | internal/xterm/parser.go:451-511 | One call has the events of the table exactly if the table drops no code behind payload that it has put, before a code that ends the run-ahead. |
| `ParserMachine.ChunksAgreeExactly` | internal/xterm/parser.go:336-345 | Several calls have the events of the table exactly if in no chunk there is such a code. |
| `ParserMachine.CutsDoNotMatterExactly` | internal/xterm/parser.go:336-345 | The events are those of the table however the input is cut exactly if there is no such code in the input. |
| `ParserMachine.CutsMatterExactly` | internal/xterm/parser.go:336-345 | Two ways of cutting an input can be told apart exactly if it has one. |
| `Parser.TurnIsRun` | internal/xterm/parser.go:360-524 | One turn of the main loop, with its inner loop, is a run over the codes it takes. |
| `Parser.EscapeSequenceParser.Parse` | internal/xterm/parser.go:336-526 | The imperative parser computes the run-ahead machine and its events, and so the table's machine. |
| `Parser.EscapeSequenceParser.Reset` | internal/xterm/parser.go:314-323 | Back to the initial machine. |
| `Parser.EscapeSequenceParser.ScanRun` | internal/xterm/parser.go:353-363 | The inner loops stop where the action says and not before. |
| `ParserParams.Params.Add` | internal/xterm/parser_params.go:65-81 | Appends a value, or notes that there are too many. |
| `ParserParams.Params.AddSub` | internal/xterm/parser_params.go:84-102 | Appends a sub-parameter to the last value, or notes that there are too many. |
| `ParserParams.Params.Digit` | internal/xterm/parser_params.go:139-172 | Appends a digit to the last number. |
| `ParserParams.Params.GetSubParams` | internal/xterm/parser_params.go:113-120 | The sub-parameters of one value, cut out of the flat array. |
| `ParserParams.StoreAddIs` | internal/xterm/parser_params.go:65-81 | The flat arrays with packed spans act as a list of values with lists of sub-parameters: adding a value. |
| `ParserParams.StoreAddSubIs` | internal/xterm/parser_params.go:84-102 | The same for adding a sub-parameter. |
| `ParserParams.StoreDigitIs` | internal/xterm/parser_params.go:139-172 | The same for a digit. |
| `ParserParams.DigitsNeverClamp` | internal/xterm/parser_params.go:160-172 | A digit extends a value as a number exactly if the result is below 2^31; the clamp never acts and the value wraps. |
| `CsiRoundTrip.FieldsParsed` | internal/xterm/parser.go:404-424 | Parameters and sub-parameters written in decimal are read back, defaults and leading zeros included. |
| `CsiRoundTrip.CsiRoundTrips` | internal/xterm/parser.go:389-446 | From any state, a written control sequence causes exactly one dispatch with its identifier and parameters, after whatever ESC ends, and leaves the parser in ground. |
| `CsiRoundTrip.IdentToString` | internal/xterm/parser.go:130-139 | The name of an identifier is its bytes. |
| `CsiRoundTrip.IdentifierNames` | internal/xterm/parser.go:118-139 | A function's identifier has the function's own bytes for a name. |
| `CsiRoundTrip.IdentifiersAreDistinct` | internal/xterm/parser.go:118-127 | Different functions have different identifiers. |
| `CsiLimits.LongCsiRoundTrips` | internal/xterm/parser_params.go:55-172 | A control sequence with any number of parameters and sub-parameters causes one dispatch with the first 32 values and the first 32 of their sub-parameters; the digits of the others go nowhere. |
| `StringRoundTrip.StringRoundTrips` | internal/xterm/parser.go:448-520 | From any state, an OSC, APC or device control string with any payload that does not end it causes exactly its start, the payload codes handed over, in order, and its end: a success for BEL (OSC only), ESC backslash and 0x9c, a failure for CAN and SUB; then the parser is in ground. |
| `StringRoundTrip.PrintableIsKept` | internal/xterm/parser.go:451-511 | Of a payload of printable codes nothing is dropped. |
| `StringRoundTrip.StringsMayBeCut` | internal/xterm/parser.go:336-345 | However such a string is cut into calls, the events are the same. |
| `StringRoundTrip.EscRoundTrips` | internal/xterm/parser.go:429-440 | From any state, ESC with its intermediate bytes and its final byte calls exactly the function of that identifier. |
| `StringRoundTrip.ControlsInSequence` | internal/xterm/parser_table.go:68-110 | A control code in the middle of a sequence is carried out and leaves the sequence as it was; CAN and SUB abandon it. |
| `DroppedSequences.OneCodeOpens` | internal/xterm/parser_table.go:68-110 | The single codes 0x90, 0x98, 0x9b and 0x9d to 0x9f lead where ESC and their letter lead, from any state, except that no open string is ended. |
| `DroppedSequences.FaultsExactly` | internal/xterm/parser_table.go:68-202 | An error is reported exactly for single codes without a function and for characters where none can stand, and leads to ground. |
| `DroppedSequences.UselessString` | internal/xterm/parser_table.go:68-202 | SOS and PM strings come to nothing but their end. |
| `DroppedSequences.MalformedCsi` | internal/xterm/parser_table.go:68-202 | A control sequence with a misplaced byte is left out up to its final byte, and calls nothing. |
| `DroppedSequences.MalformedDcs` | internal/xterm/parser_table.go:68-202 | A device control string with a misplaced byte is left out up to its end. |
| `TextDecoder.DecodesEncoded` | internal/xterm/textdecoder.go:104-117 | The first code point of an encoded text is the one that was encoded. |
| `TextDecoder.Utf8ToUtf32.DecodeChunk` | internal/xterm/textdecoder.go:25-127 | One call computes the decoding function and writes at most as many code points as it is given bytes. |
| `TextDecoder.CutIsCompleted` | internal/xterm/textdecoder.go:34-76 | A code point cut by a chunk boundary is completed by the next chunk, unless it is U+FEFF or U+FFFD. |
| `TextDecoder.StreamDecodes` | internal/xterm/textdecoder.go:25-127 | Over every way of cutting a well-formed stream the output is its scalar values minus U+FEFF with nothing pending, exactly if no U+FFFD is cut. |
| `IllFormedText.RejectedExactly` | internal/xterm/textdecoder.go:104-117 | A code point is rejected exactly if the bytes do not start with the encoding of one: overlong forms, surrogates and numbers above U+10FFFF are none. |
| `IllFormedText.TurnExactly` | internal/xterm/textdecoder.go:78-127 | Where a code point stands it is taken as a whole; where none does, one byte is dropped and nothing behind it. |
| `IllFormedText.MainKeepsAscii` | internal/xterm/textdecoder.go:78-127 | Whatever the bytes are, one call without bytes kept back writes every ASCII byte, in order, but for those it keeps back behind a leading byte at its end. |
| `IllFormedText.AsciiKeptExactly` | internal/xterm/textdecoder.go:25-127 | Over all calls every ASCII byte is written or still kept back exactly if no call settled bytes kept back that had one among them; how many are lost otherwise. |
| `IllFormedText.LetterIsLost` | internal/xterm/textdecoder.go:34-100 | An unfinished leading byte and two letters: in one call both letters are kept, cut between them the first is lost. |
| `Attributes.EqualsIsSameLook` | internal/xterm/serialize_addon.go:640-688 | For plain attributes the serializer's comparison is equality of what is seen. |
| `Attributes.EqualsExactly` | internal/xterm/serialize_addon.go:640-688 | For all attributes it is equality of looks and of underlines: where they come from, their style, their colour. |
| `Sgr.CopySubs` | internal/xterm/inputhandler_sgr.go:198-216 | The inner loop over sub-parameters fills the slots it should. |
| `Sgr.ExtractColor` | internal/xterm/inputhandler_sgr.go:182-255 | The loop that collects an extended colour computes its specification, and how many parameters it takes. |
| `Sgr.CharAttributes` | internal/xterm/inputhandler_sgr.go:8-151 | The handler computes the specified effect of all its parameters. |
| `Sgr.ReadColor` | internal/xterm/serialize_addon.go:383-431 | The parameters of a colour are read back as that colour exactly if a palette mode fits its index. |
| `Sgr.SgrRoundTrips` | internal/xterm/serialize_addon.go:369-499 | From the old look, reading the difference gives the new look exactly if the difference can be expressed: palette modes that fit, and no dim that the switch for bold takes away. |
| `Sgr.BoldIsLost` | internal/xterm/serialize_addon.go:433-499 | From dim to bold: the switch that takes dim back takes bold back as well. |
| `SgrColon.ColonColor` | internal/xterm/inputhandler_sgr.go:182-255 | 38, 48 or 58 with any sub-parameters sets exactly the colour they describe, nothing else, and the reading goes on with the next parameter. |
| `SgrColon.ColonColors` | internal/xterm/inputhandler_sgr.go:198-255 | t:5:n selects index n of the palette, t:2:cs:r:g:b the colour of its components, for text, background and underline. |
| `SgrColon.WithoutColorSpace` | internal/xterm/inputhandler_sgr.go:198-255 | t:2:r:g:b selects green g, blue b as red and green: the colour meant exactly if it is black. |
| `SgrColon.SemicolonColors` | internal/xterm/inputhandler_sgr.go:218-255 | The same colours as parameters of their own. |
| `SgrColon.UnderlineStyles` | internal/xterm/inputhandler_sgr.go:63-120 | 4 with its style, 21 and 24 set the underline to exactly that style, with the marks that belong to it. |
| `SgrColon.UnderlineColorReset` | internal/xterm/inputhandler_sgr.go:138-164 | 59 and 0 give the underline the colour of the text; 0 ends every rendition and keeps the hyperlink. |
| `SgrColon.OthersIgnored` | internal/xterm/inputhandler_sgr.go:18-151 | A parameter that is no rendition does nothing. |
| `Screen.HandleKeeps` | internal/xterm/inputhandler.go:390-520 | No printed character or control function leads out of the valid screens. |
| `Screen.UnderlinesAgree` | internal/xterm/inputhandler_sgr.go:8-151 | However characters, movements, erasures and renditions follow each other on a new terminal, the underline flag of every cell and its extended mark agree. |
| `Screen.LineFeedIs` | internal/xterm/inputhandler_c0.go:11-45 | LF, VT and FF go down one row and keep the column, but for a pending wrap; on the last row the lines move up and a blank one in the current background follows. |
| `Screen.CursorMoves` | internal/xterm/inputhandler_csi.go:8-60 | The four cursor movements, by at least one and not beyond the edges. |
| `Screen.InputHandler.HandleEvents` | internal/xterm/inputhandler.go:177-222 | The handler object, fed any events of the parser, goes through the screens that the replay theorems are about. |
| `Screen.InputHandler.PrintAll` | internal/xterm/inputhandler.go:390-520 | The loop over a run of characters prints them one after the other, with autowrap. |
| `Serializer.StringSerializeHandler.SerializeRows` | internal/xterm/serialize_addon.go:215-262 | The loops over rows and cells. |
| `Serializer.WrapsExactly` | internal/xterm/serialize_addon.go:307-341 | The next row continues by itself exactly if its first character, wide or not, does not fit behind the last filled cell and shares its background and that of the empty cells behind it. |
| `SerializeReplayRows.ContentWrites` | internal/xterm/serialize_addon.go:532-571 | What is written for a character of any width: the cells skipped, its style if it differs, itself; the cursor noted behind all of it, and its second half passed over. |
| `Serializer.Serialize` | internal/xterm/serialize_addon.go:215-635 | The whole output: rows, cursor, current style. |
| `SerializeReplay.NextLineIs` | internal/xterm/bufferservice.go:88-113 | The next line is reached without losing one: it is the empty one below, or a new one. |
| `SerializeReplay.SkipForward` | internal/xterm/serialize_addon.go:549-565 | Moving over empty cells on the background that the writer expects keeps what is shown. |
| `SerializeReplay.RunErased` | internal/xterm/serialize_addon.go:521-529 | Erasing empty cells shows them in the background that they have. |
| `SerializeReplay.NewLine` | internal/xterm/serialize_addon.go:303-306 | CR LF leaves the terminal at the start of the next row. |
| `SerializeReplay.PrintWraps` | internal/xterm/serialize_addon.go:307-341 | A full row continues by itself when the next character is printed. |
| `SerializeReplay.CleanedUp` | internal/xterm/serialize_addon.go:343-353 | The clean-up behind a forced wrap erases the dashes in the background of the row's end, but for column 0 of an empty row, and on a screen of one row nothing of them. |
| `SerializeReplayRows.ForcedWrapDrawn` | internal/xterm/serialize_addon.go:343-358 | A forced wrap leaves the terminal at the start of the wrapped row. |
| `SerializeReplayRows.ContentCell` | internal/xterm/serialize_addon.go:501-571 | What the writer adds for a filled cell makes the terminal show it, in its style, behind the empty cells not written yet. |
| `SerializeReplayRows.RestyledCell` | internal/xterm/serialize_addon.go:501-548 | What the writer adds for an empty cell on another background leaves the cells before it shown and the terminal drawing in its background. |
| `SerializeReplayRows.TailDrawn` | internal/xterm/serialize_addon.go:271-277 | At the end of a row the terminal shows all of it, its empty end in the background that it has. |
| `SerializeReplayRows.CellsDrawn` | internal/xterm/serialize_addon.go:501-571 | After any number of cells of a row, whatever their backgrounds, the terminal shows those before the empty cells still pending and draws in the style written last. |
| `SerializeReplayRows.RowEnded` | internal/xterm/serialize_addon.go:271-367 | What is written between two rows leaves the terminal ready for the next, with the same attributes. |
| `SerializeReplayScreen.RestIsEmpty` | internal/xterm/serialize_addon.go:573-587 | The writer stops behind the last row that is not empty in the background of the cell before it, or with scrollback behind the last; the positions noted are the empty end of that row. |
| `SerializeReplayScreen.CursorMoved` | internal/xterm/serialize_addon.go:597-619 | The final movement reaches the cursor exactly if it is not behind the last column, nor leaves from there, except in place or to column 0. |
| `SerializeReplayScreen.NotedStyle` | internal/xterm/serialize_addon.go:501-635 | The style that the writer notes at the end looks like the one the cells lead to: a character needs its own, an empty cell only its background. |
| `SerializeReplayScreen.ReplayRebuilds` | internal/xterm/serialize_addon.go:215-635 | Replaying rebuilds every cell with its background, every wrap mark and the split into scrollback and viewport exactly if row 0 is unwrapped, no wrapped row follows an empty one (with one row: one not full), no empty cell without a background stands below a coloured row end in the first row scrolled in or in column 0 behind a forced wrap, and the rows not written have no background; the cursor comes back under its own exact condition, the style exactly if the difference from the one in use can be expressed. |
| `SerializeReplayScreen.EmptyWrapIsLost` | internal/xterm/serialize_addon.go:343-358 | A screen whose second row continues an empty first one is not rebuilt. |
| `SerializeReplayScreen.ScrolledRowIsStained` | internal/xterm/serialize_addon.go:280-290 | A coloured row above the first row scrolled in: that row comes back coloured. |
| `SerializeReplayScreen.ForcedWrapStains` | internal/xterm/serialize_addon.go:343-358 | A row with a coloured end that wraps into an empty cell: the cell comes back coloured. |
| `SerializeReplayScreen.ColouredRestIsLost` | internal/xterm/serialize_addon.go:573-587 | Two empty rows of one background: the second comes back without it. |
| `SerializeReplayScreen.CursorMissesColumn` | internal/xterm/serialize_addon.go:597-619 | A full row with the cursor in its last column: the cursor comes back elsewhere. |
| `SerializeReplayScreen.PaletteIsLost` | internal/xterm/serialize_addon.go:383-431 | A current colour of the palette of 256 with index 3 does not come back. |
| `SerializeReplayWire.TextParses` | internal/xterm/parser.go:336-526 | The text of a serialized screen is parsed into the pieces it was made of. |
| `SerializeReplayWire.SerializedIsValid` | internal/xterm/serialize_addon.go:215-635 | Everything the serializer writes for a printable screen is text that the parser takes apart. |
| `SerializeReplayWire.TextRebuildsScreen` | internal/xterm/serialize_addon.go:45-72 | Serializer, parser and handlers together rebuild the screen exactly if it can be rebuilt, and put cursor and style back under their conditions. |
| `SerializeReplayBytes.ScreenOfStream` | internal/xterm/inputhandler.go:337-370 | For any bytes, cut anywhere, the screen depends only on the code points the decoder yields. |
| `SerializeReplayCounts.OutputErrors` | internal/xterm/serialize_addon.go:215-635 | What is written for a screen holds no more replacement characters than the screen. |
| `SerializeReplayCounts.ShownErrors` | internal/xterm/inputhandler.go:390-520 | A terminal shows no more replacement characters than it has been given. |
| `SerializeReplayBytes.CutIsNotRebuilt` | internal/xterm/inputhandler.go:337-370 | A screen that loses a U+FFFD to a chunk boundary is not rebuilt. |
| `SerializeReplayBytes.BytesRebuildScreen` | internal/xterm/inputhandler.go:337-370 | From bytes to screen: encoded, cut anywhere, decoded, parsed and drawn, a serialized screen is rebuilt exactly if it can be and no cut goes through a U+FFFD; then cursor and style come back under their conditions. |

## Left out

- `reflowSmaller` over a whole buffer (which groups it visits, rows popped below the cursor, insertion of the new
  rows): only the copy within a group is modelled. It also fails on a group without any filled cell.
- The combined-character and extended-attribute side maps of a line; cells are the three words only.
- Printing of zero-width and wide characters, insert mode, character sets, origin mode, autowrap off: `Screen` prints
  characters of width one into a full-height scroll region. Reflow and serialization handle wide cells as the code does.
- Wide cells, underline styles and colours and hyperlinks in the replay theorems; the writer
  itself is modelled with them, except that cells carry no extended attributes.
- Alternate buffer, modes and scroll region in the serializer's output, and limiting it to part of the scrollback.
- Control functions other than those named; handlers are called by identifier, not looked up in a registry.
- `windowsPty`, which adds lines at the bottom instead of taking them from the history.
- A parser error handler that aborts the call: the default one never does.
- Insertion and deletion events, markers, dirty rows, tab stops, saved cursor beyond its row.
- PTY, WebSocket, WebRTC, HTTP, configuration and logging; sendJSON and the order of channels on the wire.
- Real JSON: a message has an abstract marshalled length of at most 514 + 6 bytes for each byte of data.
- The AEAD is ideal: a sealed text opens under its own key and nonce only, and the transport cannot seal. Key exchange
  and key derivation are not part of the model.
- Clocks, timers and goroutine scheduling: times are parameters, interleavings are sequences of atomic steps.
- The mutable segment object inside the batcher's map is a value that is replaced; rows in `Screen` are values, while
  `BufferService`, `RegionLines` and the reflow modules work on row objects.
- Colour and flag bits are fields of records, not bits of a word; indices and counters are unbounded except for parser
  parameters, identifiers and message numbers.
- Events: a handler that receives a run of codes is modelled as one event for each code.
- GetLinesToRemove: takes the lines of the ring in order, read out once, instead of reading the ring by index.
- ReflowLarger: the groups that are re-wrapped must be well formed (wide characters whole), which printing over the half
  of a wide character can break.
- WidenColumns: the same, for all lines.
- GrowGroup: says nothing of rows that do not belong to the group's text; those are reported as removable.
- ShrinkGroup: requires a group with at least one logical cell and filled wide cells, because the code does.
- ReplayRebuilds: cells are empty ones with any background or characters of width one, not dim, underlined at most singly,
  in palette modes that fit their indices.
- BytesRebuildScreen: the screens of `ReplayRebuilds`, without U+FEFF, which the decoder never delivers.
- HandleAck: acknowledgements are handled one at a time and never for chunks not sent; the transfer they belong to is given,
  not looked up by its identifier.
- OutputRuns.StepKeepsInv: one writer for each session, as sessions have.
- AcceptedInOrder: fewer than 2^64 sends, after which numbers repeat (`NumbersRepeatAfterAll`).
- SealAt: the callback that takes the snapshot is replaced by the value it returned; that it runs under the batcher's lock
  is a step of `OutputRuns`.
- ExactlyOnceAcrossSnapshot: write H must not be Added after the snapshot, without which it is false
  (`SnapshotIsRightExactly` has both directions).
- RunKeepsSealed: the same condition.
- SealedWritesAreOut: the same condition.
- SendFile: leaves out cancellation, errors in reading the file and the final frame with the checksum.
- BufferService.Buffer.Resize: keeps the number of columns (`WidenColumns` has the other case) and leaves out the cap of
  the list's length at MaxBufferSize.
- BufferLines.BufferLine.Resize: leaves out the side maps and the result that asks for a later clean-up.
- GrowRows: without `windowsPty`.
- FillViewportRows: fills an empty list only, with default cells, as after a reset.
- SetScrollRegion: the cursor goes to the top left corner of the screen, not of the region, which is where origin mode would
  put it.
- CopyCellsFrom: without the side maps.
- SetCell: without the side maps.
- CopyFrom: without the side maps.
- Clone: without the side maps.
- ReplaceCells: without the mode that respects protected cells.
- Parse: without the abort by an error handler and without looking handlers up.
- Parser.EscapeSequenceParser.Reset: without the OSC, DCS and APC sub-parsers and the join state.
- HandleEvents: characters of width one, a full-height scroll region, and the control functions named.
- AllFit: that the units fit if the chunks do takes a measure that no part exceeds; a character cut in half exceeds it, as
  each of its bytes is replaced (`PartsCanBeLonger`).
- PrintAll: characters of width one, without character sets, insert mode or autowrap off.
- SerializeRows: without ranges and the guards against a resize in between.
- Serialize: without the limit on scrollback, the alternate buffer, modes and the scroll region.
- SerializedIsValid: the screens of `ReplayRebuilds`, holding printable characters.
- TextRebuildsScreen: the same screens.
- SafeOrder: `CopyCellsFrom` promises nothing for overlapping copies in the wrong direction; no caller makes one.
