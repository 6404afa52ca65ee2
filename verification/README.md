# A foosball table in Dafny

A verification project beside the foosball tracker: it models the parts of the system in which
many small steps have to add up, and proves what they add up to.

- **OpenMAX IL client** (`IlEvents`, `IlPool`, `IlClient`, `IlProtocol`, `IlWaits`, `IlBuffers`). A fixed
  pool of 100 event cells is spliced between one spare list and the event lists of the
  components; buffer headers queue up behind each component. `IlClient` is the linked code, one
  method for each locked section; `IlPool` proves that moving cells conserves them; `IlEvents`
  says what each operation means for the list as a sequence; `IlProtocol` interleaves event
  handler, waits and removals step by step and proves that no wake-up is lost; `IlWaits` says what
  that means for each kind of event, flag and return code. `IlBuffers` is the
  same for the buffer queues, with the order per port as its subject.
- **Recorder** (`EncoderRing`, `SegmentRecorder`). Circular mode is a byte ring with a second
  ring of I-frame positions, proved against the unbounded stream of all bytes received and the
  stream offsets of its I-frames; segment mode is proved against the stream it cuts into files.
- **Tracker** (`PixelBuffers`, `FieldAnalysis`, `FieldRectangle`, `BallAnalysis`, `GoalProtocol`,
  `GoalRuns`). The pixel buffers between GL thread and analysis thread, for any ring size and
  any interleaving; finding field and ball in a frame; who scored; and the goal, SAVE and FAST
  messages over whole runs of frames.
- **Web proxy** (`WebSocket`). The frames of RFC 6455 that the server writes and reads.

## How it is modelled

- Pointers to event cells are indices into the array of cells that the client embeds; the null
  pointer is -1. Buffer headers are objects linked through `pAppPrivate`.
- The header that defines event, command and error numbers is not part of this model; the
  proofs use only that they differ.
- `vc_assert` is taken as compiled out: an event handler that finds no spare cell goes on
  without one.
- Threads are sequences of atomic steps: one locked section, one flag wait, one semaphore
  operation or one copied row each. All components of a client share its lock.
- `float` is `real`. Where the code compares a speed, which contains a square root, with a
  limit, both sides are squared (`GoalProtocol.FasterMeans`). Conversions to `int` cut towards zero.
- Images are rows of pixels in raster order; a byte of the encoded stream is an opaque value.

## Where code and documentation differ

- `ilclient.h` promises that a failed wait for an event has removed no events. The wait itself
  has not (`IlProtocol.WaitContracts`); but handler calls that arrive meanwhile drop duplicates
  (`IlProtocol.ShrunkenListWitness`).
- An event that finds no spare cell is lost although its flags go up, so a wait wakes and finds
  nothing. `IlClient.Client.EventHandler` says exactly when, `IlClient.LostEventWitness` does
  it; the step system allows it at any time (`room` of `Deliver`).
- A disk-full or file-size error ends a command like any other but is queued without a flag, so
  a wait that is already asleep sleeps on (`IlProtocol.SilentErrorWitness`).
  `IlProtocol.NoLostWakeup` excludes exactly these two kinds and
  `IlProtocol.SilentErrorIsMissed` shows that the exclusion is exact.
- Two further things the waits rely on without saying so are conditions of the step system.
  A component is watched by one command wait at a time: `IlProtocol.OverwrittenRelatedIsMissed`
  says which values of `related` wake a wait, and in `IlProtocol.OverwrittenRelatedWitness` two
  waits begin on one component and the first misses its failure. And an error removed from
  under a wait takes down the flag of all errors, those of the watched component included:
  `IlProtocol.RemovedErrorIsMissed` says exactly when that does harm and
  `IlProtocol.HarmlessIsExact` that only harmless removals are steps;
  `IlProtocol.RemovedErrorWitness` and `IlProtocol.RemovedForwardedWitness` are runs that end in
  a harmful one.
- The buffer getters do not reset `prev` between passes. `IlBuffers.BufferQueue.GetPass` says
  exactly when that corrupts the queue; with one consumer for each component it never happens,
  with two the same buffer can be handed out twice (`IlBuffers.TwoConsumers`).
- The guard of the I-frame eviction is tested before the loop only. The loop stops inside the
  index exactly when an entry survives (`EncoderRing.LoopStopsExactlyAtSurvivors`), so this is a
  precondition of `EncoderRing.FrameIndex.Evict`, with `EncoderRing.NoSurvivorWitness` a
  recording that violates it.
- The guard exempts a lone entry, which is kept even when its frame is overwritten
  (`EncoderRing.LoneEntryWitness`), but not an empty index, for which the loop runs on
  (`EncoderRing.EmptyIndexWitness`). For chunks that fit and an index with room
  `EncoderRing.Copes` is the condition on the recording that rules out these cases and nothing
  else (`EncoderRing.CopesIsExact`).
- A saved clip is one piece of the stream exactly when the oldest I-frame lies at or behind the
  write pointer; otherwise older bytes follow (`EncoderRing.CircularRecorder.Save`,
  `EncoderRing.NotOnePieceWitness`).
- Slots of the history ring that were never written read as the origin, which is bar 1.
  `GoalProtocol.ScorerIsReal` says exactly when they decide who scored, and
  `GoalRuns.UnwrittenSlotsRun` is a game in which they do.
- When the readout texture cannot be locked the tracker still hands the slot to the analysis,
  with the new type and the old contents: that is what counts as sent in `PixelBuffers`.

## Model

| member | source | states |
|---|---|---|
| IlEvents.FirstMatch | src/player/libilclient/ilclient.c:414-421 | the scan stops at the first event of the list that matches, or at its end: no event in front of the result matches |
| IlEvents.DedupKeepsFirstOccurrences | src/player/libilclient/ilclient.c:1425-1451 | the two nested loops keep exactly those events that no earlier event of the list has the same (eEvent, nData1, nData2) as, in their order; the reference is built from the other end of the list |
| IlEvents.DedupSound | src/player/libilclient/ilclient.c:1425-1451 | after the loops no two events have the same key, and nothing new is in the list |
| IlEvents.DedupKeepsKeys | src/player/libilclient/ilclient.c:1425-1451 | no key is lost: a key is in the list afterwards if and only if it was there before |
| IlEvents.DedupFixpoint | src/player/libilclient/ilclient.c:1425-1451 | the loops change nothing if and only if the keys were distinct already |
| IlEvents.HandlerEstablishesTailDistinct | src/player/libilclient/ilclient.c:1425-1615 | whatever the list was, after a handler call everything behind its newest event has distinct keys |
| IlEvents.TailDistinctAfterRemoval | src/player/libilclient/ilclient.c:416-431 | taking any one event out of such a list leaves such a list |
| IlEvents.QueuedIsAnnounced | src/player/libilclient/ilclient.c:1456-1598 | the flags raised with an event are those that can be read back off the stored event |
| IlEvents.SameKeySameMeaning | src/player/libilclient/ilclient.c:1431-1433 | events the handler takes for duplicates match the same waits and belong to the same flags |
| IlEvents.DedupKeepsMatches | src/player/libilclient/ilclient.c:1425-1451 | dropping duplicates never drops what a wait looks for: a match is there afterwards if and only if one was there before |
| IlEvents.HandledPresent | src/player/libilclient/ilclient.c:1425-1615 | after a handler call a wait finds a match if and only if one was there before or the new event is one, is not masked and had room |
| IlEvents.CommandPassContract | src/player/libilclient/ilclient.c:1199-1252 | one locked pass of the command wait removes the first completing event and returns 0 for a completion and for the error that the state was the same, -1 for any other, or returns -2 having removed nothing while the other component has a command-ending error, or goes to sleep when neither is there |
| IlPool.MovedIsPool | src/player/libilclient/ilclient.c:423-432 | unlinking any cell of any list and pushing it on another keeps every list acyclic, each cell in one list, and all 100 accounted for |
| IlPool.MovedOtherLists | src/player/libilclient/ilclient.c:423-432 | such a move between the spare list and a component leaves the events of all other components alone |
| IlPool.NewListIsPool | src/player/libilclient/ilclient.c:307 | a new component brings an empty list and disturbs nothing |
| IlPool.ListAcyclic | src/player/libilclient/ilclient.c:423-432 | following next never comes to a cell twice |
| IlPool.PoolIsPartitioned | src/player/libilclient/ilclient.c:76-82 | each of the 100 cells is in exactly one of the spare list and the component lists, and once only |
| IlClient.Component.constructor | src/player/libilclient/ilclient.c:303-315 | a new component has an empty list, no flags, no related component, and the pool stays a pool |
| IlClient.Client.constructor | src/player/libilclient/ilclient.c:174-182 | all 100 cells end up in the spare list, marked unused |
| IlClient.Client.Scan | src/player/libilclient/ilclient.c:414-421 | the walk along next ends at the cell of the first matching event, with the cell before it in prev |
| IlClient.Client.Recycle | src/player/libilclient/ilclient.c:423-432 | bridging over a cell and pushing it on the spare list removes just that event and gives exactly that cell back |
| IlClient.Client.RemoveEvent | src/player/libilclient/ilclient.c:406-450 | 0 if and only if an event of that kind and data, unless ignored, is on the list: then the first one is gone, its cell is spare and the flag of an error or configuration change is taken down; otherwise nothing has changed |
| IlClient.Client.ReturnEvents | src/player/libilclient/ilclient.c:682-693 | the whole list goes back to the spare list, cell for cell, and flags stay as they are |
| IlClient.Client.HasEvent | src/player/libilclient/ilclient.c:1128-1131 | the look into the list that precedes blocking finds an event exactly when there is one |
| IlClient.Client.CommandWaitPass | src/player/libilclient/ilclient.c:1199-1252 | a locked pass on the linked lists does what the pass on values does, and conserves cells |
| IlClient.Client.PurgeAfter | src/player/libilclient/ilclient.c:1429-1448 | the inner loop drops exactly the later events keyed like the current one and returns their cells |
| IlClient.Client.RemoveDuplicates | src/player/libilclient/ilclient.c:1425-1451 | the nested pointer loops turn the list into its first occurrences and return every dropped cell |
| IlClient.Client.Enqueue | src/player/libilclient/ilclient.c:1601-1614 | the top spare cell, filled in, becomes the head of the component list |
| IlClient.Client.Announce | src/player/libilclient/ilclient.c:1456-1598 | the flags raised on the component and on its related component for every kind of event, and whether the event is to be queued: a masked error is not |
| IlClient.Client.EventHandler | src/player/libilclient/ilclient.c:1423-1616 | for any component and any state of the pool: duplicates out, flags up, the event at the head of the list unless masked; with no spare cell once the duplicates are gone the event is lost although its flags are up; cells conserved |
| IlClient.LostEventWitness | src/player/libilclient/ilclient.c:1453-1601 | 100 different events are queued on a component, then a command completes: the flag is up and the event is nowhere |
| IlClient.Client.OtherEventsKept | src/player/libilclient/ilclient.c:423-432 | what the operations on one component leave alone: the events of every other |
| IlProtocol.StepKeepsInv | src/player/libilclient/ilclient.c:1111-1259 | every atomic step of handler, waits, removals, returns and mask changes, in any state, keeps the invariant that ties lists, flags and waits together |
| IlProtocol.LeavingKeepsInv | src/player/libilclient/ilclient.c:1255-1258 | a command wait clears related on its way out, whatever it returns |
| IlProtocol.ReachableInv | src/player/libilclient/ilclient.c:1111-1259 | the invariant holds at the end of every interleaving of any length, for any number of components |
| IlProtocol.NoLostWakeup | src/player/libilclient/ilclient.c:1179-1259 | in every interleaving, if a command wait is asleep with none of its flags up then no completion and no ending error is in its own list, except the two kinds of error queued without a flag, and no ending error is in the other component's list |
| IlProtocol.CompletionIsFlagged | src/player/libilclient/ilclient.c:1456-1571 | an event that ends a supported command raises a flag of that wait's mask if and only if it is not a disk-full or file-size error |
| IlProtocol.SilentErrorIsMissed | src/player/libilclient/ilclient.c:1546-1553 | a command-ending error that arrives at a sleeping wait is queued without waking it if and only if it is one of these two kinds |
| IlProtocol.OverwrittenRelatedIsMissed | src/player/libilclient/ilclient.c:1193-1256 | whatever related of the watched component has been made to name, its failure raises a flag of the sleeping wait if and only if it names that wait's component |
| IlProtocol.RemovedErrorIsMissed | src/player/libilclient/ilclient.c:438-445 | after an error has been removed from under a sleeping command wait, with one component or two, the wait misses nothing if and only if another of its flags is up, or only silent errors are left on its own list that could complete the command and no failure is on the watched list |
| IlProtocol.HarmlessIsExact | src/player/libilclient/ilclient.c:416-445 | what is asked of removals under any kind of wait is exactly what keeps the invariant |
| IlProtocol.SilentErrorWitness | src/player/libilclient/ilclient.c:1546-1553 | a run from the start that ends asleep with a disk-full error queued that ends the command |
| IlProtocol.OverwrittenRelatedWitness | src/player/libilclient/ilclient.c:1193-1194 | a run, then a second wait on the same component begins and takes related over: the failure of that component goes unheard by the first |
| IlProtocol.RemovedErrorWitness | src/player/libilclient/ilclient.c:438-445 | a run with two ending errors: removing one leaves the wait asleep and the other queued |
| IlProtocol.RemovedForwardedWitness | src/player/libilclient/ilclient.c:438-445 | a run in which the removed error has nothing to do with the command, and the flag it takes down stood for the failure of the watched component |
| IlProtocol.ShrunkenListWitness | src/player/libilclient/ilclient.h:845-849 | a run in which an event wait times out, has removed nothing, and the list is nevertheless shorter |
| IlProtocol.NoLostWakeupForEvent | src/player/libilclient/ilclient.c:1111-1166 | an event wait asleep with none of its flags up has no matching event, error or configuration change in its list that raises one of its flags |
| IlProtocol.WaitContracts | src/player/libilclient/ilclient.h:845-851 | in every interleaving: an event wait that returned 0 has itself removed exactly one event and that event matches, one that returned a negative value has removed none; a command wait has removed exactly one completing event on 0 and -1, none on -2, and related no longer names the component |
| IlProtocol.ReturnsForReason | src/player/libilclient/ilclient.h:845-852 | in every interleaving, at the moment a wait is decided: 0 with the first matching event removed and the flag of an error or configuration change down, -1 on a time-out with no flag up, -2 with an error listed or flagged and its flag down, -3 after a configuration change with no match on the list; a command wait with its first completing event removed, or -2 with an ending error on the other list and none of its own |
| IlProtocol.ListsStayDistinct | src/player/libilclient/ilclient.c:1425-1451 | in every interleaving the list of every component has distinct keys behind its newest event |
| IlWaits.FlagsAfterHandler | src/player/libilclient/ilclient.h:156-198 | a handler call leaves up exactly the flags that were up and those documented for the event, flag by flag and with the masked and the silent errors written out |
| IlWaits.FlagsElsewhere | src/player/libilclient/ilclient.c:1486-1487 | on any other component a handler call sets at most the error flag, exactly on the related one and for an error that ends a command |
| IlWaits.QueuedEvent | src/player/libilclient/ilclient.c:1491-1522 | what is queued, field by field, and that masked errors and events without room are not |
| IlWaits.DuplicatesAreIndistinguishable | src/player/libilclient/ilclient.c:1431-1433 | the handler takes two events for duplicates if and only if no wait can tell them apart |
| IlWaits.CommandReturns | src/player/libilclient/ilclient.c:1218 | in every interleaving: a command wait that returned 0 removed the completion of its own command and parameter, or the error that the state was the same; -1 a command-ending error of another kind, or the command was not one of three |
| IlWaits.SleeperReturns | src/player/libilclient/ilclient.c:1199-1258 | from any run in which a command wait sleeps: when its completion, or an unmasked error that ends the command, arrives, three steps later it has returned 0 or -1 accordingly with that very event removed |
| IlWaits.CommandWaitFlags | src/player/libilclient/ilclient.c:1182-1190 | the three commands that are waited for and the two flags of each |
| IlWaits.WaitTakesDown | src/player/libilclient/ilclient.c:1111-1252 | a step of a wait takes down only flags of its mask, the error and the configuration flag, and waking takes down exactly its mask |
| IlWaits.EventReturnsZero | src/player/libilclient/ilclient.c:1118 | in every interleaving: what an event wait that returned 0 has removed is of the kind asked for, and of the data asked for unless to be ignored |
| IlWaits.TryFinds | src/player/libilclient/ilclient.c:1118 | in every interleaving: a try returns 0 if and only if such an event is on the list |
| IlWaits.SleeperMissesNone | src/player/libilclient/ilclient.c:1456-1598 | in every interleaving an event wait asleep with none of its flags up has on its list no event it was called for, for each kind of event whose documented flag it asked for: state, port, flush and mark commands, end of stream, port settings, buffer mark, configuration and unmasked errors |
| IlBuffers.TakeFirst | src/player/libilclient/ilclient.c:1290-1307 | taking the first buffer of a port takes the head of that port's sub-queue and leaves the sub-queues of all other ports as they are |
| IlBuffers.PerPortFifo | src/player/libilclient/ilclient.c:1283-1315 | over any mix of callbacks and gets, for each port handed out plus queued is completed, in order, and as multisets nothing is lost or handed out twice |
| IlBuffers.FifoFromTheStart | src/player/libilclient/ilclient.c:1653-1739 | from an empty queue each port's buffers are handed out in completion order |
| IlBuffers.BufferQueue.BufferDone | src/player/libilclient/ilclient.c:1663-1677 | the walk to the end of the linked headers appends the buffer and leaves a well-formed list |
| IlBuffers.BufferQueue.GetPass | src/player/libilclient/ilclient.c:1288-1307 | one pass unlinks the first buffer of the port; a prev left over from an earlier pass does harm exactly when the head of the list is of this port, and then the buffer handed out is still the head of the list |
| IlBuffers.BufferQueue.NextPass | src/player/libilclient/ilclient.c:1288-1313 | with one consumer the leftover prev is never harmful |
| IlBuffers.BufferQueue.GetBuffer | src/player/libilclient/ilclient.c:1283-1315 | the whole getter, blocking or not, with callbacks arriving while it sleeps: it returns the first buffer of the port among everything that arrived and the rest stays queued in order |
| IlBuffers.TwoConsumers | src/player/libilclient/ilclient.c:1285-1307 | two consumers whose passes interleave: the same buffer is handed out twice |
| IlBuffers.NoLostBuffer | src/player/libilclient/ilclient.c:1309-1313 | in every interleaving of callbacks and one consumer, a getter asleep with the flag down has no buffer of its port queued, once every callback has set the flag |
| IlBuffers.SleepersMissNothing | src/player/libilclient/ilclient.c:1663-1679 | the same before that: any such buffer belongs to a callback that has appended it and not yet set the flag |
| EncoderRing.WrittenHolds | src/recorder/RaspiVidBalls.c:1316-1325 | storing a chunk, split at the end of the ring or not, makes the ring hold the end of the longer stream |
| EncoderRing.WritePointerIsMod | src/recorder/RaspiVidBalls.c:1325 | the write pointer is the number of bytes received modulo the ring size |
| EncoderRing.RingRefinesStream | src/recorder/RaspiVidBalls.c:1316-1325 | each of the last min(total, ring size) bytes k of the stream is at position k modulo the ring size |
| EncoderRing.WindowMeansOverwritten | src/recorder/RaspiVidBalls.c:1303-1312 | the loop condition on ring positions holds of a live offset if and only if the next bytes overwrite it, or the frame begins with these very bytes |
| EncoderRing.SurvivingIsSuffix | src/recorder/RaspiVidBalls.c:1303-1313 | eviction drops exactly the entries in front of the first that stays in the ring |
| EncoderRing.LoopStopsExactlyAtSurvivors | src/recorder/RaspiVidBalls.c:1301-1313 | the loop, whose guard is tested only before it, passes every entry up to the write position if and only if none survives |
| EncoderRing.NoSurvivorWitness | src/recorder/RaspiVidBalls.c:1301-1313 | a recording of two I-frames and a chunk no longer than the ring for which no entry stops the loop |
| EncoderRing.CopesIsExact | src/recorder/RaspiVidBalls.c:1291-1314 | for a data chunk that fits, the condition on the recording holds if and only if the eviction comes to an end inside the index and every entry it leaves is still in the ring after the write |
| EncoderRing.LoneEntryWitness | src/recorder/RaspiVidBalls.c:1301-1325 | one I-frame and a chunk that overwrites it: its entry is kept, and the ring counts as wrapped |
| EncoderRing.EmptyIndexWitness | src/recorder/RaspiVidBalls.c:1301-1313 | a chunk before the first I-frame: the guard lets the loop run on an empty index and every slot lies in the window |
| EncoderRing.LastKeyDecides | src/recorder/RaspiVidBalls.c:1285-1313 | a survivor exists if and only if the ring still reaches back to the last indexed I-frame, or to the current one begun earlier |
| EncoderRing.ByteRing.Store | src/recorder/RaspiVidBalls.c:1260-1320 | the two copies write the chunk at the write pointer, the part over the end at the start, and nothing else |
| EncoderRing.ByteRing.Write | src/recorder/RaspiVidBalls.c:1316-1325 | the ring goes on to hold the end of the stream; the wrap flag is raised exactly by a write strictly across the end, and implies more bytes than the ring |
| EncoderRing.FrameIndex.Push | src/recorder/RaspiVidBalls.c:1291-1295 | the entry is added behind the others, which stay as they are |
| EncoderRing.FrameIndex.Evict | src/recorder/RaspiVidBalls.c:1300-1314 | given a survivor the loop ends at the first one, without passing the write position; a lone entry stays |
| EncoderRing.CircularRecorder.constructor | src/recorder/RaspiVidBalls.c:2763-2780 | an empty stream, no entries, no header |
| EncoderRing.CircularRecorder.SaveHeader | src/recorder/RaspiVidBalls.c:1264-1277 | header bytes are appended while they fit in 29, otherwise ignored |
| EncoderRing.CircularRecorder.TrackFrame | src/recorder/RaspiVidBalls.c:1285-1298 | an I-frame chunk indexes where its frame began, not where the chunk lies |
| EncoderRing.CircularRecorder.EvictAndWrite | src/recorder/RaspiVidBalls.c:1300-1325 | after eviction and write every remaining entry still points into the ring |
| EncoderRing.CircularRecorder.EncoderCallback | src/recorder/RaspiVidBalls.c:1258-1325 | the whole callback: stream, index, header, wrap flag and open frame afterwards, for header, side-info and data buffers |
| EncoderRing.FlushedIsStream | src/recorder/RaspiVidBalls.c:2931-2943 | the two-part write of a wrapped ring from a live I-frame is the stream from there on, followed by older bytes unless the frame lies at or behind the write pointer |
| EncoderRing.CircularRecorder.Save | src/recorder/RaspiVidBalls.c:2927-2945 | not flagged as wrapped: header and the last total-mod-size bytes; wrapped: header and one contiguous suffix beginning at the oldest I-frame if and only if that frame lies at or behind the write pointer, and what else it is otherwise |
| EncoderRing.IndexStaysExact | src/recorder/RaspiVidBalls.c:1291-1314 | after indexing and eviction the index is exactly the list of I-frames of the longer stream that stay in the ring |
| EncoderRing.CopesIsAccepts | src/recorder/RaspiVidBalls.c:1283-1314 | whether the recorder can take a chunk is decided by the recording so far |
| EncoderRing.ReachingBackIsEnough | src/recorder/RaspiVidBalls.c:1283-1314 | a ring that always reaches back to the latest I-frame can take every chunk |
| EncoderRing.Record | src/recorder/RaspiVidBalls.c:1258-1325 | a whole such recording of any length: the ring refines all the data received, and the index holds exactly the I-frames still in the ring |
| EncoderRing.FrameStartMeans | src/recorder/RaspiVidBalls.c:1288-1298 | the frame of a chunk begins with a data chunk behind the end of a frame, or with the first one, and no data chunk from there up to it ends a frame |
| EncoderRing.TrackIsRecording | src/recorder/RaspiVidBalls.c:1288-1298 | over any recording the indexed entries are exactly the stream offsets at which the frames of the I-frame chunks begin, one for each such chunk |
| EncoderRing.WrappedMeans | src/recorder/RaspiVidBalls.c:1322-1323 | the ring counts as wrapped if and only if some data chunk has bytes on both sides of a multiple of the ring size |
| EncoderRing.HeaderMeans | src/recorder/RaspiVidBalls.c:1264-1277 | a header of at most 29 bytes is kept whole, and never more than that |
| EncoderRing.PayloadIsData | src/recorder/RaspiVidBalls.c:1264-1325 | header and side-info buffers are not part of the stream, all others are |
| EncoderRing.RecordAndSave | src/recorder/RaspiVidBalls.c:2927-2945 | from the chunks received to the file: the saved file is the header and the stream from the beginning of the earliest I-frame still in the ring if and only if that lies at or behind the write pointer, and what else it is otherwise; where I-frames begin is told from the chunks alone |
| EncoderRing.NotOnePieceWitness | src/recorder/RaspiVidBalls.c:2931-2943 | a recording of five I-frames whose clip is not one piece of the stream |
| SegmentRecorder.Recorder.BreakSegment | src/recorder/RaspiVidBalls.c:1347-1378 | a split, with or without files opening, leaves what was written as it is and in its order; a failed open keeps the old file in use, the number stays in 1..segmentWrap, and no later buffer splits before segmentSize ms have passed |
| SegmentRecorder.Recorder.EncoderCallback | src/recorder/RaspiVidBalls.c:1343-1437 | the callback in segment mode: split decision, then the write to the file now in use, and the abort on a short write |
| SegmentRecorder.FilesConserveStream | src/recorder/RaspiVidBalls.c:1343-1411 | over any run, failed opens included, the files in order of opening concatenate to exactly the non-side-info bytes in order of arrival |
| SegmentRecorder.NoAbortNoLoss | src/recorder/RaspiVidBalls.c:1433-1436 | if no abort was raised every non-side-info buffer was written whole |
| SegmentRecorder.AbortMeans | src/recorder/RaspiVidBalls.c:1433-1437 | over any run an abort is raised if and only if a write that was to be made was cut short |
| SegmentRecorder.FilesConserveVectors | src/recorder/RaspiVidBalls.c:1394-1406 | the motion-vector files conserve the motion vectors in the same way |
| SegmentRecorder.NoAbortWholeStream | src/recorder/RaspiVidBalls.c:1343-1436 | without an abort the files concatenate to the whole data of all non-side-info buffers |
| SegmentRecorder.RecordAll | src/recorder/RaspiVidBalls.c:1343-1437 | the recorder object driven through any sequence of buffers and split requests is that run, with its files so conserved |
| SegmentRecorder.SegmentsBeginAtConfig | src/recorder/RaspiVidBalls.c:1339-1367 | each file after the first begins with a CONFIG buffer: the files before it hold exactly what had arrived before that buffer, and the bytes of that buffer head the file |
| SegmentRecorder.SegmentNumberWraps | src/recorder/RaspiVidBalls.c:1352-1356 | with a wrap point the segment number stays in 1..segmentWrap once there |
| SegmentRecorder.SplitsAreSpaced | src/recorder/RaspiVidBalls.c:1343-1349 | without splitWait successive splits are more than segmentSize ms apart, also when opening failed; with no segment size there are none |
| SegmentRecorder.SplitsExactly | src/recorder/RaspiVidBalls.c:1343-1390 | a CONFIG buffer more than segmentSize ms after the last split, or with a request pending in splitWait mode, does split, with its effect on clock, request, number and files; no other buffer does |
| SegmentRecorder.FirstBuffer | src/recorder/RaspiVidBalls.c:1243-1244 | the first buffer starts the clock and does not split |
| SegmentRecorder.SegmentsAreCounted | src/recorder/RaspiVidBalls.c:1352-1356 | without a wrap point segments are numbered consecutively |
| SegmentRecorder.EverySplitOpens | src/recorder/RaspiVidBalls.c:1358-1367 | if every file can be opened, every split begins one |
| PixelBuffers.StepKeepsInv | src/tracker/core.cpp:412-488 | every step of either thread, in any state, keeps counts, indices and contents consistent, for any ring size |
| PixelBuffers.SlotsAreSafe | src/tracker/core.cpp:440-488 | in every interleaving the slot being filled is neither the slot being analysed nor one waiting, and counts plus held slots equal the ring size |
| PixelBuffers.AnalysesAreFifo | src/tracker/core.cpp:412-488 | in every interleaving the k-th analysis sees type and rows of the k-th image sent, and lags by at most the ring size |
| PixelBuffers.NeverStuck | src/tracker/core.cpp:412-488 | in every interleaving every access is in bounds and one of the threads can go on |
| PixelBuffers.Pipeline.constructor | src/tracker/core.cpp:345-355 | all slots empty, both indices 0 |
| PixelBuffers.Pipeline.SendBufferToAnalysis | src/tracker/core.cpp:440-488 | the sender's code, with or without the lock on the texture, is exactly this sequence of the atomic steps: claim, one copy for each row, notify |
| PixelBuffers.Pipeline.AnalyseNext | src/tracker/core.cpp:415-434 | a turn of the analysis thread is exactly this sequence of the atomic steps, two passes over the rows for a ball buffer and one for a field buffer |
| FieldAnalysis.Sums | src/tracker/analysis.cpp:416-436 | each row sum and column sum is that of the pixels above 20, and both kinds add up to totalValue |
| FieldAnalysis.RowSumPixel | src/tracker/analysis.cpp:428-434 | a pixel counts by its value if that is above 20 and otherwise not at all |
| FieldAnalysis.PeakRange | src/tracker/analysis.cpp:467-479 | first and last index above half the mean, 0 and 0 if there is none |
| FieldAnalysis.PeakHoldsMajority | src/tracker/analysis.cpp:462-493 | the range holds strictly more than half of a positive total |
| FieldAnalysis.SumsSwap | src/tracker/analysis.cpp:428-436 | a block of columns weighs the same summed by columns or by rows |
| FieldAnalysis.BoxHoldsCountedPixel | src/tracker/analysis.cpp:462-493 | two such majorities meet: the box contains a pixel above 20 |
| FieldRectangle.FindBox | src/tracker/analysis.cpp:415-493 | the box on any image: minima not above maxima, the two ranges above half the mean, and a counted pixel inside if the image has one |
| FieldRectangle.DetectedIsSpan | src/tracker/analysis.cpp:525-565 | after margins, widening and one-sided clamping the interval is inside [-1,1], not empty, and still covers the peak |
| FieldRectangle.WidenedMeans | src/tracker/analysis.cpp:543-556 | widening keeps the middle and makes the span 1.143 times as wide |
| FieldRectangle.RectangleConverges | src/tracker/analysis.cpp:567-571 | while the box stays the same each end of the rectangle closes in on the span detected, by a factor of 0.8 a frame |
| FieldRectangle.FieldStaysField | src/tracker/analysis.cpp:567-571 | over any number of frames -1 <= min < max <= 1 in both directions, starting from the initial rectangle |
| FieldRectangle.FieldTracker.constructor | src/tracker/analysis.h:12 | the initial rectangle is one |
| FieldRectangle.FieldTracker.ProcessFieldBuffer | src/tracker/analysis.cpp:415-574 | box, screen mapping and average of one frame; the rectangle stays valid and the box is the one the image determines |
| BallAnalysis.FindMax | src/tracker/analysis.cpp:349-366 | the first pixel in raster order of greatest value inside the window, 0 at the origin if all are dark |
| BallAnalysis.SumNear | src/tracker/analysis.cpp:368-381 | weight and both moments of the 11 by 11 neighbourhood |
| BallAnalysis.PixelCounts | src/tracker/analysis.cpp:373-379 | a pixel within five of the centre in both directions counts by its value, times its column and times its row; any other does not count |
| BallAnalysis.DarkImage | src/tracker/analysis.cpp:368-379 | a dark image has no weight |
| BallAnalysis.CentroidIsClose | src/tracker/analysis.cpp:385-400 | around a bright pixel the weight is positive, the mean lies within 5 pixels of it and inside the image, and the screen point strictly inside (-1,1) x (-1,1) |
| BallAnalysis.WindowCoversField | src/tracker/analysis.cpp:343-346 | the rounded window contains every pixel whose centre lies in the field rectangle |
| BallAnalysis.WindowIsTight | src/tracker/analysis.cpp:343-346 | and no pixel whose centre lies more than two pixels outside |
| BallAnalysis.ScreenOfMeans | src/tracker/analysis.cpp:385-400 | centres of pixels are symmetric about the middle of the screen and evenly spaced |
| BallAnalysis.InFieldMeans | src/tracker/analysis.cpp:404-406 | the corners of the field go to (0,0) and (1,1) and its middle to (1/2,1/2), each axis by its own span |
| BallAnalysis.InFieldIsEven | src/tracker/analysis.cpp:404-406 | in between the coordinates are even |
| BallAnalysis.ProcessBallBuffer | src/tracker/analysis.cpp:342-406 | found exactly when the maximum exceeds 100 and the weight 270; then screen and field coordinates of the mean, with all divisions defined |
| GoalProtocol.BarOf | src/tracker/analysis.cpp:120-125 | 0 exactly outside [0,1), otherwise the one of eight equal strips of the field the ball is in |
| GoalProtocol.GoalOfMeans | src/tracker/analysis.cpp:87-96 | 1 exactly for x < 0.1, 2 exactly for x > 0.9, both only for 0.31 < y < 0.69 |
| GoalProtocol.MirroredField | src/tracker/analysis.cpp:87-125 | mirroring x to 1 - x exchanges the goals, and bar b with bar 9 - b |
| GoalProtocol.BarTeamsMean | src/tracker/analysis.cpp:109-130 | bars 1, 2, 4 and 6 are of team 1, the mirrored ones of team 2 |
| GoalProtocol.WithoutTeamKeeps | src/tracker/analysis.cpp:149-150 | dropping a team drops its bars and nothing else |
| GoalProtocol.RunAtMeans | src/tracker/analysis.cpp:153-155 | the hit counter reaches 6 at an entry if and only if it and the five before it are equal |
| GoalProtocol.WhoScoredMeans | src/tracker/analysis.cpp:133-164 | the scorer is the bar of the most recent six equal entries once the excluded team's bars are dropped, 0 if there are none |
| GoalProtocol.WhoScored | src/tracker/analysis.cpp:160-163 | a non-zero scorer is one of the eight bars and never of the excluded team |
| GoalProtocol.WhoScoredEarly | src/tracker/analysis.cpp:151-155 | stopping at the sixth equal entry is sound: the rest of the history does not matter |
| GoalProtocol.ScorerIsReal | src/tracker/analysis.cpp:25-29 | slots of the ring never written count as bar 1; they change the scorer if and only if they complete a run of six that the real sightings leave open, and then it is bar 1 |
| GoalRuns.UnwrittenSlotsRun | src/tracker/analysis.cpp:120-164 | a run of 116 frames that reports a goal of bar 1, where the ball was never seen |
| GoalProtocol.FasterMeans | src/tracker/analysis.cpp:200-219 | the squared comparison holds if and only if the speed in km/h, computed with the distance itself, exceeds the limit |
| GoalProtocol.RingPush | src/tracker/analysis.cpp:187-228 | writing at ballCur and advancing keeps the ring equal to the end of the sequence of sightings |
| GoalProtocol.Analysis.GetPlayerWhoScored | src/tracker/analysis.cpp:133-164 | the walk back through the ring, at most min(256, int(2.5 fps)) entries, finds that scorer |
| GoalProtocol.Analysis.SendDelayed | src/tracker/analysis.cpp:173-185 | what the two delay counters send and become |
| GoalProtocol.Analysis.BallFound | src/tracker/analysis.cpp:188-228 | the sighting is recorded and the SAVE and FAST conditions set their counters |
| GoalProtocol.Analysis.BallMissing | src/tracker/analysis.cpp:236-259 | the 16th missing frame after a sighting in a goal cancels the delayed signals and, 1.5 seconds after the last goal or later, reports one |
| GoalProtocol.Analysis.Update | src/tracker/analysis.cpp:166-259 | the whole of a frame on the ring and counters, as messages and new state of the tracker on the unbounded history |
| GoalRuns.RunRemembers | src/tracker/analysis.cpp:187-241 | over any run frame number, history and missing count are those of the frames, never-seen counted from 1000 |
| GoalRuns.GoalMeans | src/tracker/analysis.cpp:241-259 | over any run a goal is sent in a frame if and only if the ball was last seen exactly 16 frames ago, in a goal, and the latest goal is 1.5 seconds old; team and scorer are those of that sighting and history |
| GoalRuns.GoalWhen | src/tracker/analysis.cpp:241-259 | the same on positions: exactly when the last sighting is 16 frames old and has 0.31 < y < 0.69 and x < 0.1 or x > 0.9, and the latest goal is old enough |
| GoalRuns.GoalTeam | src/tracker/analysis.cpp:241-259 | a goal message is for team 1 if and only if that sighting is in the left goal and for team 2 if and only if it is in the right one |
| GoalRuns.GoalsAreSpaced | src/tracker/analysis.cpp:246-247 | any two goals are at least int(1.5 fps) frames apart |
| GoalRuns.OneGoalPerDisappearance | src/tracker/analysis.cpp:241-247 | between any two goals the ball was found |
| GoalRuns.TimerMeans | src/tracker/analysis.cpp:174-185 | a delay counter of k means: triggered k frames ago, and since then neither triggered again nor reset |
| GoalRuns.DelayedMeans | src/tracker/analysis.cpp:174-185 | over any run with a steady delay of T frames SAVE or FAST is sent if and only if it was triggered T+1 frames before, with no trigger and no goal in between |
| GoalRuns.SignalMeans | src/tracker/analysis.cpp:202-245 | what triggers and resets the counters in a frame, in terms of the frames up to it |
| GoalRuns.TriggersMean | src/tracker/analysis.cpp:200-222 | on positions and frames: a SAVE is triggered by a ball seen again within ten frames, faster than 15 km/h, with 0.31 < y < 0.69 and x < 0.3 or x > 0.7; a FAST by any other faster than 30 km/h |
| GoalRuns.NoEarlyTriggers | src/tracker/analysis.cpp:202 | not in the first 100 frames |
| GoalRuns.SaveMeans | src/tracker/analysis.cpp:174-179 | SAVE is the message of the save trigger |
| GoalRuns.FastMeans | src/tracker/analysis.cpp:180-185 | FAST is the message of the fast trigger |
| GoalRuns.GoalCancels | src/tracker/analysis.cpp:173-185 | a goal detected within T frames of the last trigger suppresses that signal for good |
| WebSocket.BigEndianRoundTrip | webproxy/websocket_server.py:281-291 | unpacking a packed length gives it back |
| WebSocket.FromBigEndianFirst | webproxy/websocket_server.py:281-291 | the first byte is the most significant |
| WebSocket.MaskedTwice | webproxy/websocket_server.py:239-243 | the exclusive-or with the repeated key is its own inverse, for any payload, key and starting position |
| WebSocket.MaskedBits | webproxy/websocket_server.py:239-243 | bit by bit: a bit of a payload byte is set in the result if and only if it differs from that bit of the key byte at the position modulo 4 |
| WebSocket.ZeroKey | webproxy/websocket_server.py:239-243 | a key of zeros leaves the payload as it is |
| WebSocket.HeaderAnnounces | webproxy/websocket_server.py:272-291 | the header chosen announces opcode, final bit and length (section 5.2 of RFC 6455) |
| WebSocket.HeaderIsMinimal | webproxy/websocket_server.py:276-291 | no header that announces the same length is shorter |
| WebSocket.FrameRoundTrip | webproxy/websocket_server.py:191-244 | a framed, masked message at the head of the input is delivered as it was and not a byte more is consumed (section 5.3 of RFC 6455) |
| WebSocket.StreamRoundTrip | webproxy/websocket_server.py:176-244 | any list of text, ping and pong messages under any keys is read back as the same list with nothing left over |
| WebSocket.UnmaskedIsRefused | webproxy/websocket_server.py:212-215 | a frame without mask bit, such as the server's own, is refused and the connection ends |
| WebSocket.UnmaskedByFirstBytes | webproxy/websocket_server.py:192-215 | and so are any two first bytes without it, and the end of the input |
| WebSocket.FrameByOpcode | webproxy/websocket_server.py:208-233 | a masked frame of any opcode: text, ping and pong are delivered, continuation and binary are passed over with the payload unread, close and the rest end the connection |
| WebSocket.ReadConsumes | webproxy/websocket_server.py:191-244 | every read consumes at least two bytes unless it ends the connection, so serving any input ends |
| WebSocket.WebSocketHandler.SendText | webproxy/websocket_server.py:272-297 | what goes out for any payload, and that only a length of 2^64 or more is refused |
| WebSocket.WebSocketHandler.Unmask | webproxy/websocket_server.py:240-243 | the loop over the payload applies the key from its first byte on, bit by bit |
| WebSocket.WebSocketHandler.ReadNextMessage | webproxy/websocket_server.py:191-244 | outcome, rest of the input and keep_alive for any input: close, unmasked, unsupported, unknown, cut short |
| WebSocket.WebSocketHandler.Handle | webproxy/websocket_server.py:176-181 | after the handshake the loop delivers exactly the messages of the input up to the end of the connection |

## Left out

- OpenMAX calls, tunnels, state and port changes: the component is an environment that emits events and completes buffers in any order.
- `ilclient_disable_port_buffers`: it takes the address of a link inside the queue and is meaningful only for queues of one port.
- The user callbacks that the handlers invoke after releasing the lock.
- The getters are proved twice over: as code on the linked headers, where what arrives between two passes is given as batches of callbacks, and as steps with the buffer-done flag (`IlBuffers.NoLostBuffer`), where the queue is a sequence.
- Time-outs of the event wait are a step that may be taken while no flag is up, not a clock.
- EncoderRing.FrameIndex.Evict: needs a surviving entry, without which the source's loop runs past the write position.
- EncoderRing.Record: needs `Copes` of every chunk; beyond what that rules out exactly, chunks are no longer than the ring and the index ring never fills, neither of which the source checks.
- The frame sanity log after each circular write, which only reads and may read past the end of the ring.
- Annotation text, the time-stamp file and flushing in the encoder callback; the names of segment files, so also that a wrapped segment number truncates an earlier file of the same name.
- Where the motion-vector files are cut: they are only shown to conserve the motion vectors.
- The maximum-speed statistic and the time-series file of the tracker.
- Screen coordinates of past balls, kept for drawing only.
- Rounding, overflow and NaN of `float`, and overflow of `int`: frames are small enough for the sums to fit.
- IlProtocol.NoLostWakeup: says nothing about a wait for an event whose flag the caller did not ask for; that wait sleeps by design.
- PixelBuffers.NeverStuck: some thread can always go on while both run; joining the analysis thread at shutdown, which may hang, is not modelled.
- The exchange of the two textures in the GL thread, shaders, shared memory calls, sockets, pipes and process start.
- WebSocket handshake, UTF-8 decoding, socket errors and message validation; the payload of continuation and binary frames is left in the input, as the code does.
- The older copy of the recorder (`RaspiBalls.c`), which is not built; command-line parsing; TGA files.
