# Verified model of streamctl

A Dafny model of seven parts of the streamctl program and proofs of what they
promise. `dafny verify dfyconfig.toml` checks the whole project.

| part | files |
|---|---|
| chat message store: a bounded, lazily sorted list that stands for a set | `Ordered`, `ChatMessage`, `ChatStore`, `ChatStoreRuns` |
| process manager: registration, readiness, and waiters on a broadcast channel that is replaced on every change | `ProcessManager`, `ManagerProtocol`, `ManagerOrdering`, `ManagerReadiness`, `ManagerDeclarations` |
| dashboard renderer: a scanline cache of covering images and a canvas where a visible pixel is done | `Transform`, `ScanlineCache`, `PixelWrites`, `Renderer`, `Picture`, `Frame` |
| stream player controller: jitter buffer and playback speed | `PlayerControl`, `PlayerLoop` |
| stream profiles: inheritance and editing | `ProfileInheritance`, `ProfileEditing` |
| ring buffer | `RingBuffer` |
| texts of sink IDs, stream IDs and tag lists | `Texts`, `QualifiedIds`, `TagText` |

Objects that the program updates in place are classes here; each method is proved
against a function of the old state, and the results about whole runs are lemmas
about those functions. `ChatStoreRuns.Replay` and
`PlayerLoop.StreamPlayer.ControllerLoop` drive the objects through runs and end in
the states the lemmas speak of. `Basics` holds what several parts share.

## What does not hold as one would expect

Each of these is proved with an input that shows it or with the exact condition under
which the expected law holds, most with both.

- A query with a count limit of 2^63 or more panics as soon as one message is recent
  enough: the limit becomes negative when it is converted to a signed integer
  (`GetMessagesSince`, `HugeLimitPanics`). The converted integers are those of a
  64-bit machine.
- Messages are told apart by the address of their text and by the representation of
  their time, but ordered by content and instant. Two events that agree up to the name
  and have equal texts at two addresses are not ordered, and their IDs are never looked
  at; nor are two events that hold one instant in two ways, or that differ only in
  fields the comparison does not read. Exactly such twins are affected (`TwinsAreUnordered`,
  `PointerOrderIsValueOrderIffNotTwins`, `TotalIffNoTwins`). A loaded message is a
  twin of the same event received again.
- A message that was added twice survives its removal until a query or a save
  removed the duplicate (`DuplicateSurvivesRemoval`); so does one of two messages that
  share an ID (`RemovedIsGoneIffStoredOnce`).
- A message that waits for readiness can be written after its receiver was
  unregistered, with no declaration since (`LateWriteFollowsRemoval`); what holds of
  every such write is relative to the connection it is written to
  (`GatedWritesFollowReadiness`), and it follows a declaration made since the removal
  exactly when the receiver is still or again registered and declared the type on its
  present connection (`WriteIsOwedIffReceiverIsReady`). A confirmation whose write
  failed is not missed: on a connection that works again later the message is written
  unconfirmed (`FailedConfirmationIsForgotten`). The converse is false: after a failed
  confirmation a later one may have been written, too. When a name re-registers before
  its old registration was removed, the new connection inherits the readiness
  (`ReplacementInheritsReadiness`).
- An image that begins exactly on the centre of a pixel is missed there when the
  list of covering images is served from the cache (`CacheRefinesLookup`,
  `ImageOnCentreIsMissed`).
- A centre that lies exactly on the right edge of an image shows the first pixel of the
  next source row there (`ShowsTheSourcePixel`).
- The last pixel of the canvas and of every source image is left out by the bounds
  tests (`LastCanvasPixelIsNeverDrawn`, `OnePixelImageIsNeverDrawn`). A blank pixel is
  visible after its turn if and only if it is not the canvas's last one and some image
  that covers its centre visibly does so with a source pixel that is not its last
  (`PointIsDrawnIff`); in a finished frame this holds in both directions when no image
  is scaled up, and otherwise the blocks of neighbours may fill it, too
  (`FrameHasNoHole`).
- The wanted speed below the buffer stays below 1 only if the minimum speed does. A
  pending increase of the buffer is committed after the lag was compared with the
  buffer, so the wanted speed can drop at the buffer `b`. When a commit of the whole
  increase adds `c`, it rises with the lag everywhere if and only if `b` is not positive
  or `(catchupMaxSpeed - 1) c l <= (1 - minSpeed) (l - b + 1) (catchupAtMaxLag - b - c + 1 ms)`
  in nanoseconds, where `l` is `b` for a standing position and `b + c` for a moving one
  (`WantedRisesIffNoDrop`). With the default configuration a new player gets, in
  a run of three events, to a tick whose speed is below zero (`ARunDropsTheSpeed`,
  `CommitCanDropTheSpeed`).
- Where the root of a profile hierarchy has a null for a key, the null is kept if no
  profile defines the key; a null of any other profile counts for nothing
  (`MergeTakesTheNearest`, `OnlyTheRootKeepsItsNull`).
- Creating or updating a profile panics on a configuration without metadata, and, if a
  stream is given, on one without platforms (`ProfileCreateOrUpdate`).

## Assumptions

- Critical sections are atomic, and so are writes to one connection, which a lock
  per name serialises. Any write may fail; all do on a connection that broke.
- The ordering on connections assumes strict handover: a name registers again only
  after its old registration was removed. The wake-up properties do not.
- Encoders and decoders are faithful; a YAML document is the map it decodes to, and
  one that is empty or does not decode is no map. File contents are parameters.
- The store is about messages as the values of the eight fields its order reads, that
  is, about histories without twins: equal values are one event, with one address for
  a text, one representation of its time and the same in all other fields. The text
  is never nil.
- Sorting is the library's; any ascending arrangement is the same one
  (`Ordered.SortedArrangementIsUnique`), so the model's own sort stands for it.
- Coordinates, factors and speeds are real numbers, durations unbounded integers. The
  rows and segments of the changed areas are parameters, ascending and inside the
  canvas; the rows of an image are stored without gaps. Where an image has no width or
  no height on the canvas the program converts a float that is not a number; on the
  two common 64-bit architectures the result adds nothing to the offset in the image.
- The player's configuration is fixed. The laws of its speed and buffer, but not its
  creation, are for configurations with a minimal buffer not above the maximal
  one, a maximal buffer that is not negative, a minimum speed above 0 and at most 1,
  and a read timeout that is not negative. Its clock is monotone, the decay factor is
  between 0 and 1, and what the averager returns is arbitrary. So is the result of
  converting a float out of range to an unsigned integer.
- Strings are byte strings, letter case and white space are those of ASCII.

## Model

| member | source | states |
|---|---|---|
| ChatMessage.MsgLessIsStrictTotal | pkg/chatmessagesstorage/sort_and_deduplicate.go:11-40 | the eight-field comparison, with byte-wise string order, is a strict total order on messages as values |
| ChatMessage.TextLessIsByteOrder | pkg/chatmessagesstorage/sort_and_deduplicate.go:18-35 | a text is less exactly when, at the first byte where they differ, it has the smaller byte or has ended |
| ChatMessage.MsgLessIsKeyOrder | pkg/chatmessagesstorage/sort_and_deduplicate.go:11-40 | a message is less exactly when, in the first of the eight keys in which they differ, it has the smaller one: time, type, platform, user ID, slug and name, text, ID |
| EventIdentity.PointerOrderIsValueOrderIffNotTwins | pkg/chatmessagesstorage/sort_and_deduplicate.go:11-40 | comparing events agrees with comparing their values, in both directions and on equality, if and only if the two are not twins: one instant held in two ways, equal texts at two addresses, or a difference only in fields that are not read |
| EventIdentity.TotalIffNoTwins | pkg/chatmessagesstorage/sort_and_deduplicate.go:11-40 | all distinct events of a history are comparable if and only if no two of them are twins |
| EventIdentity.TwinsAreUnordered | pkg/chatmessagesstorage/sort_and_deduplicate.go:11-40 | an event is distinct from, and unordered both ways with, its copy at another address whatever the IDs, its copy with other unread fields, and any event that holds its instant in another way |
| Ordered.SortedArrangementIsUnique | pkg/chatmessagesstorage/sort_and_deduplicate.go:47-49 | two ascending arrangements of the same multiset are the same sequence, so the choice of sorting algorithm cannot show |
| Ordered.LastAreGreatest | pkg/chatmessagesstorage/add_message.go:35-37 | dropping the head of an increasing sequence leaves exactly the k greatest of its elements |
| Ordered.GreatestAbsorbs | pkg/chatmessagesstorage/add_message.go:26-39 | the k greatest of a growing set are determined by the k greatest seen before and the new element |
| ChatStore.CanonicalIsUnique | pkg/chatmessagesstorage/sort_and_deduplicate.go:47-64 | any increasing sequence with the elements of the messages, cut to its last k, is the increasing enumeration of the k greatest distinct messages |
| ChatStore.ChatMessagesStorage.constructor | pkg/chatmessagesstorage/chat_messages_storage.go:20-26 | a new store is empty, not flagged sorted and unchanged |
| ChatStore.ChatMessagesStorage.Deduplicated | pkg/chatmessagesstorage/sort_and_deduplicate.go:52-59 | the loop over a sorted list leaves a strictly increasing one with the same elements |
| ChatStore.ChatMessagesStorage.SortAndDeduplicateAndTruncate | pkg/chatmessagesstorage/sort_and_deduplicate.go:42-65 | the messages become the increasing enumeration of the greatest distinct ones; the flag is set unless there are no messages |
| ChatStore.ChatMessagesStorage.AddMessage | pkg/chatmessagesstorage/add_message.go:19-40 | the whole new state on each of the three paths; the bound and the meaning of the flag are kept |
| ChatStore.ChatMessagesStorage.RemoveMessage | pkg/chatmessagesstorage/remove_message.go:19-37 | the first message with the ID is overwritten by the last one, the sorted flag cleared and the store marked changed; failure exactly when no message has the ID |
| ChatStore.ChatMessagesStorage.Search | pkg/chatmessagesstorage/get_messages_since.go:42-45 | on an increasing list the binary search finds the first message that is not too old |
| ChatStore.ChatMessagesStorage.CorrectIndex | pkg/chatmessagesstorage/get_messages_since.go:57-61 | limits below 2^63 cut to the last messages; from 2^63 on the index is out of range |
| ChatStore.ChatMessagesStorage.FromIndex | pkg/chatmessagesstorage/get_messages_since.go:57-70 | the last limit messages from the index on, or a panic exactly when the limit is at least 2^63 |
| ChatStore.ChatMessagesStorage.GetMessagesSince | pkg/chatmessagesstorage/get_messages_since.go:22-71 | the answer is the last limit messages of a linear filter by time, or a panic exactly when the limit is at least 2^63 and the filter keeps something; the fallback index is unreachable |
| ChatStore.ChatMessagesStorage.Store | pkg/chatmessagesstorage/store.go:17-33 | a changed store is canonicalised and that very sequence is written; an unchanged one is left alone |
| ChatStore.ChatMessagesStorage.Load | pkg/chatmessagesstorage/load.go:17-39 | the file's messages are canonicalised; without a file the store is emptied |
| ChatStore.AddKeepsValid | pkg/chatmessagesstorage/add_message.go:26-39 | an append keeps the length bound and the meaning of the flag on every path |
| ChatStoreRuns.EveryRunStaysValid | pkg/chatmessagesstorage/remove_message.go:26-36 | over every run of all five operations the length is within the bound and the flag implies strictly increasing messages |
| ChatStoreRuns.AddKeepsTheGreatest | pkg/chatmessagesstorage/add_message.go:26-39 | whichever overflow path an append takes, the stored set goes from the k greatest seen to the k greatest seen with the new message |
| ChatStoreRuns.StoredAreTheGreatestEverAdded | pkg/chatmessagesstorage/add_message.go:26-39 | over every run of appends, queries and saves the stored set is the k greatest of all distinct messages ever added |
| ChatStoreRuns.QueryAnswersFromTheGreatest | pkg/chatmessagesstorage/get_messages_since.go:37-70 | after every such run a query answers from the increasing enumeration of the k greatest messages ever added |
| ChatStoreRuns.NotBeforeIsTheFilter | pkg/chatmessagesstorage/get_messages_since.go:42-45 | the filter keeps exactly the messages not older than the time, in order |
| ChatStoreRuns.CanonicalIsIdempotent | pkg/chatmessagesstorage/sort_and_deduplicate.go:42-65 | canonicalising twice is canonicalising once |
| ChatStoreRuns.CanonicalKeepsBoundedSet | pkg/chatmessagesstorage/sort_and_deduplicate.go:42-65 | at most k messages lose nothing but duplicates |
| ChatStoreRuns.StoreKeepsTheSet | pkg/chatmessagesstorage/store.go:21-33 | saving loses no message of a valid store |
| ChatStoreRuns.LoadUndoesStore | pkg/chatmessagesstorage/load.go:31-38 | loading what a changed store wrote, into any store, gives the sequence the saved store holds |
| ChatStoreRuns.ChangedIffAddedOrRemoved | pkg/chatmessagesstorage/remove_message.go:26-36 | after any run of all five operations the store is marked changed if and only if some operation was an append, or a removal of an ID that some stored message had at that point |
| ChatStoreRuns.SaveAndReload | pkg/chatmessagesstorage/store.go:17-33 | for any run: something is written if and only if the run added or removed a message, and loading it into any store gives the saved sequence |
| ChatStoreRuns.RemovalIsSaved | pkg/chatmessagesstorage/remove_message.go:26-36 | loading a file and removing an ID leaves one message fewer with it and a store marked changed, which saves the messages that are left |
| ChatStoreRuns.AddKeepsTheFlagIff | pkg/chatmessagesstorage/add_message.go:26-39 | after an append the list claims to be sorted if and only if the store was full, or it did before and all its messages are older |
| ChatStoreRuns.OthersSetTheFlag | pkg/chatmessagesstorage/sort_and_deduplicate.go:42-50 | after a query, a save or a load it claims so if and only if it did before or there was something to sort; after a removal that took something it never does |
| ChatStoreRuns.MissingFileForgets | pkg/chatmessagesstorage/load.go:25-29 | after a load without a file every query answers nothing |
| ChatStoreRuns.LimitKeepsTheLast | pkg/chatmessagesstorage/get_messages_since.go:57-70 | a limit keeps that many of the last messages, zero keeps all |
| ChatStoreRuns.Replay | pkg/chatmessagesstorage/chat_messages_storage.go:12-26 | the object driven through any run is in the state the lemmas about runs describe |
| ChatStoreRuns.RemoveTakesOneOccurrence | pkg/chatmessagesstorage/remove_message.go:26-36 | one occurrence, the first with the ID, leaves the multiset; nothing changes exactly when none has the ID |
| ChatStoreRuns.RemovedIsGoneIffStoredOnce | pkg/chatmessagesstorage/remove_message.go:26-36 | one message fewer has the ID and as many as before have any other; no message with the ID remains if and only if exactly one had it |
| ChatStoreRuns.TakenIsGoneIffStoredOnce | pkg/chatmessagesstorage/remove_message.go:26-36 | the very message taken is absent afterwards if and only if it was stored once |
| ChatStoreRuns.HugeLimitPanics | pkg/chatmessagesstorage/get_messages_since.go:57-70 | a new store given any message panics when queried for it with any limit of at least 2^63 |
| ChatStoreRuns.DuplicateSurvivesRemoval | pkg/chatmessagesstorage/remove_message.go:26-36 | added twice and removed, a message is still there; with a query in between it is not |
| ProcessManager.Manager.constructor | pkg/mainprocess/main_process.go:73-85 | no connections, no readiness, one open channel |
| ProcessManager.Manager.IsExpectedProcess | pkg/mainprocess/main_process.go:352-361 | true exactly for the expected names |
| ProcessManager.Manager.RegisterConnection | pkg/mainprocess/main_process.go:495-522 | refuses unexpected names; otherwise the connection is entered, a replaced one closed, readiness kept, and the channel replaced and closed once |
| ProcessManager.Manager.SetReady | pkg/mainprocess/main_process.go:524-551 | the type behind at most one pointer becomes ready; a repeated declaration fails, changes nothing and wakes nobody |
| ProcessManager.Manager.UnregisterConnection | pkg/mainprocess/main_process.go:553-566 | the name's connection and readiness go and the channel is replaced and closed once |
| ProcessManager.Manager.CloseChannel | pkg/mainprocess/main_process.go:517-519 | only a channel never closed before is closed |
| ProcessManager.Manager.Look | pkg/mainprocess/main_process.go:427-433 | the critical section of a waiting loop gives the connection exactly when the wait is over, and the current channel |
| ManagerProtocol.NextForgetsNobody | pkg/mainprocess/main_process.go:453-486 | every step of every goroutine keeps: whoever is parked on the open channel waits for something that is not the case |
| ManagerProtocol.NoLostWakeUp | pkg/mainprocess/main_process.go:418-487 | in every reachable state a parked goroutine holds a closed channel or its condition is false, exactly the current channel is open, and none was closed twice |
| ManagerProtocol.SatisfiedWaiterProceeds | pkg/mainprocess/main_process.go:435-486 | whoever is parked while its condition holds can wake, and its next look gets the connection |
| ManagerProtocol.SatisfiedConfirmationProceeds | pkg/mainprocess/main_process.go:418-438 | the same for a handler that is parked before its confirmation |
| ManagerProtocol.ReplacedConnectionIsSilent | pkg/mainprocess/main_process.go:495-522 | on every run, once a name registers again nothing is written to the connection it replaced |
| ManagerOrdering.TablesAreTheHistory | pkg/mainprocess/main_process.go:511-565 | on every run the connection table is the last registration not removed, and the readiness table exactly the types declared since the name's last removal |
| ManagerOrdering.NextStaysOrderly | pkg/mainprocess/main_process.go:323-329 | every step under strict handover keeps the ordering invariant of handlers, readiness, pending writes and history; that declarations are made at all is ReadinessIsCarriedOut |
| ManagerOrdering.GatedWritesFollowReadiness | pkg/mainprocess/main_process.go:385-413 | under strict handover each message that waits for readiness reaches a connection only after its type was declared on it, after a confirmation was written to it unless a write of one failed while the connection worked, and since the last removal of the name if the connection is still registered |
| ManagerReadiness.StrictRunsDeclareWhileJoined | pkg/mainprocess/main_process.go:511-565 | at every point of every run under strict handover, what a name declared since its last removal is what it declared on the connection it is registered with, and nothing if it has none |
| ManagerReadiness.WriteIsOwedIffReceiverIsReady | pkg/mainprocess/main_process.go:385-413 | at every write of a message that waited for readiness its type was declared since the receiver's last removal if and only if the receiver is registered then with a connection on which it declared the type |
| ManagerDeclarations.ReadinessIsCarriedOut | pkg/mainprocess/main_process.go:323-329 | on every run, when a handler is serving again it has declared each type of the last readiness message it received, in order and once: the type itself, or its element for a pointer |
| ManagerDeclarations.ReadinessTakesEffect | pkg/mainprocess/main_process.go:524-551 | on every run all these types are then ready for the name, unless it was removed since |
| ManagerDeclarations.ReadinessGrowsByTheMessage | pkg/mainprocess/main_process.go:323-329 | under strict handover the name's readiness has grown by exactly these types |
| ManagerOrdering.LateWriteFollowsRemoval | pkg/mainprocess/main_process.go:385-413 | a run under strict handover writes a message after its receiver left, with nothing declared since |
| ManagerOrdering.FailedConfirmationIsForgotten | pkg/mainprocess/main_process.go:323-329 | a run under strict handover writes a message on a connection whose only confirmation failed to be written |
| ManagerOrdering.ReplacementInheritsReadiness | pkg/mainprocess/main_process.go:511-520 | a run without strict handover writes a message to a new connection before any confirmation or declaration on it |
| ScanlineCache.CoveringDiffersIffImageBegins | pkg/ximage/transform.go:88-108 | the images covering a point and those covering the points just left of it differ if and only if an image begins there |
| ScanlineCache.SameBetweenBoundaries | pkg/streampanel/dashboard.go:606-629 | between neighbouring boundaries of a row the covering images do not change |
| ScanlineCache.CacheHit | pkg/streampanel/dashboard.go:650-666 | a list served from the cache is that of the images covering the points just left of the current one |
| ScanlineCache.CacheRefinesLookup | pkg/streampanel/dashboard.go:634-669 | for any ascending points of a row, with any gaps, the cached list equals the in-order list of covering images unless it was served from the cache and an image begins right there; exactly then it differs |
| ScanlineCache.ImageOnCentreIsMissed | pkg/streampanel/dashboard.go:650-666 | a concrete row where the cached list misses an image that covers the centre |
| Renderer.Boundaries | pkg/streampanel/dashboard.go:606-629 | the boundary list is strictly increasing and has zero and every edge of the images on the row |
| Renderer.Compact | pkg/streampanel/dashboard.go:619-629 | equal neighbours are dropped in place: strictly increasing, same elements |
| Renderer.LookUp | pkg/streampanel/dashboard.go:650-661 | the loop over all images keeps those that cover the point, in order |
| Renderer.ListAt | pkg/streampanel/dashboard.go:646-666 | one visit refreshes the list exactly when a boundary was crossed and keeps the cache valid |
| Renderer.DrawPixel | pkg/streampanel/dashboard.go:673-727 | the first image of the list with a visible pixel is drawn, as a block if it is the first of the list; every pixel is written at most once |
| Renderer.DrawPoint | pkg/streampanel/dashboard.go:637-728 | a point drawn through the cache is the point drawn by looking up the covering images, unless an image begins on its centre |
| Renderer.DrawSegment | pkg/streampanel/dashboard.go:636-729 | the same for a run of columns |
| Renderer.DrawRow | pkg/streampanel/dashboard.go:599-730 | the same for a row of ascending segments, whatever list is left from the row before |
| Renderer.DrawFrame | pkg/streampanel/dashboard.go:597-730 | every pixel is written at most once, is blank before and visible after, and is not the canvas's last; all others keep their value; with no image beginning on a centre the frame is that of the renderer without a cache |
| Transform.ShowsTheSourcePixel | pkg/ximage/transform.go:88-99 | a covered point shows the source pixel whose part of the rectangle it lies in, columns from left to right, rows from top to bottom and one after the other, unless that is the last or has no alpha |
| Transform.ShowsNothingOutside | pkg/ximage/transform.go:88-94 | a point outside of the rectangle shows nothing |
| PixelWrites.PaintRun | pkg/streampanel/dashboard.go:708-721 | a run fills exactly its blank pixels, never the canvas's last, each at most once |
| PixelWrites.PaintBlock | pkg/streampanel/dashboard.go:702-722 | the rows of a block, also past the canvas edge, fill only blank pixels, each at most once |
| PixelWrites.PaintedIsTheBlock | pkg/streampanel/dashboard.go:702-722 | a block is the given number of runs, one canvas row apart: exactly its blank pixels get the colour, but for the canvas's last |
| PixelWrites.WrittenOnceComposes | pkg/streampanel/dashboard.go:640-645 | writing at most once carries over from parts of a frame to the whole |
| Frame.EraseRow | pkg/streampanel/dashboard.go:576-584 | exactly the pixels of the row's segments lose their alpha |
| Frame.EraseRows | pkg/streampanel/dashboard.go:575-584 | exactly the pixels of the changed areas lose their alpha |
| Frame.EraseAll | pkg/streampanel/dashboard.go:586-588 | every pixel loses its alpha and nothing else |
| Frame.RenderImages | pkg/streampanel/dashboard.go:575-730 | for delta and full updates: from the erasure on every pixel is written at most once and never the last; with no image beginning on a centre the frame refines the one without a cache and has no hole; and when no image is scaled up either, every pixel of the canvas is stated: in the changed areas the colour of the first image that shows at its centre, or blank, elsewhere as before |
| Frame.RenderPicture | pkg/streampanel/dashboard.go:575-730 | an image of the size of the canvas replaces the changed areas: every pixel but the last is that of the image, or blank where the image is |
| Picture.FrameIsPictured | pkg/streampanel/dashboard.go:597-730 | a frame changes no visible pixel and not the canvas's last, leaves no drawable pixel blank that had its turn, and is, when no image is scaled up, exactly the colours of the first images at the blank pixels that had their turn |
| Picture.FrameHasNoHole | pkg/streampanel/dashboard.go:689-728 | a blank pixel that had its turn is drawn if it is not the canvas's last and an image covers its centre with a visible source pixel that is not the image's last; and only then, when no image is scaled up |
| Picture.PointIsDrawnIff | pkg/streampanel/dashboard.go:637-727 | the same in both directions at the turn of the pixel, whatever the scaling |
| Picture.PointShowsTheFirstImage | pkg/streampanel/dashboard.go:646-727 | a blank pixel gets at its turn the colour of the first of all images that shows at its centre, and stays blank when there is none |
| Picture.PointPaintsABlock | pkg/streampanel/dashboard.go:697-727 | at its turn a pixel paints its block if the first image that covers it shows there, and touches no other pixel otherwise |
| Picture.DonePointDrawsNothing | pkg/streampanel/dashboard.go:640-645 | a pixel that is done draws nothing at its turn, not even on others |
| Picture.BlocksFollowEachOther | pkg/streampanel/dashboard.go:697-701 | the blocks of an image that is scaled up follow each other without gap or overlap: n of them take n times the scaling, rounded down |
| Picture.CentreIsTheMiddle | pkg/streampanel/dashboard.go:604 | a pixel is looked up at its middle |
| Picture.NearestSourcePixelShows | pkg/ximage/transform.go:88-99 | an image of any size laid over any whole pixels of the canvas shows, in whole numbers, the source pixel nearest to the middle of each; that is the colour there if no image before it shows |
| Picture.ImageIsCopied | pkg/ximage/transform.go:88-99 | an image with one source pixel for each canvas pixel it is laid over is copied pixel by pixel |
| Picture.OnePixelImageIsNeverDrawn | pkg/streampanel/dashboard.go:689-690 | a visible image of one pixel over the whole canvas shows at every centre by its coordinates and is drawn nowhere |
| Picture.LastCanvasPixelIsNeverDrawn | pkg/streampanel/dashboard.go:708-711 | a canvas of one pixel stays blank under an image whose middle pixel shows at its centre |
| PlayerControl.SlowDownLaw | pkg/streamplayer/stream_player.go:1019-1020 | below the buffer the divisor is positive and the speed rises with the lag between the minimum speed and 1, below 1 if and only if the minimum speed is |
| PlayerControl.CatchUpLaw | pkg/streamplayer/stream_player.go:1052-1055 | from the buffer on the divisor is positive, the speed rises with the lag, is 1 at the buffer and below the maximum up to the largest lag |
| PlayerControl.SettledBounds | pkg/streamplayer/stream_player.go:1002-1018 | committing an increase, in part or whole, keeps buffer and pending increase in bounds and never shrinks the buffer |
| PlayerControl.WantedBelowTheBuffer | pkg/streamplayer/stream_player.go:1001-1020 | the same as SlowDownLaw with the buffer adapted to the lag on the way |
| PlayerControl.WantedFromTheBufferOn | pkg/streamplayer/stream_player.go:1046-1055 | with the commit included the speed rises with the lag from the buffer on and stays below the maximum up to the largest lag |
| PlayerControl.WantedAtTheBuffer | pkg/streamplayer/stream_player.go:1046-1055 | at the buffer the speed is 1 if and only if nothing of a pending increase can be committed |
| PlayerControl.WantedRisesIffNoDrop | pkg/streamplayer/stream_player.go:1001-1055 | for every configuration and state, with a moving or a standing position, the wanted speed rises with the lag everywhere if and only if the buffer is not positive or an inequality holds: what catching up takes off at the buffer after the commit is at most what slowing down takes off just below it |
| PlayerControl.StepOntoTheBuffer | pkg/streamplayer/stream_player.go:1001-1055 | the one step onto the buffer does not go down if and only if that inequality holds |
| PlayerControl.WantedRisesWhenNothingIsPending | pkg/streamplayer/stream_player.go:1001-1055 | with nothing left to commit it rises everywhere |
| PlayerControl.CommitCanDropTheSpeed | pkg/streamplayer/stream_player.go:1046-1055 | with the default configuration a commit of ten seconds makes the wanted speed drop below zero |
| PlayerControl.PartialCommitsLoseNothing | pkg/streamplayer/stream_player.go:813-836 | an increase committed in parts gives the buffer that committing it at once gives, never above the maximum, and while there is room buffer and pending increase together stay the same |
| PlayerControl.HalfTheBufferDecides | pkg/streamplayer/stream_player.go:1002-1017 | of an increase as much stays pending as the lag can still grow until it is half the buffer; the rest is added, up to the maximum |
| PlayerControl.WholeCommit | pkg/streamplayer/stream_player.go:813-836 | a whole commit adds the pending increase up to the maximum and clears it |
| PlayerControl.DecayDropsTheFraction | pkg/streamplayer/stream_player.go:982-986 | the decayed buffer is the product with its fraction dropped, or the minimum if that is more |
| PlayerControl.DecayStaysInRangeIff | pkg/streamplayer/stream_player.go:977-986 | every decay of every buffer in range stays in range if and only if the upper bound is not negative |
| PlayerLoop.TickKeepsBounds | pkg/streamplayer/stream_player.go:876-1095 | one tick, whatever it finds, keeps buffer, pending increase and the catch-up speeds sent within their bounds |
| PlayerLoop.EveryRunKeepsBounds | pkg/streamplayer/stream_player.go:812-1101 | over every run of ticks and buffer changes the buffer is within its limits and the pending increase between zero and the read timeout at each iteration head, also after the deferred commit; every catch-up speed sent is at most the maximum |
| PlayerLoop.StandstillCloses | pkg/streamplayer/stream_player.go:876-969 | over any run without progress, the first tick that can tell closes the controller once the read timeout is exceeded, whatever happened to buffer, speed and readings in between |
| PlayerLoop.AveragerGetsTheWantedSpeed | pkg/streamplayer/stream_player.go:1019-1057 | while the lag is not negative the averager is given exactly the wanted speed: no divisor is zero and no slow-down is refused |
| PlayerLoop.SlowDownIsSentIffDue | pkg/streamplayer/stream_player.go:1019-1045 | below the buffer, with a lag that is not negative, the averaged speed is sent and becomes the current one if and only if the wanted speed differs from the current one by at least the configured difference; otherwise both stay |
| PlayerLoop.SlowDownWithNegativeLag | pkg/streamplayer/stream_player.go:1019-1045 | the same for a negative lag, unless the wanted speed is not positive: then nothing is fed or sent |
| PlayerLoop.SlowDownOfAnEmptyBuffer | pkg/streamplayer/stream_player.go:1019-1045 | what happens when the buffer the lag is divided by is zero |
| PlayerLoop.CatchUpIsSentIffNew | pkg/streamplayer/stream_player.go:1046-1094 | from the buffer on the averaged speed, rounded down to 1/200 and capped at the maximum, is sent if and only if it is not the current one, which it becomes if and only if the player accepts it |
| PlayerLoop.TickWithoutAnswer | pkg/streamplayer/stream_player.go:876-937 | a tick without a position closes the controller exactly after the read timeout, one without a length, or with a failed query for the cached duration, exactly if there was a length before; nothing else changes |
| PlayerLoop.TickOfMisbehaving | pkg/streamplayer/stream_player.go:940-969 | a position or length that makes no sense, or a standstill beyond the read timeout, closes the controller and sends nothing |
| PlayerLoop.TickAdapts | pkg/streamplayer/stream_player.go:957-1048 | any other tick keeps the controller open, notes position, time and length, and adapts buffer and pending increase |
| PlayerLoop.TickSlowsDown | pkg/streamplayer/stream_player.go:957-1045 | such a tick feeds the averager the wanted speed and sends the averaged one if and only if a change is due |
| PlayerLoop.TickCatchesUp | pkg/streamplayer/stream_player.go:957-1094 | from the buffer on it sends the averaged speed, rounded and capped, if and only if it is a new one |
| PlayerLoop.LagIsTheCachedDuration | pkg/streamplayer/stream_player.go:893-1057 | while the player tells its cached duration, a tick with a moving position gives the averager the speed wanted for that duration as the lag, whatever the player says of its length |
| PlayerLoop.ARunDropsTheSpeed | pkg/streamplayer/stream_player.go:849-1101 | a run of a new player with the default configuration, still open, reaches the state of CommitCanDropTheSpeed; the next tick gives the averager a negative speed, and with a lag of one nanosecond less at least 0.95 |
| PlayerLoop.CappedRoundsDown | pkg/streamplayer/stream_player.go:1057-1077 | a sendable averaged speed is sent rounded down by less than 1/200 |
| PlayerLoop.Create | pkg/streamplayer/stream_player.go:110-161 | for every configuration creation fails exactly when one of its two checks does, and otherwise gives a player at the minimal buffer, valid if the configuration is sensible |
| PlayerLoop.StreamPlayer.constructor | pkg/streamplayer/stream_player.go:839-848 | the state at the first iteration head, in bounds exactly for accepted, sensible configurations |
| PlayerLoop.StreamPlayer.SetJitterBuffer | pkg/streamplayer/stream_player.go:1109-1117 | the size is clamped into the limits and the bounds are kept |
| PlayerLoop.SetBufferIsClamped | pkg/streamplayer/stream_player.go:1109-1117 | a size within the limits is taken as it is, any other becomes the nearest limit |
| PlayerLoop.StreamPlayer.Track | pkg/streamplayer/stream_player.go:957-995 | progress resets the clock and decays the buffer; the lack of it raises the pending increase to the time that passed |
| PlayerLoop.StreamPlayer.SlowDownFor | pkg/streamplayer/stream_player.go:1001-1045 | the whole new state of the slow-down path; a speed is sent if and only if the wanted one differs enough from the current one |
| PlayerLoop.StreamPlayer.CatchUpFor | pkg/streamplayer/stream_player.go:1046-1094 | the whole new state of the catch-up path; the rounded and capped speed is sent if and only if it is new |
| PlayerLoop.StreamPlayer.Judge | pkg/streamplayer/stream_player.go:940-1094 | restart on a bad position, a bad length or a stall, steering otherwise, with the bounds kept |
| PlayerLoop.StreamPlayer.Iterate | pkg/streamplayer/stream_player.go:876-1095 | the whole new state after a tick, with the bounds kept |
| PlayerLoop.StreamPlayer.ControllerLoop | pkg/streamplayer/stream_player.go:849-1101 | the loop ends in the state of a run of its events, cut short only by closing, after the deferred commit |
| ProfileInheritance.FindHierarchy | pkg/streamcontrol/stream_profiles.go:20-37 | the hierarchy is the chain of parents up to the first missing or empty one, whenever the walk ends |
| ProfileInheritance.ChainIsUnique | pkg/streamcontrol/stream_profiles.go:20-37 | there is only one such chain |
| ProfileInheritance.MergeOver | pkg/streamcontrol/stream_profiles.go:90-95 | the non-null values of the nearer document win, the other keys stay |
| ProfileInheritance.Resolve | pkg/streamcontrol/stream_profiles.go:20-101 | the result is the merge of the chain; it is found whenever the walk up the parents ends |
| ProfileInheritance.Get | pkg/streamcontrol/stream_profiles.go:11-18 | a stored name gives its resolved profile, any other name nothing |
| ProfileInheritance.MergeTakesTheNearest | pkg/streamcontrol/stream_profiles.go:77-101 | each key has the value of the nearest profile that defines it non-null; a null is kept exactly where only the root has the key |
| ProfileInheritance.ResolveIsIdempotent | pkg/streamcontrol/stream_profiles.go:20-101 | a resolved profile has a hierarchy whenever the profile has: itself and the same ancestors, whose merge is the resolved profile |
| ProfileInheritance.ResolveTwice | pkg/streamcontrol/stream_profiles.go:20-101 | resolving what was resolved ends whenever resolving the profile does, and gives the same map |
| ProfileInheritance.OnlyTheRootKeepsItsNull | pkg/streamcontrol/stream_profiles.go:84-101 | a hierarchy of two where the root's null is kept, and one where the leaf's is dropped |
| ProfileInheritance.WalksEndIffAcyclic | pkg/streamcontrol/stream_profiles.go:24-37 | resolving terminates for every stored profile if and only if no profile is its own proper ancestor |
| ProfileInheritance.AcyclicWalksEnd | pkg/streamcontrol/stream_profiles.go:24-37 | with acyclic parents it terminates for any profile, stored or not |
| ProfileEditing.Config.WithoutName | pkg/streampanel/profile.go:333-337 | the name is gone from all streams, every other profile reads the same |
| ProfileEditing.Config.EditAccount | pkg/streampanel/profile.go:319-341 | an account loses the name and nothing else; a deletion leaves accounts without it untouched |
| ProfileEditing.Config.EditAccounts | pkg/streampanel/profile.go:319-341 | the same for all accounts of a platform |
| ProfileEditing.Config.RemoveEverywhere | pkg/streampanel/profile.go:315-342 | afterwards no stream has the name; accounts and all other names read as before |
| ProfileEditing.Config.WithProfile | pkg/streampanel/profile.go:360-381 | exactly one profile of an account is set |
| ProfileEditing.Config.PutProfile | pkg/streampanel/profile.go:345-382 | the profile is set if the account exists, and nothing else changes; a panic exactly when the map of platforms is nil |
| ProfileEditing.Config.ProfileCreateOrUpdate | pkg/streampanel/profile.go:313-384 | a panic exactly when the metadata map is nil, or a stream is given and the map of platforms is nil; otherwise the name reads as given at the streams of existing accounts and nowhere else, and every other name and all else in the accounts reads as before |
| ProfileEditing.Config.ProfileDelete | pkg/streampanel/profile.go:411-444 | the name reads nowhere, every other name reads as before, its metadata are gone |
| ProfileEditing.Config.GetProfile | pkg/streampanel/profile.go:465-487 | exactly what the configuration says of the name; a panic exactly when a stream that has it is named with an empty ID |
| ProfileEditing.UpdateThenGet | pkg/streampanel/profile.go:345-382 | what was given for existing accounts is what is read back, unless the update panics |
| ProfileEditing.DeleteThenGet | pkg/streampanel/profile.go:465-487 | a deleted profile is read as no profile at all |
| ProfileEditing.SecondUpdateWins | pkg/streampanel/profile.go:313-384 | of two updates of a profile only the second is seen |
| ProfileEditing.DeleteUndoesUpdate | pkg/streampanel/profile.go:411-444 | deleting a profile just created leaves every name reading as before its creation |
| ProfileEditing.UpdatesCommute | pkg/streampanel/profile.go:313-384 | updates of different profiles read the same in either order |
| RingBuffer.StorageIsTheLast | pkg/ringbuffer/ring_buffer.go:22-33 | after any additions the storage, as a multiset and for membership, is the last items up to the size |
| RingBuffer.FullStorageIsRotated | pkg/ringbuffer/ring_buffer.go:22-33 | a full storage is the last items rotated to the write index |
| RingBuffer.SlotIsRemainder | pkg/ringbuffer/ring_buffer.go:28-31 | the write index is the count of additions modulo the size |
| RingBuffer.RingBuffer.constructor | pkg/ringbuffer/ring_buffer.go:16-20 | a new buffer is empty with the given capacity |
| RingBuffer.RingBuffer.Add | pkg/ringbuffer/ring_buffer.go:22-33 | the item joins the history the storage represents; a buffer without capacity panics |
| RingBuffer.RingBuffer.Contains | pkg/ringbuffer/ring_buffer.go:35-39 | true exactly for the last items added, up to the size |
| RingBuffer.BufferHoldsTheLast | pkg/ringbuffer/ring_buffer.go:22-33 | the slice in use is a rearrangement of the last items and the index is the count modulo the capacity |
| RingBuffer.AddAll | pkg/ringbuffer/ring_buffer.go:16-33 | any sequence of additions to a new buffer leaves a valid one with that history |
| QualifiedIds.ParseStreamSinkType | pkg/streamtypes/stream_sink_type.go:36-46 | the loop over the types finds custom, local or external_platform, in any letter case and with spaces around it, and is undefined for every other text |
| QualifiedIds.OtherTypesAreLost | pkg/streamtypes/stream_sink_type.go:21-34 | the text of an undefined or unknown type stands for no defined type |
| QualifiedIds.OtherTypeTexts | pkg/streamtypes/stream_sink_type.go:21-34 | what undefined and unknown types print, with the number in decimal digits |
| QualifiedIds.SinkIsReadFromItsText | pkg/streamtypes/stream_sink_id_fully_qualified.go:28-41 | what stands before the first colon is the type if it names one, and the rest the ID; otherwise the whole text is the ID of a custom sink |
| QualifiedIds.SinkReadsBackIffDefined | pkg/streamtypes/stream_sink_id_fully_qualified.go:24-41 | a printed sink ID, with any ID text, is read back if and only if its type is one of the three defined ones |
| QualifiedIds.ReadPrintRead | pkg/streamtypes/stream_sink_id_fully_qualified.go:28-45 | for every text, reading what was read and printed gives the same |
| QualifiedIds.StreamSinkIDFullyQualified.UnmarshalText | pkg/streamtypes/stream_sink_id_fully_qualified.go:28-41 | the fields are those the text stands for, a custom sink if it names no defined type |
| QualifiedIds.StreamSinkIDFullyQualified.MarshalText | pkg/streamtypes/stream_sink_id_fully_qualified.go:24-45 | the text is read back as the same sink ID if and only if its type is a defined one |
| QualifiedIds.StreamReadsBackIffPlain | pkg/streamcontrol/stream_id_fully_qualified.go:55-84 | a printed stream ID is read back into a blank one if and only if no field has a colon or an opening brace |
| QualifiedIds.NestedStreamIsRecoveredIffPlain | pkg/streamcontrol/stream_id_fully_qualified.go:55-84 | the same for a stream ID inside the sink ID of an external platform |
| QualifiedIds.StreamIsReadFromItsParts | pkg/streamcontrol/stream_id_fully_qualified.go:76-83 | without braces the first three parts between colons are platform, account and stream; fewer are an error |
| QualifiedIds.StreamIsReadFromItsWords | pkg/streamcontrol/stream_id_fully_qualified.go:60-75 | in braces the words between blanks are platform, account and stream, in this order; what is missing stays as it was |
| QualifiedIds.StreamIDFullyQualified.UnmarshalText | pkg/streamcontrol/stream_id_fully_qualified.go:59-84 | both text forms, with the fields an incomplete older form leaves as they were; failure leaves all fields |
| TagText.GetTags | pkg/streampanel/tags.go:94-110 | the tags are, without repeats and in the order they first occur, the parts of the text between separators without their outer blanks, but for the blank parts, and nothing else; tags and duplicates together are all words |
| Texts.CoreIsTrim | pkg/streampanel/tags.go:98 | trimming leaves the one part of a text that neither begins nor ends with the character and has nothing but that character around it |
| TagText.PartYieldsItsCore | pkg/streampanel/tags.go:97-101 | every part with a character that is not blank yields a word, itself without its outer blanks, at its place; a blank part yields none |
| TagText.WordsAreCores | pkg/streampanel/tags.go:97-101 | the words are exactly these |
| TagText.FirstsAreDistinct | pkg/streampanel/tags.go:96-107 | the tags have no repeats and are exactly the words |
| TagText.FirstsKeepOrder | pkg/streampanel/tags.go:96-107 | before the tag for a first occurrence stand exactly the tags of the words before it |
| TagText.ParsedAreTags | pkg/streampanel/tags.go:94-110 | whatever the text, its tags are distinct, trimmed, not empty and without separator |
| TagText.DeduplicatedReadsBack | pkg/streampanel/tags.go:37-43 | the words of the text the button writes for some tags are those tags |
| TagText.Deduplicate | pkg/streampanel/tags.go:37-43 | for every text the button's text has the same tags and no duplicates |

## Left out

- Files, network, gob, JSON, YAML, gRPC and their error paths, and decoders that fail half-way.
- Logging, sleeps, tickers and the windows and widgets around the modelled functions.
- The locks, the lock map and the event bus: critical sections are taken as atomic.
- Waiting loops as loops: a goroutine of the manager is a state machine over the loop's critical section, its channel receive and its write, because another goroutine may run between them.
- Delivery: nothing says that a message is ever written, or in which order two senders write.
- The broadcast of one process to all others, the password check, launching and relaunching of processes, and messages to a handler other than readiness declarations.
- PlayerLoop.StreamPlayer.Iterate: does not model overflow of 64-bit durations or the rounding of floating-point numbers, and takes a tick as atomic although a buffer change is not locked out of it.
- ProfileInheritance.Resolve: the struct branch, which works by reflection, is not modelled.
- Renderer.DrawPixel: source images whose rows are stored with gaps are not modelled.
- QualifiedIds.ParseStreamSinkType: lowers the ASCII letters only; the two other letters whose lower case is an ASCII letter are not in the name of a defined type.
- The choice and placing of the images on the dashboard, the areas that changed, and the order of the rows: the renderer takes them as given.
- The start of playback before the monitoring loop, the exponential of the decay factor, the averager, and the seek that a buffer change may ask for.
- Configuration changes while the controller runs.
- The saving and re-arranging of profiles after an edit, and configurations whose entries have unexpected types.
- The text forms of IDs inside JSON and YAML, and the other small enumerations.
