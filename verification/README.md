# kwin-mcp in Dafny

A model of the parts of kwin-mcp whose correctness does not follow from reading one function, with
proofs about them. `dafny verify dfyconfig.toml` checks the whole project.

**Cookie continuity** (`CookieRows`, `CookieTable`, `CookiePersist`, `CookieExpiry`, `CookieRuns`, `HostCapture`).
Isolated sessions copy a browser's cookie jar, change it, and fold it back into one saved jar with deletion
tombstones beside it. `CookieRows` has jars, tombstones and merging as values, `CookieTable` the tables edited in
place, `CookiePersist` one stop of a session and the convergence of any number of stops, `CookieExpiry` the exact
limits expiry sets to that, `CookieRuns` the files as a state machine with crashes and concurrent starts, and
`HostCapture` the lock-free copy of a live host database.

**Clipboard** (`ClipboardSync`, `ClipboardHandoff`). The sync barrier several threads share on one Wayland
connection, and the bridge that borrows the agent's selection for the viewer user's copy and paste chords. In-order
requests and events are taken from the Wayland core protocol, `wl_display.sync` request.

**Viewer** (`InputForwarding`, `InputRuns`, `AspectResize`, `Wire`, `InputRecords`, `FrameStream`). Forwarded keys,
buttons and touches over every run of window events, the aspect correction and its feedback loop, and both
directions of the remote viewer's pipe.

**Typing receipts** (`Utf8`, `Insertion`, `AccessibleText`, `DescendantWalk`, `TextReceipt`). When a poll of the
accessibility tree justifies the word "verified". UTF-8 well-formedness follows section 4 of RFC 3629.

## Where the code does less than its comments say

- Stop order (`src/browser_cookies.rs:219-222`): while the newest row of each identity is unexpired at every clock
  reading, `StopOrderDoesNotMatter` and `FilesDoNotDependOnOrder` prove that the tombstones and the update time of every
  saved row do not depend on it, nor do the rows themselves where rows of equal identity and update time are equal.
  Otherwise the order can matter in two ways. A stop prunes an expired row before it can hold back an older one, so an
  older unexpired row can come back (`ExpiryMakesStopOrderMatter`). And of two different rows with one update time, as
  when only the access time moved, the last stop's is kept (`TiesMakeStopOrderMatter`). `TwoStopsCommuteExactlyWhen` is
  the exact condition for two stops from any state, with any rows and any clock readings. Folding the same session in
  twice is idempotent exactly when no row is revived and none lapses in between (`StopIsIdempotentExactlyWhen`,
  `ExpiryMakesASecondStopMatter`).
- A stop interrupted by a crash can be made again, except one that replaces the jar only because the tombstones have
  other identity columns and that crashed after removing them: repeated, it merges (`CrashedStopCanBeRepeatedExactlyWhen`,
  `RepeatedReplacementMerges`).
- Tombstones hide rows only in starts whose merge succeeded: a start whose merge failed skips the tombstones and shows
  the host's rows, and if the merge failed after its commit, in the pruning, the saved jar's too
  (`StartShowsDeletedRowExactlyWhen`). After a crash between the two renames that includes a row the session deleted
  and the host never had (`LateFailureShowsDeletedRow`).
- The agent's selection is in place whenever no handoff borrows it, except after three things (`SelectionIntactExactlyWhen`).
  A copy wait can give up after the session copied, not having heard of it yet (`LateCopyIsTakenForTheAgents`) or having
  heard of it between its last poll and its look at the flag (`HeardCopyIsTakenForTheAgents`), and the next chord takes
  the user's text for the agent's. A selection the agent itself makes during a paste is undone (`AgentSelectionIsUndone`);
  made during a copy wait it also ends the wait and goes to the host (`AgentSelectionIsTakenForACopy`). And the session
  may select on its own, outside any handoff.
- The viewer's count of held buttons is not the buttons the session has down: a release without its press can take it
  to zero while another button is down (`ButtonsAreToldExactlyWhen`). A press that a touch swallowed leaves such a release
  behind, and the next touch then starts beside the other button (`SwallowedPressMiscounts`).
- The writer of the frame pipe accepts payloads up to the u32 limit, the reader only up to 64 MiB: the first larger
  frame or title ends the stream (`StreamReadsBackExactlyWhen`, `OversizedEndsStream`).
- The expected text of a field is not normalised where the input itself goes, so input with U+FFFC can never be
  verified by the field's text (`SpliceCommutesExactlyWhen`, `SpliceVerifiesExactlyWhen`).

## Model

| member | source | states |
|---|---|---|
| CookieRows.NewestIsTheOnlyMerge | src/browser_cookies.rs:615-641 | a jar is the merge exactly when it has the identities of both, each row comes from one of them, none is older than either, and ties keep the destination |
| CookieRows.NewestAssociates | src/browser_cookies.rs:612-643 | merging three jars does not depend on the grouping |
| CookieRows.NewestIsIdempotent | src/browser_cookies.rs:612-643 | merging a jar again, from either side, changes nothing |
| CookieRows.NewestCommutesExactlyWhenTiesAgree | src/browser_cookies.rs:624-631 | the two merge directions agree exactly when rows of equal identity and time are equal |
| CookieRows.RecordIsTheLeastCover | src/browser_cookies.rs:269-287 | recording keeps every tombstone, covers every baseline row missing from the session, and adds or raises nothing else |
| CookieTable.Table.PruneExpired | src/browser_cookies.rs:114-128 | a row is left exactly when it was there and never expires (has_expires 0, or without that column expires_utc not positive) or expires after the reading; without expires_utc every row is left |
| CookieRows.LeftByTheClock | src/browser_cookies.rs:114-128 | the same on jars as values |
| CookieTable.Table.MergeFrom | src/browser_cookies.rs:570-644 | for every order the source rows come in, the table ends as the pruned merge; a missing source only prunes, differing schemas change nothing |
| CookieTable.Table.ApplyDeleted | src/browser_cookies.rs:193-217 | deleting tombstone by tombstone leaves exactly the live rows newer than their largest tombstone |
| CookieTable.ListedIsThrough | src/browser_cookies.rs:208-212 | a tombstone list acts through the largest entry of each identity |
| CookieTable.DeletedCookies.Add | src/browser_cookies.rs:281-285 | raising the first entry or appending one raises the tombstone of that identity only, keeps one entry per identity and never lowers an entry |
| CookieTable.AddAbsent | src/browser_cookies.rs:266-288 | for every order of the baseline rows, the list ends recording exactly the rows the session lacks |
| CookieTable.RecordDeletions | src/browser_cookies.rs:242-290 | the recorded list, and that it fails exactly when the tombstone file or the baseline has other identity columns |
| CookiePersist.CookieState.Persist | src/browser_cookies.rs:792-825 | one stop leaves the saved jar and tombstones `Persisted` names, replacing both files on a schema change, without touching the tables it read |
| CookiePersist.FilesFollowStops | src/browser_cookies.rs:809-824 | while the schema stays, the files after any stops hold what the stops add up to |
| CookiePersist.TombstonesAccumulate | src/browser_cookies.rs:267-290 | after any stops the tombstone of an identity is the largest deletion anyone recorded |
| CookiePersist.StopsConverge | src/browser_cookies.rs:219-222 | after any stops in any order, with the newest rows unexpired, the saved row of an identity is a newest row anyone contributed, if it is newer than the largest tombstone, and there is none otherwise; tied rows may differ |
| CookiePersist.ConvergedIsUnique | src/browser_cookies.rs:219-222 | that outcome fixes every tombstone and the update time of every row, and where tied rows are equal it is one single state |
| CookiePersist.StopOrderDoesNotMatter | src/browser_cookies.rs:219-222 | with the newest rows unexpired, two runs over the same sessions, in any order and with any repetition, agree up to the choice between tied rows, and fully where tied rows are equal |
| CookiePersist.FilesConverge | src/browser_cookies.rs:809-824 | the two published files hold that outcome after any stops that keep the schema |
| CookiePersist.FilesDoNotDependOnOrder | src/browser_cookies.rs:809-824 | the published files do not depend on the order, up to tied rows, and are the same files where tied rows are equal |
| CookiePersist.AliveAtTheLastReading | src/browser_cookies.rs:114-128 | rows not expired by the last clock reading meet the convergence hypothesis |
| CookieExpiry.TwoStopsCommuteExactlyWhen | src/browser_cookies.rs:809-821 | from any state, for any rows and any readings, two stops commute exactly when the sessions leave the same row, or none, of every identity whose newest rows are tied between them or whose newest row expired by the first stop |
| CookieExpiry.TiesMakeStopOrderMatter | src/browser_cookies.rs:624-631 | two different live rows of one update time: the last stop's is saved |
| CookieExpiry.StopIsIdempotentExactlyWhen | src/browser_cookies.rs:809-821 | for any readings, a second stop of one session changes nothing exactly when no newest row expired by the first hides a row the second keeps, and none the first kept expired by the second |
| CookieExpiry.RevivedAtOneReading | src/browser_cookies.rs:809-821 | with no clock advance no row lapses, and a revived row was hidden by an expired newer saved row |
| CookieExpiry.ExpiryMakesStopOrderMatter | src/browser_cookies.rs:642-643 | two sessions whose stop order decides whether an older cookie survives |
| CookieExpiry.ExpiryMakesASecondStopMatter | src/browser_cookies.rs:642-643 | a session whose second stop brings back a cookie its first left out |
| CookieRuns.StepKeepsInv | src/browser_cookies.rs:747-834 | every file step, crash and start keeps the invariant, and only removing tombstones weakens them |
| CookieRuns.JarsAreNeverAheadOfTombstones | src/browser_cookies.rs:817-824 | in every reachable state each published jar has the deletions of its stop in force |
| CookieRuns.OnlyReplacementDropsTombstones | src/browser_cookies.rs:679-692 | a tombstone leaves force only in the schema-change publish |
| CookieRuns.NoResurrection | src/browser_cookies.rs:809-824 | once a tombstone is published, no interleaving of stops, starts and crashes that keeps tombstones shows its rows in a start that merged or in a newly saved jar |
| CookieRuns.StartShowsExactly | src/main.rs:5438-5487 | a start shows exactly the newest of the host's and the saved row of each identity, the host's on a tie, where it is newer than its tombstone and unexpired |
| CookieRuns.StartFailsExactlyWhen | src/main.rs:5438-5487 | a start fails exactly without any jar or, if it merged or had no host jar, with tombstones of other identity columns |
| CookieRuns.SessionCookieReturns | src/browser_cookies.rs:784-825 | a cookie a session ends with is in the next one, unless it was deleted, has expired or meets a newer row |
| CookieRuns.OverlappedStart | src/main.rs:5438-5487 | a start that any stops, crashes and other starts overlap gives its session the merge of its beginning finished with the tombstones of its end |
| CookieRuns.LaterTombstonesWithholdMore | src/main.rs:5484-5487 | tombstones published during a start can only withhold more |
| CookieRuns.StartShowsDeletedRowExactlyWhen | src/main.rs:5438-5487 | a start shows a tombstoned row exactly when there is a host jar, the merge failed, and the row is the host's or, after a failure past the commit, the winner of host and saved jar |
| CookieRuns.LateFailureShowsDeletedRow | src/browser_cookies.rs:642-643 | after a crash between the renames, a merge that fails in the pruning shows a deleted row that only the saved jar has |
| CookieRuns.UninterruptedStopPersists | src/browser_cookies.rs:793-824 | from any state without a stop, whatever a crash left behind, the separate file steps of an undisturbed stop add up to `Persisted` |
| CookieRuns.FailuresPublishNothing | src/browser_cookies.rs:747-834 | a crash, a failure, a torn write or an abandoned start changes no published file |
| CookieRuns.CrashedStopCanBeRepeatedExactlyWhen | src/browser_cookies.rs:679-692 | a merging or replacing stop that crashed after any of its steps, made again at any later clock readings, ends as if it had not crashed, except a replacing one that crashed after removing tombstones whose columns alone differed |
| CookieRuns.RepeatedReplacementMerges | src/browser_cookies.rs:679-692 | in that exception the repeated stop keeps a saved row the session no longer has |
| CookieRuns.DeletionSticks | src/browser_cookies.rs:219-222 | a cookie deleted in a session stays out of the next one exactly until the host has a newer live row of it |
| HostCapture.EqualVersionsMeanSteady | src/browser_cookies.rs:15-37 | if every change gives a version not seen since, equal versions mean the file did not change in between |
| HostCapture.Host.Read | src/browser_cookies.rs:476-503 | reading an opened file in any chunks while writers run returns its clipped content if it did not change meanwhile |
| HostCapture.Host.Versions | src/browser_cookies.rs:470-475 | the three stats, each taken at its own instant |
| HostCapture.Host.ActiveJournal | src/browser_cookies.rs:459-469 | whether the journal is active, if it did not change meanwhile |
| HostCapture.ActiveByItsHeader | src/browser_cookies.rs:459-469 | active means that one of the first eight bytes of the journal is not zero |
| HostCapture.Host.ReadBoth | src/browser_cookies.rs:476-503 | database and WAL, at most 64 MiB together and whole, if neither changed meanwhile; on a still disk exactly what the files say, the missing database or the limit included |
| HostCapture.Host.Look | src/browser_cookies.rs:507-514 | stats, idle journal and first reading are one snapshot, if database and WAL, and a journal that exists, did not change meanwhile; on a still disk it succeeds whenever the files allow |
| HostCapture.Host.Recheck | src/browser_cookies.rs:515-519 | the second round accepts a still disk's first reading and reports a change only where something differs |
| HostCapture.Host.Attempt | src/browser_cookies.rs:506-519 | an accepted attempt returns database and WAL as they were at one common instant with no active journal, and stayed until the second stats, while journals may come and go; on a still disk the outcome is what the files say |
| HostCapture.AcceptedExactlyWhen | src/browser_cookies.rs:506-549 | a still disk is accepted exactly when the copy succeeds, the database exists, both files fit and the journal is idle |
| HostCapture.CapturedThroughout | src/browser_cookies.rs:510-519 | so did every instant of that window without an active journal, and all of them if a journal's disappearance shows too |
| HostCapture.TransactionsShow | src/browser_cookies.rs:508-513 | a rollback transaction that creates and removes its journal meets the hypothesis |
| HostCapture.Host.SnapshotHost | src/browser_cookies.rs:504-557 | the same over up to five attempts, of which only the accepted one has to see every change; an attempt is followed by another exactly when it failed otherwise than by too large a file and was not the fifth, and on a still disk each attempt comes to what the files say |
| ClipboardSync.StepKeepsInv | src/clipboard.rs:316-331 | every step of any thread, the compositor and the dispatcher keeps the connection invariant |
| ClipboardSync.Barrier | src/clipboard.rs:609-619 | a thread whose serial is reached, by whichever answer, has all requests queued before it took the serial handled and their events dispatched |
| ClipboardSync.SyncWaitsForEarlierRequests | src/clipboard.rs:609-619 | over every run of the connection: when `sync` returns, the requests queued before the call are handled |
| ClipboardSync.WaitersCanReturn | src/clipboard.rs:609-619 | from every reachable state the compositor and the dispatch thread alone can let a waiting thread leave `sync` |
| ClipboardSync.SelectionElsewhereIsCounted | src/clipboard.rs:239-250 | a selection other clients make is counted once when its event is dispatched, whatever steps come in between |
| ClipboardSync.Clipboard.WaitUntilSynced | src/clipboard.rs:421-448 | the wait answers true exactly when the watch had reached the serial at the last look |
| ClipboardSync.Clipboard.Request | src/clipboard.rs:610-612 | serial and sync request with other threads in between |
| ClipboardSync.Clipboard.SyncUp | src/clipboard.rs:609-619 | the barrier as a thread calls it, with a time-out only if the watch had not reached its serial |
| ClipboardSync.Clipboard.Write | src/clipboard.rs:576-589 | when it reports success the compositor has applied the selection and its event was dispatched; it reports failure only if its serial was not reached |
| ClipboardSync.Clipboard.Generation | src/clipboard.rs:450-458 | the count includes every selection change caused by earlier requests; there is none only if its serial was not reached |
| ClipboardHandoff.StepKeepsInvExactlyWhen | src/bin/kwin-viewer.rs:543-602 | one step of any thread, the agent or the session keeps the agent's selection in place or recoverable exactly when it does not displace it |
| ClipboardHandoff.OwnWritesNeverEndACopyWait | src/bin/kwin-viewer.rs:557-573 | in every run a copy wait is ended only by a change the agent or the session made since it began, never by the bridge's own writes, and the host gets the last such change |
| ClipboardHandoff.CopyChordServesTheUser | src/bin/kwin-viewer.rs:554-577 | what the session copies after any number of polls reaches the host, and the agent has its selection back |
| ClipboardHandoff.ChangeReachesTheHost | src/bin/kwin-viewer.rs:560-573 | the same from any waiting state and for whoever made the change |
| ClipboardHandoff.NothingCopiedChangesNothing | src/bin/kwin-viewer.rs:560-571 | a wait in which nothing is copied times out and leaves both selections alone |
| ClipboardHandoff.PasteChordServesTheUser | src/bin/kwin-viewer.rs:578-587 | a paste chord puts the host's contents into the session until the agent's are put back |
| ClipboardHandoff.HandoffsCanEnd | src/bin/kwin-viewer.rs:546-550 | from every state the restore thread can finish, so a chord that joins it gets its turn |
| ClipboardHandoff.WithoutTheAgent | src/bin/kwin-viewer.rs:557-573 | while the agent selects nothing itself, only a wait that gives up after the session selected, or the session's selections outside handoffs, displace anything |
| ClipboardHandoff.AgentSelectionIsPreserved | src/bin/kwin-viewer.rs:529-532 | over any sequence of chords that displaces nothing every handoff reads the agent's own selection and returns it |
| ClipboardHandoff.SelectionIntactExactlyWhen | src/bin/kwin-viewer.rs:561-588 | the agent's selection is in place whenever nothing borrows it exactly when no wait gives up after the session selected last, nothing is put back over a selection the agent made meanwhile, and the session selects nothing on its own |
| ClipboardHandoff.LateCopyIsTakenForTheAgents | src/bin/kwin-viewer.rs:561-564 | a superseded wait whose change was applied but not heard of hands the user's text to the next chord as the agent's |
| ClipboardHandoff.HeardCopyIsTakenForTheAgents | src/bin/kwin-viewer.rs:561-564 | so does one whose change was heard of between the last poll and the look at the flag |
| ClipboardHandoff.AgentSelectionIsUndone | src/bin/kwin-viewer.rs:579-587 | what the agent selects while a paste borrows its selection is undone |
| ClipboardHandoff.AgentSelectionIsTakenForACopy | src/bin/kwin-viewer.rs:560-573 | what it selects during a copy wait goes to the host and is undone |
| ClipboardHandoff.ClipboardBridge.Before | src/bin/kwin-viewer.rs:543-602 | with every interleaving of the other threads, the agent and the session, a started handoff read the session's selection, the agent's own unless something displaced it, and left the session with it or a newer one (copy) or with the host's (paste) |
| InputForwarding.InputState.ForwardInput | src/bin/kwin-viewer.rs:1600-1748 | the handling of each event, for every order of the releases on focus loss |
| InputForwarding.InputState.LoseFocus | src/bin/kwin-viewer.rs:1613-1630 | the touch is lifted and every tracked key released exactly once |
| InputForwarding.InputState.ForwardTouch | src/bin/kwin-viewer.rs:1632-1663 | the branches of one touch event |
| InputRuns.PressedStep | src/bin/kwin-viewer.rs:1678-1709 | which buttons the session has down after any event: one mouse button more or less, or what the start or end of a touch means |
| InputRuns.KeyEffects | src/bin/kwin-viewer.rs:1722-1760 | which keys the session has down after a key event: repeats change nothing |
| InputRuns.FocusLossReleasesAll | src/bin/kwin-viewer.rs:1617-1629 | after focus loss the session has no key down |
| InputRuns.KeysStayTrackedExactlyWhen | src/bin/kwin-viewer.rs:1722-1760 | one event keeps the keys down in the session tracked exactly when it is no repeated release of such a key |
| InputRuns.NoStuckKeysExactlyWhen | src/bin/kwin-viewer.rs:1581-1586 | the same at every moment of a run |
| InputRuns.NoStuckKeys | src/bin/kwin-viewer.rs:1581-1586 | with repeats only for presses, no key is lost over any run and none is down right after focus loss |
| InputRuns.ChordKeys | src/bin/kwin-viewer.rs:504-527 | which keys with which held ones make a copy or a paste chord |
| InputRuns.HandoffExactlyWhen | src/bin/kwin-viewer.rs:1729-1752 | a handoff happens exactly on the first press that makes a chord, before that press is sent |
| InputRuns.OneHandoffPerPress | src/bin/kwin-viewer.rs:1729-1752 | between two handoffs of a key it was let go or the window lost focus, over any run |
| InputRuns.PointerGoesFirst | src/bin/kwin-viewer.rs:1664-1709 | the session's pointer follows drags, presses and touches, before the button, and no hovering |
| InputRuns.CornersAreCorners | src/bin/kwin-viewer.rs:1592-1598 | the window's corners are the session's |
| InputRuns.TouchStepButtons | src/bin/kwin-viewer.rs:1632-1709 | an event that starts, keeps or ends a touch sends the press, nothing, or the release, and no touch is active while buttons are held |
| InputRuns.TouchIsExclusive | src/bin/kwin-viewer.rs:1579-1580 | from a touch's press to its single release no other button operation is sent, over any events |
| InputRuns.AlwaysExclusive | src/bin/kwin-viewer.rs:1633-1635 | in every run an active touch means a held-button count of zero |
| InputRuns.ButtonsAreToldExactlyWhen | src/bin/kwin-viewer.rs:1633-1635 | at every moment of a run a touch means that the session has the left button alone down, and a zero count none, exactly when no release takes the count to zero while another button is down |
| InputRuns.SwallowedPressMiscounts | src/bin/kwin-viewer.rs:1633-1635 | a run of paired window events, one press swallowed by a touch, after which the next touch has two buttons down |
| InputRuns.PairedButtonsAreCounted | src/bin/kwin-viewer.rs:1678-1709 | with every press and release paired the count is the number of buttons down, over any run |
| AspectResize.ViewerAspect.Resize | src/bin/kwin-viewer.rs:1119-1157 | the correction for positive u32 sizes, zero sizes included as reports |
| AspectResize.Correct | src/bin/kwin-viewer.rs:1124-1131 | one corrected side, and that its u64 sum cannot overflow |
| AspectResize.Wide | src/bin/kwin-viewer.rs:1137-1139 | a product of two u32 distances fits in u64 |
| AspectResize.CorrectionIsNearest | src/bin/kwin-viewer.rs:1124-1131 | an unclamped correction is within half a unit of the exact ratio |
| AspectResize.OneSideFits | src/bin/kwin-viewer.rs:1141-1147 | when the corrected height is too tall, the corrected width is not too wide |
| AspectResize.FirstRequestFitsInside | src/bin/kwin-viewer.rs:1136-1147 | the first correction fits inside the configured size |
| AspectResize.GrantedRequestIsFixed | src/bin/kwin-viewer.rs:1132-1135 | a granted correction requests nothing more |
| AspectResize.ExactRatioIsLeftAlone | src/bin/kwin-viewer.rs:1132-1135 | a size of exactly the ratio is never corrected |
| AspectResize.OffRatioIsCorrected | src/bin/kwin-viewer.rs:1136-1152 | a size more than half a unit off on both sides is corrected to within half a unit, keeping one side, unless it was asked for just before |
| AspectResize.UnchangedSizeGetsAtMostTwo | src/bin/kwin-viewer.rs:1148-1152 | a size reported over and over gets at most two requests, whatever came before |
| AspectResize.DraggedSideIsKept | src/bin/kwin-viewer.rs:1102-1103 | the one side the user dragged is never undone |
| Wire.LeReadsBack | src/bin/kwin-viewer.rs:1461-1465 | little-endian words read back |
| Wire.LeastByteFirst | src/bin/kwin-viewer.rs:1462-1463 | the bytes of a word, least first |
| Wire.LeWritesBack | src/bin/kwin-viewer.rs:1476-1480 | bytes read as a word write back as themselves |
| Wire.Pipe.ReadExact | src/bin/kwin-viewer.rs:1470-1475 | exactly the bytes asked for, or the end of the stream |
| InputRecords.DecodesWhatWasEncoded | src/bin/kwin-viewer.rs:1450-1491 | every operation decodes from its record |
| InputRecords.Layout | src/bin/kwin-viewer.rs:1450-1465 | the tag of each operation and the places and bytes of its two words |
| InputRecords.EncodesWhatWasDecoded | src/bin/kwin-viewer.rs:1468-1491 | every record that decodes is the record of what it decodes to |
| InputRecords.ReadOp | src/bin/kwin-viewer.rs:1469-1491 | one record from the pipe, or None at its end or on an invalid record |
| InputRecords.ServeInput | src/bin/kwin-viewer.rs:1264-1279 | the serving loop applies exactly the operations up to the first short or invalid record |
| InputRecords.StreamReadsBack | src/bin/kwin-viewer.rs:1266-1277 | a stream of records gives back exactly the operations sent |
| InputRecords.CutStreamReadsWholeRecords | src/bin/kwin-viewer.rs:1470-1475 | cut anywhere, it gives exactly the operations sent whole |
| InputRecords.AppliedWasReceived | src/bin/kwin-viewer.rs:1483-1490 | whatever arrives, the operations applied are its longest valid prefix |
| FrameStream.Sink.Write | src/bin/kwin-viewer.rs:1168-1196 | the bytes of one message; a payload over the u32 limit fails with its tag already written |
| FrameStream.ReadFrame | src/bin/kwin-viewer.rs:1199-1238 | the loop returns the next frame with every title before it taken over, the end of the stream, or the error of the first bad message |
| FrameStream.FrameReadsBackExactlyWhen | src/bin/kwin-viewer.rs:1215-1218 | a frame the server can write is read back exactly when it has at most 64 MiB |
| FrameStream.StreamReadsBack | src/bin/kwin-viewer.rs:1160-1166 | any titles and frames within the limit come back as those frames in order, each under the last title before it, then the end |
| FrameStream.StreamReadsBackExactlyWhen | src/bin/kwin-viewer.rs:1168-1218 | whatever the server writes comes back in full, to the end of the stream, exactly when no payload is over 64 MiB |
| FrameStream.OversizedEndsStream | src/bin/kwin-viewer.rs:1203-1218 | the first larger frame or title ends the stream, after everything sent before it |
| FrameStream.CutStreamShowsAPrefix | src/bin/kwin-viewer.rs:1203-1218 | any byte stream cut anywhere shows a prefix of its frames |
| FrameStream.LostConnectionShowsFirstFrames | src/bin/kwin-viewer.rs:1396-1410 | a lost connection leaves the first frames sent shown, and ends in no error but a truncated message |
| Insertion.IsInsertionExactly | src/input_bridge.rs:984-1009 | for well-formed UTF-8 the prefix and suffix test holds exactly when some byte index splits the text around the input |
| Insertion.IsInsertionOfCharacters | src/input_bridge.rs:984-1009 | on the bytes of strings it holds exactly when the input was added at one character position |
| Insertion.FoundIsInsertion | src/input_bridge.rs:1006-1008 | what the test finds is an insertion, whatever the bytes |
| Insertion.CommonPrefix | src/input_bridge.rs:992-996 | the prefix counted is shared and cannot be longer |
| Insertion.SuffixIsShared | src/input_bridge.rs:997-1002 | the suffix counted is shared |
| Utf8.InsertionPointIsBoundary | src/input_bridge.rs:1006-1008 | inserting text inside a character never gives well-formed UTF-8, so the boundary filter loses nothing |
| Utf8.EncodedIsValid | src/input_bridge.rs:987-991 | the bytes of a string are well-formed |
| Utf8.ValidIsEncoded | src/input_bridge.rs:987-991 | well-formed bytes are exactly the encodings of strings of scalar values |
| Utf8.EncodeIsInjective | src/input_bridge.rs:987-991 | strings with equal bytes are equal |
| Utf8.BoundaryIsCharacter | src/input_bridge.rs:1007 | a boundary in the bytes is a character position of the string |
| AccessibleText.NormalizeRemovesExactlyPlaceholders | src/input_bridge.rs:976-982 | normal forms have no placeholder, and a text is its own normal form exactly when it has none |
| AccessibleText.NormalizeKeepsTheRest | src/input_bridge.rs:976-982 | normalising loses the placeholders and no other character |
| AccessibleText.KeptCharacterStaysInPlace | src/input_bridge.rs:1011-1016 | every other character is found in the normal form at its mapped offset |
| AccessibleText.OffsetSplitsNormalForm | src/input_bridge.rs:1011-1016 | a mapped offset splits the normal form where the offset splits the text |
| AccessibleText.OffsetsStayOrdered | src/input_bridge.rs:1721-1724 | mapped offsets stay ordered and in range |
| AccessibleText.MappedOffsetsAreInRange | src/input_bridge.rs:1718-1727 | the first offset check decides; the second can never fail |
| AccessibleText.SpliceCommutesExactlyWhen | src/input_bridge.rs:1721-1749 | splicing the normal form equals normalising the raw splice exactly when the input has no placeholder |
| AccessibleText.PlaceholderInputIsNeverObserved | src/input_bridge.rs:1744-1749 | an expectation from input with a placeholder equals no normalised text |
| DescendantWalk.DescendantSnapshot | src/input_bridge.rs:1024-1089 | the stack loop visits the walk's nodes, gathers their texts, path map and placeholder flag, and pops at most 513 times on any graph |
| DescendantWalk.VisitNode | src/input_bridge.rs:1048-1078 | one node's text, checked and added, or the walk given up |
| DescendantWalk.WalkSucceedsExactlyOnTrees | src/input_bridge.rs:1043-1082 | the walk succeeds exactly on graphs that unfold to readable finite trees within the node and text limits, and then visits their preorder |
| DescendantWalk.JoinedIsDocumentText | src/input_bridge.rs:1071-1078 | the joined text is the placeholder-free text of the leaves in document order, by recursion on the trees |
| DescendantWalk.SnapshotIsDocumentText | src/input_bridge.rs:1024-1089 | the one finite unfolding of a graph decides success and the text |
| DescendantWalk.ReadableExactlyWhen | src/input_bridge.rs:1048-1064 | the walk goes on at exactly the reachable nodes without a text interface or with one whose text is as long as it says and within the limit |
| DescendantWalk.TextlessTreeIsEmpty | src/input_bridge.rs:1063 | a tree without text interfaces is walked to its end and its text is empty |
| TextReceipt.Confirm | src/input_bridge.rs:1809-1984 | the whole report for every poll trace: by the first poll that ends the loop, or after a time-out by what had been seen until then |
| TextReceipt.Watch | src/input_bridge.rs:1822-1901 | the poll loop ends at the first deciding poll and has kept the last text and whether a placeholder was seen |
| TextReceipt.EveryTraceIsReported | src/input_bridge.rs:1908-1984 | every trace of polls ends by a poll or by the time-out |
| TextReceipt.VerifiedExactlyWhenWitnessed | src/input_bridge.rs:1837-1894 | an ending poll verifies exactly when it saw the expected text, or a changed snapshot with the expected text or the input added at one character position, and the field does not show a text that replaced a blank line or a placeholder |
| TextReceipt.UnchangedDescendantsNeverVerify | src/input_bridge.rs:1859-1894 | snapshots equal to the one before typing never verify |
| TextReceipt.OneInFiveIsDue | src/input_bridge.rs:1859 | the first poll asks for a snapshot, and of any five later ones exactly one |
| TextReceipt.LastingDeliveryIsVerified | src/input_bridge.rs:1826-1901 | a delivery that stays visible below the field is verified within five polls |
| TextReceipt.SpliceVerifiesExactlyWhen | src/input_bridge.rs:1721-1772 | a field showing the raw splice is verified by its text exactly when the input has no placeholder |
| TextReceipt.BlankLineIsNeverVerified | src/input_bridge.rs:1700-1758 | input that replaced an editor's blank line is reported as a transformation |
| TextReceipt.PlaceholderIsNeverVerified | src/input_bridge.rs:1728-1772 | input that replaced a field's placeholder or label is reported as an unverified transition |
| TextReceipt.PlaceholderExpectationIsNeverMet | src/input_bridge.rs:1833-1839 | an expectation with a placeholder is never met by the field's text |

## Left out

- SQLite itself: a jar is a table whose identity columns carry a unique index over non-null values; one schema value
  stands for the column list and the identity columns together, so equal columns with different unique indexes are
  not modelled, nor are NaN identity values, lock time-outs and integrity checks beyond pass or fail.
- Finding jars below the upper directories, permissions, staging, the 512 MiB limits and fsync: one jar, atomic renames
  and a held lock are modelled. The jars of one stop are independent of each other.
- The read-write copy of the frozen host bytes: each attempt is given whether the copy and its check succeeded.
- HostCapture.Host.Attempt: the promise is conditional on every change between the attempt's own stats, except a
  journal's removal, giving the name a version it did not have earlier in the attempt; a WAL that appears and is removed
  again, or a file replaced by one with the same inode, size and times, would not show.
- ClipboardHandoff.ClipboardBridge.Before: the restore thread runs beside the window thread, so the handoff is a
  state machine and this method takes its steps; connection errors, offer contents and clocks are not modelled, a
  time-out may happen after any poll, and each read or write of a clipboard takes effect at one instant.
- ClipboardSync.Clipboard.SyncUp: memory orderings are taken as sequentially consistent; time-out and a connection
  that ended are the same negative answer.
- InputForwarding.InputState.ForwardInput: positions and wheel distances are reals, not doubles; the key table is
  the event's evdev code, and Num Lock synchronisation is left out.
- Decoding PNG payloads, and the serving and drawing loops around the pipe: a frame is its PNG bytes.
- FrameStream.ReadFrame: always has a shared title to update, as its only caller does.
- Reading the accessibility bus: a graph that does not change during a walk, and traces of polls. Discovery of the
  focused field, caption matching and the texts of warnings are left out as pure case tables.
- The rest of `src/main.rs`, the session registry, deployment, file import and host environment: process and file
  plumbing.
