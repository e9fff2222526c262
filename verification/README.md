# Verification of Consolebook's record, export and backup logic

Consolebook keeps training records for emergency-communications agencies:
enrollments that move through a program's phases, evaluation records that are
drafted, reviewed, sealed and amended, and exports that can be checked from
their bytes alone. This project models the logic those promises rest on and
proves them. `dafny verify dfyconfig.toml` checks everything.

## What is modelled

- **Streamed export** (`ExportStream`, `ExportBuffer`, `ExportDelivery`). A
  seekable view of an append-only destination holds one ZIP entry, patches it in
  place and releases it once. It is refined against an in-memory cursor; the
  bytes then cross a bounded queue to a client that may stall or leave, as a
  protocol over every interleaving.
- **Evaluation records** (`RecordWorkflow`, `RecordInvariant`, `RecordTheorems`,
  `RecordSealing`, `RecordCalls`, `RecordService`). A working copy with a revision, append-only events,
  decisions and snapshots, amendments with reopening marks, and hash-chained
  versions. Status is derived from the streams.
- **Enrollments** (`Lifecycle`, `LifecycleInvariant`, `LifecycleTheorems`,
  `LifecycleService`, `Acknowledgments`). Pin epochs opened by version changes, a
  walk of the pinned phase graph, pauses, effective-order append with backfill,
  task signoffs and overrides, acknowledgments.
- **Packets** (`Packet`, `PinHistory`, `Lineage`, `Amendments`, `PacketVerify` on
  the reading side; `PacketWorld`, `PacketHistory`, `PacketRecords`,
  `PacketAgreement`, `PacketCompleteness` on the producing side). The verifier's checks are shown
  exact, and every packet the services can produce is shown to pass them.
- **Byte formats** (`Canonical`, `CanonicalJson`, `CanonicalForm`, `ZipContainer`, `ZipWalk`). Hex and chain
  fingerprints, the canonical JSON subset (RFC 8785 section 3.2) and the
  central-directory walk (APPNOTE 6.3, sections 4.3.12 and 4.3.14 to 4.3.16).
- **Installation exports** (`Agreement`), **sessions** (`Sessions`,
  `SessionService`) and **backups** (`Backups`, `BackupCopy`, `BackupNames`,
  `BackupOwnership`, `BackupClaims`, `BackupSurvival`, `BackupRetention`,
  `BackupCopyService`).

A service call is one atomic step, since every write runs in one exclusive
transaction. Its specification is a function from the committed state to the new
state or a typed refusal, in the order the service tests; a class with the
source's fields carries the methods, each proved to do exactly what its function
says. Theorems are about those functions over every run. Capabilities and other
answers read outside the transaction, clocks and row ids are parameters of a
step; time never runs back and row ids only grow. SHA-256, the envelope
serialiser and the timezone database are arbitrary functions, so every result
holds whatever they compute.

## Where the code and its documentation differ

- The module documentation of `export_stream.rs` (lines 38-39) says that a seek
  to or past the entry's end closes it and hands it on. The code only moves the
  position there; an entry goes out when the next local header is written, at
  `seek(End(0))`, or in `into_inner`. The model follows the code.
- `canonical.rs` and the format documents state no limit on nesting, and the
  serialiser has none, but the reader opens at most 127 arrays and objects
  inside one another, so a deeper document would fail its own re-serialise test (`CanonicalJson.CanonicalTextVerifiesUpToDepth`).
- `backup_copy.rs` says a copy directory holds one installation's backups. The
  check and the copy are separate operations, so in a directory with nothing
  readable two installations may both pass and both add
  (`BackupClaims.UnreadableDirectoryCanBeShared`). And the check ranks an
  installation's own kind of backup first while retention goes by age alone, so an
  installation's own retention can delete its last backup beside a newer database
  that another set aside, and lose it the directory
  (`BackupSurvival.RetentionCanLoseTheDirectory`); `BackupSurvival.SurvivesExactly`
  says which directories are safe from both.
- It also says a partial file is only ever left by an interrupted copy and that it
  refuses to overwrite a backup copy. Two jobs whose snapshots bear one name share
  one partial file, and one may replace what the other has verified, or its copy
  (`BackupNames.SharedNameCarriesAPrefix`); exactly when is
  `BackupNames.WrongExactlyInDanger` and `BackupNames.OverExactlyInDanger`.
- The review queue's query ignores amendment marks. It is exact where review is
  required; otherwise a record sealed while submitted stays listed
  (`RecordTheorems.SealedWhileSubmittedStaysQueued`).

## Model

| member | source | states |
|---|---|---|
| `ExportStream.StreamedEqualsBuffered` | crates/consolebook-server/src/export_stream.rs:103-210 | for every disciplined writer session, with any entries and patches (patches that grow the entry included), the streaming sink answers every operation as an in-memory cursor does and ends having delivered exactly the cursor's bytes; when the destination fails, what was delivered is a prefix of them |
| `ExportStream.DeliveredIsTaken` | crates/consolebook-server/src/export_stream.rs:103-170 | at every point of a disciplined session: while it succeeds both cursors stand at one position, `delivered` counts exactly the bytes the sink has taken and these with the entry held are the reference's bytes; the only failure is that the response takes no more, never a refusal to rewrite, and `delivered` then counts no byte that was not taken |
| `ExportStream.ContainerIsDisciplined` | crates/consolebook-server/src/export_stream.rs:16-42 | the documented container session (header, payload, patches backwards and forwards, directory, final seek) keeps the discipline and its in-memory bytes are the patched entries followed by the directory |
| `ExportStream.ContainerStreams` | crates/consolebook-server/src/exports_http.rs:206-223 | streaming a container session delivers its bytes exactly, or an error and a prefix of them |
| `ExportStream.RunPiecesBounded` | crates/consolebook-server/src/exports_http.rs:541-546 | every piece handed to the queue is non-empty and at most 64 KiB, however large an entry is |
| `ExportStream.MagicPayloadBreaksTheStream` | crates/consolebook-server/src/export_stream.rs:31-39 | why payloads must not begin with the header magic: a concrete session outside the discipline whose stream differs from the buffered bytes |
| `ExportStream.OverlayIs` | crates/consolebook-server/src/export_stream.rs:129-141 | writing over means: the written bytes where they were written, every other byte as it was, zeros where nothing has been |
| `ExportBuffer.EntryBuffer.Write` | crates/consolebook-server/src/export_stream.rs:129-158 | the stateful write moves the buffer exactly as the value model says: patch in place, growth, or a new entry that releases the last |
| `ExportBuffer.EntryBuffer.WriteVectored` | crates/consolebook-server/src/export_stream.rs:164-170 | a vectored write is its parts in order, stopping at the first failure |
| `ExportBuffer.EntryBuffer.Seek` | crates/consolebook-server/src/export_stream.rs:173-210 | seeks from start, current and end, with the patching flag and the release at the end |
| `ExportBuffer.EntryBuffer.ReleaseEntry` | crates/consolebook-server/src/export_stream.rs:103-117 | the open entry goes out once, as one append at `delivered` |
| `ExportBuffer.EntryBuffer.IntoInner` | crates/consolebook-server/src/export_stream.rs:122-125 | an entry left open is released before the sink is given back |
| `ExportBuffer.ChunkSink.Write` | crates/consolebook-server/src/exports_http.rs:570-586 | one bounded piece is queued and counted in `sent`, or the client is gone |
| `ExportBuffer.ChunkSink.Seek` | crates/consolebook-server/src/exports_http.rs:588-603 | the sink answers its own position and refuses to rewind |
| `ExportBuffer.StreamContainer` | crates/consolebook-server/src/exports_http.rs:214-219 | driving a whole writer session through the buffer and flushing: complete means every byte of the in-memory archive was handed on |
| `ExportDelivery.CleanEndIsWhole` | crates/consolebook-server/src/exports_http.rs:361-390 | in every interleaving of sends, stalls, failures, panic, departure and polls, a body that ends cleanly has delivered the whole archive, and at any moment the client holds a prefix of it |
| `ExportDelivery.QueueIsBounded` | crates/consolebook-server/src/exports_http.rs:541-568 | the queue never holds more than 8 items of at most 64 KiB |
| `ExportDelivery.LostNeverEndsCleanly` | crates/consolebook-server/src/exports_http.rs:392-398 | a producer that failed, panicked or ended without completing is never followed by a clean end, whether or not its failure item found room |
| `ExportDelivery.BrokenStaysBroken` | crates/consolebook-server/src/exports_http.rs:477-505 | the body may be polled again after a failure or after its end: along every run an error is followed by errors alone and an end of body by ends alone, so no bytes and no clean end come after a failure the client was told of |
| `ExportDelivery.GoneBodyEnds` | crates/consolebook-server/src/exports_http.rs:458-470 | the body of a producer that is gone can always be polled to an end |
| `ExportDelivery.WholeDownloadExists` | crates/consolebook-server/src/exports_http.rs:200-270 | every archive can be downloaded whole: the safety results are not met by never ending |
| `ExportDelivery.CleanDownloadIsTheContainer` | crates/consolebook-server/src/exports_http.rs:178-270 | both halves together: a download of a container session that ends cleanly is byte for byte the buffered archive |
| `ExportDelivery.HandOffLosesNothing` | crates/consolebook-server/src/exports_http.rs:411-430 | of any queue, item and client: a send succeeds exactly when there comes to be room before the deadline and the client's departure, and the queue is then what the client's takes left of the old one, in order and with nothing dropped, followed by the item; when it is given up the queue is as it was |
| `ExportDelivery.HandOffIsARun` | crates/consolebook-server/src/exports_http.rs:411-430 | a hand-off of the next chunk, whatever the client does meanwhile, is a run of the delivery protocol to the same queue: the client's polls or departure and then one send, or the step for why there was none |
| `ExportDelivery.OnlyIdleClientsStall` | crates/consolebook-server/src/exports_http.rs:411-430 | a send is given up only when the queue stayed full for the whole wait; an item sent is the last in the queue |
| `ExportDelivery.ResponseQueue.SendBefore` | crates/consolebook-server/src/exports_http.rs:411-430 | the retry loop does what its specification says of any client behaviour between tries |
| `Canonical.DigestRoundTrip` | crates/consolebook-server/src/canonical.rs:100-118 | decoding undoes encoding for every 32-byte digest, and the encoding is lowercase hex |
| `Canonical.HexRoundTripIsExact` | crates/consolebook-server/src/export_verify.rs:883-888 | encoding undoes decoding for exactly the 64-character lowercase hashes |
| `Canonical.OtherSpellingsDecode` | crates/consolebook-server/src/canonical.rs:108-118 | decoding alone also accepts upper case and a leading plus, which is why readers check the spelling first |
| `Canonical.DecodeHash` | crates/consolebook-server/src/canonical.rs:108-118 | the array-filling loop decodes exactly what the specification decodes |
| `Canonical.HashesAreStoredForm` | crates/consolebook-server/src/canonical.rs:76-97 | both fingerprints are written in the stored form |
| `Canonical.PreimageIsUnambiguous` | crates/consolebook-server/src/canonical.rs:86-97 | the chain preimage fixes the bytes and the predecessor, the missing one being all zeros by design |
| `Canonical.ChainHashCoversTheLink` | crates/consolebook-server/src/canonical.rs:82-96 | a chain hash is the hex of the hash of the domain's name, a zero byte, the 32 bytes the stated predecessor decodes to (zeros for none) and the canonical bytes, and is refused exactly when the predecessor does not decode |
| `Canonical.ChainHashesAgreeExactly` | crates/consolebook-server/src/canonical.rs:82-96 | two chain hashes agree exactly when the bytes and the predecessor's digest do, unless the hash function collides on the two links |
| `CanonicalJson.ParseUndoesSerialize` | crates/consolebook-server/src/canonical.rs:39-42 | parsing undoes serialising on every permitted document within the reader's depth |
| `CanonicalJson.SerializeIsInjective` | crates/consolebook-server/src/canonical.rs:31-42 | the canonical form is unique: two permitted documents with one text are one document, at any depth |
| `CanonicalJson.ReserialiseIsExact` | crates/consolebook-server/src/export_verify.rs:691-707 | a text passes the re-serialise test if and only if it is the serialisation of a permitted document no deeper than the reader allows |
| `CanonicalJson.CanonicalTextVerifiesUpToDepth` | crates/consolebook-server/src/canonical.rs:39-74 | what the writer produces passes the test if and only if it nests at most 127 deep |
| `CanonicalJson.DeepDocumentIsRefused` | crates/consolebook-server/src/canonical.rs:39-42 | a concrete permitted document, 128 arrays deep, that serialises and then fails the test |
| `CanonicalJson.StringReads` | crates/consolebook-server/src/canonical.rs:33-38 | every string survives escaping and reading, controls and quotes included |
| `CanonicalForm.CanonicalTextIsTheForm` | crates/consolebook-server/src/canonical.rs:30-72 | what the writer produces is the canonical form, stated of texts apart from the serialiser, and nothing else: seven two-character escapes, `\u00` and two lowercase digits for every other control, every other character as itself, plain decimal integers, one comma or colon between two parts |
| `CanonicalForm.OnlyTheFormVerifies` | crates/consolebook-server/src/export_verify.rs:691-707 | a text passes the re-serialise test if and only if it is the canonical form, members in ascending order of their names, of a permitted document no deeper than the reader allows |
| `CanonicalForm.NoBlankOutsideStrings` | crates/consolebook-server/src/canonical.rs:33-38 | canonical text has no blank outside its strings, nor anything but brackets, separators, numbers and literals |
| `CanonicalForm.RefusedExactly` | crates/consolebook-server/src/canonical.rs:44-72 | a document is refused if and only if something in it is a number that is no integer or reaches 2^53 in magnitude, or an object with a name outside ASCII |
| `Basics.TextLessIs` | crates/consolebook-server/src/canonical.rs:32-33 | the order of member names is that of their characters: a proper beginning comes first, else the first character that differs decides |
| `RecordSealing.SealedIsWhatWasApproved` | crates/consolebook-server/src/finalization.rs:156-245 | where review is required, a finalization seals the last submission after the open amendment's mark, and the decision on it, later in the same cycle, approves it and is by someone who is not a contributor at sealing |
| `RecordSealing.EverySealedVersionWasSubmitted` | crates/consolebook-server/src/finalization.rs:186-245 | over every run, every version holds what its own cycle submitted last, between the mark that opened the cycle and its seal; the cycle's last decision approves it, later than the submission, by someone who had not shaped the record by then |
| `RecordSealing.ContributorsAreShapers` | crates/consolebook-server/src/draft_access.rs:23-51 | who is a contributor at any moment is who the events up to then say, the owner included |
| `RecordCalls.DecisionIsTheReviewers` | crates/consolebook-server/src/draft_review.rs:66-141 | a decision is accepted exactly from a reviewer who is no contributor, on a submitted record, a change request with a comment; the row, its event and the returned copy are the caller's verdict, name and trimmed comment, and the status afterwards is the one given |
| `RecordCalls.EverySealWasApprovedByACall` | crates/consolebook-server/src/finalization.rs:156-245 | where review is required, behind every version ever sealed stands a call in the run in which a reviewer who had not shaped the record approved it, in that version's own cycle |
| `RecordCalls.StatusIsAMachine` | crates/consolebook-server/src/evaluation_drafts.rs:174-205 | the derived status moves as the workflow says: each call is accepted only from where it may be and leads to its own status, a refused one leaves it, a new record is a draft |
| `RecordCalls.ContributorsAreThoseWhoActed` | crates/consolebook-server/src/draft_access.rs:23-51 | the contributors are exactly those who created the record, had a save, link edit or submission accepted, or received it: attribution loses nobody and adds nobody |
| `RecordCalls.OneEventAStretch` | crates/consolebook-server/src/draft_content.rs:466-507 | no two contributions of one user stand next to each other unless the record was reopened between them |
| `RecordCalls.SaveAcceptedExactly` | crates/consolebook-server/src/draft_content.rs:292-464 | a save is accepted exactly from someone who may, on an editable record, with the current revision, of admitted content, and leaves all but copy, revision and contributions alone |
| `RecordCalls.EditLinksAcceptedExactly` | crates/consolebook-server/src/summaries.rs:333-429 | a link edit is accepted exactly on an editable summary with the current revision, for a daily version of the same enrollment not yet linked, or one that is linked |
| `RecordCalls.TransferAcceptedExactly` | crates/consolebook-server/src/evaluation_drafts.rs:433-529 | ownership moves exactly when the owner, as seen before and as found within, or a coordinator hands it to an eligible other user; the event names both |
| `RecordCalls.SubmitAcceptedExactly` | crates/consolebook-server/src/evaluation_drafts.rs:537-650 | a submission is accepted exactly from the owner or a coordinator, on an editable record, with the current revision, of a copy that meets the pinned rules, and keeps that copy |
| `RecordCalls.AmendAcceptedExactly` | crates/consolebook-server/src/amendments.rs:118-185 | an amendment opens exactly for a reviewer with a reason on a finalized record; it names the latest version and marks where events and decisions stand |
| `RecordCalls.FinalizeStores` | crates/consolebook-server/src/finalization.rs:202-245 | a finalization adds one version, the next in number, holding the record's copy and links, who sealed it and when, the row and content hash of the one before, and both hashes over exactly these bytes |
| `RecordCalls.EveryVersionIsLinked` | crates/consolebook-server/src/finalization.rs:756-806 | every version of every reachable record: its content hash is its own bytes' and its chain hash covers the domain, the digest of the bytes of the version before, or zeros, and its own bytes |
| `RecordTheorems.ChangeRequestsAnswerSubmissions` | crates/consolebook-server/src/draft_review.rs:99-127 | a change request's snapshot equals the submission it answers |
| `RecordTheorems.ApprovedIsNeverWedged` | crates/consolebook-server/src/finalization.rs:186-200 | in every reachable state whose status is approved, a reviewer finalizing with the current revision is not refused, in any amendment cycle |
| `RecordTheorems.FinalizeAcceptedExactly` | crates/consolebook-server/src/finalization.rs:141-235 | finalization succeeds if and only if a reviewer asks with the current revision for a record that is not finalized and whose copy was approved, or, where no review is required, meets the pinned rules; the stored predecessor hash always decodes |
| `RecordTheorems.UnmatchedDecisionIsUnreachable` | crates/consolebook-server/src/evaluation_drafts.rs:174-205 | the fallback for a decided event without its decision is never taken |
| `RecordTheorems.StepMovesRevision` | crates/consolebook-server/src/draft_content.rs:292-464 | no call changes the working copy or the links without raising the revision, and no call lowers it |
| `RecordTheorems.SameRevisionSameCopy` | crates/consolebook-server/src/draft_content.rs:292-464 | two states of a run with one revision have the same ratings, narratives and links |
| `RecordTheorems.AcceptedCallsActOnWhatWasViewed` | crates/consolebook-server/src/summaries.rs:333-429 | an accepted save, link edit, submission or finalization acts on exactly the copy its caller viewed, whatever ran in between |
| `RecordTheorems.HistoryOnlyGrows` | crates/consolebook-server/src/finalization.rs:225-245 | events, decisions, snapshots, versions and amendments are only appended to; earlier versions never change |
| `RecordTheorems.VersionsFormAChain` | crates/consolebook-server/src/finalization.rs:202-245 | versions are numbered 1 to n, each naming the row and content hash of the one before, with distinct rows |
| `RecordTheorems.OneAmendmentPerSuccession` | crates/consolebook-server/src/amendments.rs:118-185 | each superseded version has exactly one amendment; at most one is open and it is on the latest version |
| `RecordTheorems.EveryVersionVerifies` | crates/consolebook-server/src/finalization.rs:756-806 | both stored fingerprints of every version verify in every reachable state; a number no version has answers nothing |
| `RecordTheorems.QueueShowsSubmitted` | crates/consolebook-server/src/draft_review.rs:188-217 | the queue's query, which ignores amendment marks, lists a record under review and nothing else exactly when it is not one sealed while submitted; where review is required it lists exactly the submitted records |
| `RecordTheorems.QueueOffersWhatDecideAccepts` | crates/consolebook-server/src/draft_review.rs:195-217 | where review is required, a record is listed as eligible for a reviewer if and only if their decision would be accepted |
| `RecordTheorems.SealedWhileSubmittedStaysQueued` | crates/consolebook-server/src/draft_review.rs:204-217 | a concrete run, under a policy without required review, after which a finalized record is still listed |
| `RecordTheorems.ContentAcceptedExactly` | crates/consolebook-server/src/draft_content.rs:300-420 | a save's content is accepted if and only if every entry is of the form, named once, and carries what its scale takes |
| `RecordTheorems.AcceptedSaveReadsBack` | crates/consolebook-server/src/draft_content.rs:420-464 | an accepted save reads back rating for rating and narrative for narrative, and keeps no other |
| `RecordInvariant.StepKeeps` | crates/consolebook-server/src/evaluation_drafts.rs:156-206 | every call keeps the record invariant: chain, marks, paired decisions, frozen copies, answered submissions |
| `RecordInvariant.OpenIsTheLast` | crates/consolebook-server/src/amendments.rs:118-150 | the query for the open amendment finds it exactly when the latest version has one |
| `RecordService.RecordTables.Save` | crates/consolebook-server/src/draft_content.rs:266-464 | the stateful save, validation loops included, leaves the rows exactly as specified or refuses and leaves them alone |
| `RecordService.RecordTables.EditLinks` | crates/consolebook-server/src/summaries.rs:316-429 | link edits bump the revision and attribute the contribution, or refuse |
| `RecordService.RecordTables.Transfer` | crates/consolebook-server/src/evaluation_drafts.rs:433-530 | ownership moves with its event; both the early and the in-transaction checks refuse |
| `RecordService.RecordTables.Submit` | crates/consolebook-server/src/evaluation_drafts.rs:537-611 | submission checks the pinned rules, snapshots the copy and freezes it |
| `RecordService.RecordTables.Decide` | crates/consolebook-server/src/draft_review.rs:66-135 | the decision, its paired event and the change-request snapshot land together |
| `RecordService.RecordTables.Finalize` | crates/consolebook-server/src/finalization.rs:141-245 | one version row is appended, or a refusal changes nothing |
| `RecordService.RecordTables.Amend` | crates/consolebook-server/src/amendments.rs:96-185 | the amendment row carries the reopening marks and the revision moves |
| `RecordService.RecordTables.AttributeContribution` | crates/consolebook-server/src/draft_content.rs:472-505 | one contributed event per working stretch within a cycle |
| `Lineage.VerifyUnits` | crates/consolebook-server/src/export_verify.rs:574-612 | the loop over the units finds exactly what the specification finds |
| `Lineage.UnitChecksAreExact` | crates/consolebook-server/src/export_verify.rs:762-808 | the unit checks, with the rule that every predecessor is carried, are silent if and only if every record's units are its versions from 1 without a gap, each naming the content hash before it, and every entry's bytes carry both hashes |
| `Lineage.RecordsAreWhole` | crates/consolebook-server/src/packet_verify.rs:85-89 | so each record's carried units are exactly versions 1 to n |
| `Amendments.LineageOf` | crates/consolebook-server/src/packet_verify.rs:376-401 | the two loops build the succession the units state |
| `Amendments.CheckAmendments` | crates/consolebook-server/src/packet_verify.rs:404-474 | the check as it runs, its loops over rows and successions included, finds exactly what is specified |
| `Amendments.AmendmentCheckIsExact` | crates/consolebook-server/src/packet_verify.rs:376-474 | over a whole lineage with distinct hashes the check is silent if and only if the rows are, in order and well shaped, one a succession naming the immediate successor, plus those in progress on last versions |
| `Amendments.OneInProgress` | crates/consolebook-server/src/packet_verify.rs:399-403 | a record has at most one amendment in progress, on its last carried version |
| `LifecycleTheorems.PhaseHistoryIsALegalWalk` | crates/consolebook-server/src/lifecycle.rs:448-621 | in every reachable state effective instants never decrease in recording order and every event leaves from the place its epoch had reached, along an edge of the version that epoch pinned, within the epoch's bounds |
| `LifecycleTheorems.PhaseAcceptedExactly` | crates/consolebook-server/src/lifecycle.rs:448-575 | a phase call is accepted if and only if a coordinator asks, of an active enrollment, with the reason a return or restart needs, for an instant after everything recorded and not in the future, and the step is legal from the place the walk has reached; it then appends exactly its row |
| `LifecycleTheorems.EventAcceptedExactly` | crates/consolebook-server/src/lifecycle.rs:334-440 | a lifecycle call is accepted exactly from a coordinator, with a reason unless it completes, of an active enrollment, or one not active for a reinstatement, and for a version change to another published version of the program no other enrollment pins; it appends its row, repoints the pin only for a version change and leaves the status its kind gives |
| `LifecycleTheorems.StatusIsTheNewest` | crates/consolebook-server/src/lifecycle.rs:206-232 | an enrollment is withdrawn, completed or active as its newest event but for version changes says, and active when there is none |
| `LifecycleTheorems.SignoffAcceptedExactly` | crates/consolebook-server/src/task_signoffs.rs:58-157 | a signoff is accepted exactly of a task of the pinned version: a first one from a coordinator or an author in scope and no revocation, a later one from a reviewer who says why; it appends its row and nothing else |
| `LifecycleTheorems.PlaceIsTheFold` | crates/consolebook-server/src/lifecycle.rs:239-277 | the order-by-effective queries for the current phase and the pause state equal a fold over the recorded events |
| `LifecycleTheorems.PausesAlternate` | crates/consolebook-server/src/lifecycle.rs:540-560 | within an epoch pauses and resumes alternate and the first is a pause |
| `LifecycleTheorems.VersionChangeStartsAfresh` | crates/consolebook-server/src/lifecycle.rs:234-262 | after a version change there is no current phase and no pause, even back to a version pinned before |
| `LifecycleTheorems.PinsFormAChain` | crates/consolebook-server/src/lifecycle.rs:334-440 | the version changes chain from the original pin to the current one, between different published versions of one program, in time order |
| `LifecycleTheorems.OnlyReinstatementRevives` | crates/consolebook-server/src/lifecycle.rs:206-232 | no event but a reinstatement lands on an inactive enrollment, and a reinstatement on no other |
| `LifecycleTheorems.StreamsOnlyGrow` | crates/consolebook-server/src/lifecycle.rs:1-18 | all three streams are append-only and publishing is final |
| `LifecycleInvariant.StepKeeps` | crates/consolebook-server/src/lifecycle.rs:334-621 | every lifecycle, phase and signoff call, and any change of unpublished configuration, keeps the invariant |
| `LifecycleService.EnrollmentTables.Status` | crates/consolebook-server/src/lifecycle.rs:206-232 | the status read from the newest deciding event |
| `LifecycleService.EnrollmentTables.RecordEvent` | crates/consolebook-server/src/lifecycle.rs:334-440 | appends the event and repoints the pin, or refuses in the service's order |
| `LifecycleService.EnrollmentTables.RecordPhase` | crates/consolebook-server/src/lifecycle.rs:448-621 | appends the phase event stamped with its epoch, or refuses in the service's order |
| `LifecycleService.EnrollmentTables.CheckPhase` | crates/consolebook-server/src/lifecycle.rs:500-575 | the pause machine and the pinned graph, read only |
| `LifecycleService.EnrollmentTables.RecordSignoff` | crates/consolebook-server/src/task_signoffs.rs:58-157 | a first signoff or an explained override of a task of the pinned version |
| `Acknowledgments.AcknowledgeKeeps` | crates/consolebook-server/src/acknowledgments.rs:181-298 | the trainee's own word is accepted exactly from the trainee, on a record whose latest version has none, with a response unless it is plain receipt; it is bound to that version as given, and all others are kept |
| `Acknowledgments.AttestKeeps` | crates/consolebook-server/src/acknowledgments.rs:304-395 | a statement about the trainee is accepted exactly from another, with a reason, on a record whose latest version has none; it names both people, and all others are kept |
| `Packet.SignoffShapeErrors` | crates/consolebook-server/src/trainee_packet.rs:463-504 | the one-pass scan with its map of first rows finds exactly the specified errors, in order |
| `Packet.SignoffShapesAreExact` | crates/consolebook-server/src/trainee_packet.rs:441-504 | no error if and only if every row is complete, every later row for a task explained, no first row a revocation, and every task described in one way only |
| `PinHistory.Rebuild` | crates/consolebook-server/src/packet_verify.rs:562-661 | the loop that rebuilds labels, epochs and findings equals its specification |
| `PinHistory.HistoryIsExact` | crates/consolebook-server/src/packet_verify.rs:562-661 | it finds nothing if and only if the changes are one chain ending at the manifest's pin, in recorded order, under one label a version |
| `PinHistory.PinChecksAreExact` | crates/consolebook-server/src/packet_verify.rs:540-766 | over events in recorded order all pin checks are silent if and only if, besides, every phase event and signoff names a version its epoch pinned and fits the epoch's bounds |
| `PacketVerify.CleanMeansIntact` | crates/consolebook-server/src/packet_verify.rs:260-274 | for any packet whose versions hash distinctly, no check finds anything if and only if the packet is intact: lineages, amendments, pins, signoffs, orders, shapes and references |
| `PacketAgreement.ReachablePacketsAreClean` | crates/consolebook-server/src/trainee_packet.rs:551-628 | producer and verifier agree: the packet of every state any interleaving of the services reaches is intact and verifies clean |
| `PacketCompleteness.HistoriesAreCarried` | crates/consolebook-server/src/trainee_packet.rs:694-757 | over every reachable state, stated from the stored rows: the documents carry every lifecycle event, phase event and signoff, each once, in order, with its id, kind, instants, actor, reason, versions, phase names, epoch, task and signer, and nothing else |
| `PacketCompleteness.RecordsAreCarried` | crates/consolebook-server/src/trainee_packet.rs:551-628 | and every version of every record with its hashes and its bytes, every amendment and every acknowledgment, each exactly once with all its members, and nothing else; the manifest names the enrollment, its trainee and the pinned version |
| `PacketAgreement.NextKeeps` | crates/consolebook-server/src/trainee_packet.rs:551-628 | every call of any of the services keeps the invariant of the whole dossier |
| `PacketHistory.EffectiveIsRecorded` | crates/consolebook-server/src/lifecycle.rs:692-733 | the packet's order by effective instant is the order of recording |
| `PacketHistory.LabelsAgree` | crates/consolebook-server/src/trainee_packet.rs:694-757 | within one program a number names one version, so the documents label each version alike |
| `PacketHistory.PhaseDocsPass` | crates/consolebook-server/src/trainee_packet.rs:694-757 | the phase events document is in order, well shaped, and each row in the epoch that pinned its version |
| `PacketHistory.SignoffDocsPass` | crates/consolebook-server/src/trainee_packet.rs:831-872 | the signoffs document is in order, explained, and each row signed while its version was pinned |
| `PacketRecords.UnitsAreWhole` | crates/consolebook-server/src/record_export.rs:584-640 | the exported units of reachable records are whole lineages |
| `PacketRecords.AmendmentsAreFaithful` | crates/consolebook-server/src/trainee_packet.rs:798-829 | the amendments document is one row a succession, with those in progress on last versions |
| `PacketRecords.AcksDocPasses` | crates/consolebook-server/src/trainee_packet.rs:759-796 | the acknowledgments document is in order, about the trainee and about carried versions |
| `Agreement.CheckAgreement` | crates/consolebook-server/src/installation_verify.rs:416-496 | the check with its maps and counting loop finds exactly what is specified |
| `Agreement.AgreementIsExact` | crates/consolebook-server/src/installation_verify.rs:416-496 | for units of distinct identity and sound rows it is silent if and only if rows and units correspond one to one and agree on schema, both hashes and the predecessor's content hash |
| `Agreement.OneToOneInNumber` | crates/consolebook-server/src/installation_verify.rs:410-415 | and then there are as many rows as units |
| `ZipContainer.CentralDirectoryEntries` | crates/consolebook-server/src/zip_container.rs:48-102 | the search and the walk, loops and error order included, equal their specification |
| `ZipContainer.DirectoryRoundTrip` | crates/consolebook-server/src/zip_container.rs:48-102 | any header list after any prefix, classic or ZIP64 as counts and offsets require, is read back exactly, entry by entry in order and with duplicates, unless a later end-record signature stands where the search looks |
| `ZipContainer.CommentlessRoundTrip` | crates/consolebook-server/src/zip_container.rs:56-60 | with no archive comment the round trip is unconditional |
| `ZipContainer.CommentCanHideDirectory` | crates/consolebook-server/src/zip_container.rs:56-60 | a comment that is itself an end record hides any directory |
| `ZipContainer.EntriesAreBounded` | crates/consolebook-server/src/zip_container.rs:73-101 | on any input each accepted header consumes at least 46 bytes |
| `ZipWalk.WalkIsExact` | crates/consolebook-server/src/zip_container.rs:48-102 | of any bytes whatever: the walk answers with these entries if and only if the last end record the search can reach, the directory it names (through the ZIP64 record where its fields are all ones) and exactly these headers stand in them, every field spelt in bytes |
| `ZipContainer.EndIsFound` | crates/consolebook-server/src/zip_container.rs:56-60 | the search stops at the record written if and only if no later position it tries holds the signature |
| `ZipContainer.FieldRoundTrip` | crates/consolebook-server/src/zip_container.rs:104-123 | little-endian fields read back at every width |
| `Sessions.NobodyIsDoubleBooked` | crates/consolebook-server/src/training_sessions.rs:201-225 | after any sequence of creations, edits, closes and cancellations over all of a trainee's enrollments no instant belongs to two of their sessions |
| `Sessions.ClashIsExact` | crates/consolebook-server/src/training_sessions.rs:212-219 | the overlap test holds if and only if the intervals share an instant, or one of no length, stored or new, falls strictly inside the other; touching ends, and two of no length, are allowed |
| `Sessions.CreateAcceptedExactly` | crates/consolebook-server/src/training_sessions.rs:231-350 | a session is created exactly when there is a row that is what was entered, its instants those the local times name, on an active enrollment with nothing in its way; that row is stored and nothing else changes |
| `Sessions.UpdateAcceptedExactly` | crates/consolebook-server/src/training_sessions.rs:372-452 | an edit stores the zone and start entered, exactly when the session is open, they are real and leave it clear of every other |
| `Sessions.CloseAcceptedExactly` | crates/consolebook-server/src/training_sessions.rs:462-547 | closing stores the outcome and end entered, the end no earlier than the start, or cancels without one, exactly for an open session; a documented one is not cancelled |
| `Sessions.StepKeeps` | crates/consolebook-server/src/training_sessions.rs:231-547 | every call keeps active intervals of one trainee apart |
| `Sessions.CloseKeeps` | crates/consolebook-server/src/training_sessions.rs:462-547 | although closing checks no overlap |
| `Sessions.OpenSessionsBlockTheFuture` | crates/consolebook-server/src/training_sessions.rs:301-303 | while a session is open, only one that ended by its start can be added |
| `SessionService.SessionTable.FindOverlap` | crates/consolebook-server/src/training_sessions.rs:201-225 | the search finds an overlap exactly when there is one |
| `SessionService.SessionTable.Create` | crates/consolebook-server/src/training_sessions.rs:231-350 | creates an open or complete session, or refuses in the service's order |
| `SessionService.SessionTable.UpdateOpen` | crates/consolebook-server/src/training_sessions.rs:372-452 | edits an open session, or refuses |
| `SessionService.SessionTable.Close` | crates/consolebook-server/src/training_sessions.rs:462-547 | closes or cancels an open session, or refuses |
| `Backups.SnapshotDirectory.Snapshots` | crates/consolebook-server/src/backup.rs:153-178 | lists exactly the snapshot names, oldest first by stamp and name |
| `Backups.SnapshotDirectory.PruneIn` | crates/consolebook-server/src/backup.rs:241-252 | the deletion loop leaves exactly the snapshots with fewer than max(keep, 1) newer ones, and every other file |
| `Backups.PruningKeepsNewest` | crates/consolebook-server/src/backup.rs:241-252 | retention keeps exactly the newest max(keep, 1), never deletes the last and touches no other file |
| `Backups.OneOrder` | crates/consolebook-server/src/backup.rs:206-215 | the order is total on names, so a directory has one listing |
| `Backups.OrderIsByStamp` | crates/consolebook-server/src/backup.rs:206-215 | a snapshot's stamp is what stands between its last dash and `.db`, whatever its kind; snapshots of every kind are in the order of their stamps and only within one stamp of their names |
| `BackupNames.CopiesCarryTheirDigest` | crates/consolebook-server/src/backup_copy.rs:65-130 | in every interleaving, with a crash at any point, while no two jobs work on one name at once, a snapshot name appears only through the job that owns it, with its snapshot's digest, and no copy is overwritten |
| `BackupNames.WrongExactlyInDanger` | crates/consolebook-server/src/backup_copy.rs:95-117 | and exactly when it fails: in every reachable state, with the jobs then at work, a name can come to carry bytes without its snapshot's digest if and only if a job stands verified over such bytes, or two jobs on one name stand where one can still write over what the other has verified or will verify |
| `BackupNames.OverExactlyInDanger` | crates/consolebook-server/src/backup_copy.rs:89-117 | likewise a copy can be put over one already there if and only if a job can still name its copy while its name is taken, or two jobs on one name can both still name theirs |
| `BackupNames.SharedNameCarriesAPrefix` | crates/consolebook-server/src/backup_copy.rs:95-117 | the failing input: two snapshots of one name, started together where both may copy; the name comes to carry the beginning of the second, of another digest, where the first was verified |
| `BackupOwnership.ScanFindsTheChief` | crates/consolebook-server/src/backup_copy.rs:166-202 | the scan answers with the owner of the newest readable backup of an installation's own kind or, failing any, of the newest readable one set aside, and with none exactly when nothing is readable |
| `BackupOwnership.OnlyTheOwnerPasses` | crates/consolebook-server/src/backup_copy.rs:174-202 | so whatever else a directory holds, unreadable files and databases others set aside included, the check lets in the owner of that backup and no other |
| `BackupOwnership.BothPassExactly` | crates/consolebook-server/src/backup_copy.rs:171-190 | two installations can both pass the check if and only if nothing in the directory is readable |
| `BackupOwnership.SlowScanAgrees` | crates/consolebook-server/src/backup_copy.rs:181-187 | a scan that opens files one after another, while some are deleted, answers as one look would if the backup it would find is still there when opened |
| `BackupClaims.BothClaimExactly` | crates/consolebook-server/src/backup_copy.rs:88-95 | before any file changes, jobs of two installations can both have claimed a directory if and only if nothing in it is readable |
| `BackupClaims.UnreadableDirectoryCanBeShared` | crates/consolebook-server/src/backup_copy.rs:161-172 | and then both can add their backups to it, whatever unreadable files it holds: the check and the copy are not one step |
| `BackupSurvival.SurvivesExactly` | crates/consolebook-server/src/backup_copy.rs:17-22 | no run lets another installation's job change a file in a directory if and only if its newest readable backup, own kind first, is the installation's, and so it is among the newest max(keep, 1) that retention keeps; the installation running one job at a time, others any number |
| `BackupSurvival.OthersNeverTouchIt` | crates/consolebook-server/src/backup_copy.rs:174-202 | such a directory stays such through every interleaving and crash, adding, undoing and pruning included, and no operation of another's job changes a file in it |
| `BackupSurvival.RetentionCanLoseTheDirectory` | crates/consolebook-server/src/backup.rs:241-252 | the failing input: a newer database that another installation set aside outlives the owner's only backup in the owner's own retention, which goes by age alone, and the directory is then the other's |
| `BackupRetention.CompletedPruneLeavesNewest` | crates/consolebook-server/src/backup_copy.rs:124-130 | whosever files they are and readable or not: while nobody else changes files, a retention run leaves at every point what a later one would finish, and when over exactly the newest max(keep, 1) snapshots and every other file |
| `BackupRetention.CopyLandsOrLeaves` | crates/consolebook-server/src/backup_copy.rs:88-132 | wherever a copy alone in the directory stops or crashes, either nothing but its partial file differs or the copy is in place, whole, under a name that was free; when over it has left every other file alone or landed with retention applied |
| `BackupCopyService.CopyDirectory.EnsureSameInstallation` | crates/consolebook-server/src/backup_copy.rs:174-202 | the scan for the newest readable copy decides whose directory it is |
| `BackupCopyService.CopyDirectory.CopySnapshot` | crates/consolebook-server/src/backup_copy.rs:65-130 | an undisturbed copy either lands with its digest and retention applied, or leaves every file but the partial one alone |

## Left out

- `PacketAgreement.ReachablePacketsAreClean`: assumes that the stored versions of one record hash distinctly, because SHA-256 is an arbitrary function here; the checks it covers are those of the manifest's shape, the units, the lineage, the amendments, the orders, shapes and references, and the pin history, not the archive's paths, entry list and stored document hashes.
- `PacketVerify.CleanMeansIntact`: the same assumption, for any packet.
- `Lineage.UnitChecksAreExact`: does not model the envelope's own members (format, schema, trainee, names) or the unit manifest, which are parsed member by member.
- `PacketCompleteness.HistoriesAreCarried`: when the enrollment began and the names of its trainee and program are not part of the documents modelled; an actor's name is the one shown at export.
- `ExportStream.StreamedEqualsBuffered`: positions are unbounded naturals, so the overflow refusals of 64-bit positions are not modelled.
- `ExportDelivery.CleanEndIsWhole`: a stall is a step that may happen at any time the queue is full, not a measured minute, and audit and authorization before the first byte are one preparing phase.
- `CanonicalJson.ReserialiseIsExact`: text is a sequence of Unicode scalar values; UTF-8 encoding and its refusals are not modelled, and a number with a fraction, an exponent or more than 64 bits is one inexact value, which validation refuses whether the reader would round it or refuse it.
- `CanonicalJson.ParseUndoesSerialize`: models the JSON reader of the library (its grammar, escapes, last-wins members and depth limit) as RFC 8259 and that library's documentation describe it; its source is not part of this model.
- `ZipContainer.DirectoryRoundTrip`: a name is its raw bytes, not their lossy UTF-8 decoding, and offsets are unbounded beyond their field widths.
- `Agreement.AgreementIsExact`: takes rows whose columns have their types, whose ids are distinct and whose predecessors resolve; those are other checks' findings.
- `Amendments.CheckAmendments`, `PinHistory.Rebuild`, `Agreement.CheckAgreement`: findings are sets, so a report's order and its wording are not modelled.
- `Sessions.NobodyIsDoubleBooked`: assumes instants lie below the largest 64-bit integer, as every calendar instant does; trainer membership and the phase of a session are checks with a given answer.
- `BackupOwnership.OnlyTheOwnerPasses`: the machine of `BackupCopy` lists a directory and reads its owners in one step, where the code lists twice and opens the files one after another; between those the owner's own jobs may delete what was listed, and a scan that finds all of it gone lets anybody in (`BackupOwnership.SlowScanCanFindNothing`).
- `BackupSurvival.SurvivesExactly`: the owner's service runs one job at a time and keeps at least `keep`; the runs start with no job at work; looks are single steps, as above. Whether a directory is on another filesystem is decided before a copy begins.
- `BackupNames.WrongExactlyInDanger`: a write makes the whole of the partial file the beginning of its job's snapshot; writes of two jobs interleaved by offset in one open file are not modelled. What is stored is what was written; a read-back that differs from it is a choice that fails the copy.
- `RecordSealing.EverySealedVersionWasSubmitted`: a snapshot names the event its own transaction appends; the table keeps no such column, only the order.
- `ExportBuffer.ChunkSink.Write`: a client that left and one that stalled are one refusal, and how many more pieces the response takes is a number given beforehand; `ExportDelivery` models both as they happen.
- `Lineage.VerifyUnits`: the unit manifest, the re-serialise test (`CanonicalJson.ReserialiseIsExact`) and the envelope's members are other checks, and findings are a set.
- `LifecycleService.EnrollmentTables.RecordSignoff`: whether the pinned version owns the signed item is read in the same step as the insert, which the table's own trigger enforces; the earlier read outside the transaction only refuses sooner.
- `RecordWorkflow.Perform`: a policy row that is missing is not modelled separately from one with every rule on; coverage of training sessions and the wording of notices and audit entries are left out.
- A call that names an enrollment, record or session that does not exist is modelled only where the table itself is part of the state.
- HTTP routing, refusal-to-status mapping, request parsing, the web interface and command line.
- Capability grants and assignments: answers to a step, not state.
- Presentation reads (workspaces, timelines, matrices, histories) and export authorization and scopes.
- The installation export's table ledger, exclusions and row documents.
- Copy and backup status reads, snapshot taking and validation, and restore.
- SQL text, connection pools, migrations other than the triggers named above, and I/O errors of the database.
- The `zip` writer's internals, beyond the session it is documented to perform.
