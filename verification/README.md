# Verified models of Kayle ID's core logic

Dafny models of six parts of the Kayle ID repository, and proofs about them.  `dafny verify
dfyconfig.toml` checks the whole project.  Nothing was executed.

1. **Resumable upload.** `ChunkedUpload` is the iOS client's window loop with its acknowledgement and
   retry rules, `UploadResend` and `UploadCompletion` the loops around it.  `TransferServer` is the
   server's chunk assembly (`TransferMessages` its errors and bounds), `TransferStatus` what it says is
   missing.  `UploadDelivery` proves delivery against every honest server.  `UploadWindows` runs one
   window of the client against the repository's server and `UploadEndToEnd` one call, `UploadLedger`
   and `UploadBlocks` lists of resends, `UploadPhases`, `NfcPhase`, `NfcRestream` and `LivenessPhase`
   whole phases, and `UploadCalls` the uploads with the phase that follows them.  What the network does
   is a finite script of turns, so a statement for all scripts covers every finite prefix of every run.
   `UploadSlot` is the first-in first-out slot of the liveness upload as a state machine over acquire,
   release and cancel.
2. **DG2 codec.** `Dg2Writer` and `Dg2Parser` follow the two separately written programs (tags and
   lengths of ITU-T X.690, sections 8.1.2.4, 8.1.3.4 and 8.1.3.5); `Dg2RoundTrip` proves one the inverse
   of the other, and `Dg2Reading` what the reader makes of every file in that encoding.
3. **Organization deletion.** `OrgDeletionStore` has the operations on the database rows as methods,
   `OrgDeletionProtocol` lets all their reads, statements and transactions interleave
   (`OrgDeletionCalls` relates the two), `OrgDeletionSafety` proves the invariant and `OrgDeletionRuns`
   what follows for runs.  `OwnedOrganizations` is account deletion, `Roles` the two readers of role
   strings (with `RegularExpressions` for the SQL one).
4. **PKD importer.** `Ldif` and `LdifRoundTrip` (RFC 2849), `DistinguishedName` (RFC 4514, section 2.4),
   `DscSegments`, `DscListing` and `DscLookup` (segments and their index), `SqlBatches` and
   `SqlReadBack`.
5. **Detection and sampling.** `Suppression` (non-maximum suppression) and `FrameSampling`.
6. **Pixel geometry.** `ChallengeNonce`, `PixelGeometry` (affine maps, warp, resize), `BilinearSurfaces`
   and `PadCrop`.

Loops and updates of the sources are methods, each proved equal to a recursive specification function or
against the property itself; objects that change are classes.  `Wrappers`, `JsText`, `Decimal`,
`BigEndian` and `Arithmetic` hold what several modules share.

## What the code does differently from what one would expect

Each of these is proved, with the exact condition where there is one.

- A resend that fills the last gaps of an artifact whose final chunk the server already holds ends
  with an error on the client although the server has everything (`UploadEndToEnd.ResumedUpload`,
  `ResendOverGapFails`): the final acknowledgement is taken for the final chunk's.
- One resend does not in general complete a phase.  Each missing chunk is resent by an upload that runs
  on to the artifact's end; the first of them completes the artifact and drops its entry, and the next
  opens an entry again, which is then reported as incomplete.  So a phase closes after a resend only
  when just the last chunk was missing, and never for a partly received DG1, DG2 or SOD that the server
  does not have yet: it lists those twice, as artifacts and by index (`NfcPhaseOutcome`,
  `LivenessPhaseOutcome`).  Nothing is resent in the usual run: a phase closes at the first answer once
  its uploads have returned (`NfcCallCloses`, `LivenessCallCloses`), and after a reconnect at the second
  (`ReconnectedCallCloses`).
- A restream of the NFC artifacts in the liveness phase fails if the last chunk of an incomplete one is
  held (`Restream`, `LivenessPhaseOutcome`).
- A server entry left over with another chunk total makes the client retry forever
  (`NeverEndsIffStale`).  One with the same total is completed, and mixes two recordings, while the
  client stops with an error (`SessionFrom`, `LeftoverChunksMix`); a call from the start that returns
  normally never does (`DeliveredFromStart`).
- A reset that cancels the waiters while the slot is held lets a second upload in
  (`CancelBreaksExclusionIffHeld`).
- The DG2 writer detects JPEG 2000 by eight bytes of the box signature, the parser asks for twelve
  (`DetectedImagesReadBack`).
- The SQL role predicates admit repeated roles, the program's check does not (`ReadersCompared`).
- The requester column of a pending deletion becomes null when that account is deleted, by its foreign
  key, while the other two stay (`PendingColumns`).
- The cron selects and deletes in two statements: a cancellation in between reports success and the
  organization is deleted all the same (`CancellationCanBeOverrun`).  The deletion of sole-owned
  organizations has the same shape (`StaleSoleOwnedSet`, `TwoLeavingOwners`).  The grace period counts
  from the time the confirming call took at its start, and the cron's time is its scheduled time
  (`apps/api/src/index.ts:209`).
- An escaped space at the end of a distinguished name value, as RFC 4514 writes it, is lost, and one at
  the start is kept (`TrailingEscapedSpaceIsLost`, `EscapedSpacesReadBackIff`).
- A country key with a hyphen can coincide with a numbered segment of another country, and one file
  overwrites the other (`KeysDistinctIff`, `LookupsAgreeIff`).
- With a cap of zero, suppression still keeps one face (`Suppression.Nms`, `GreedyIsKept`).
- The frame estimate is lowered for clips that decode in full (`FullClipLooksShorterIff`), though the
  comment there speaks of running out of frames; it matters only when the container gives no duration.

## Model

| member | source | states |
|---|---|---|
| ChunkedUpload.ChunkData | apps/ios/Kayle ID/Models/VerificationSession+UploadChunks.swift:4-19 | the pieces concatenate to the data, all but the last are exactly the chunk size, the last is not longer, and there is at least one |
| ChunkedUpload.FirstMatch | apps/ios/Kayle ID/Models/VerificationSession+UploadChunks.swift:73-90 | the first chunk of the window an acknowledgement can belong to, and none only if it belongs to no chunk of the window |
| ChunkedUpload.RetryIndex | apps/ios/Kayle ID/Models/VerifyWebSocketAuthPolicy.swift:165-189 | a retry index is taken exactly from a retry instruction with this plan's kind and index and a chunk index inside the plan, and is that chunk index |
| ChunkedUpload.JudgeResponses | apps/ios/Kayle ID/Models/VerificationSession+UploadChunks.swift:51-105 | the response loop takes the specified verdict: advance, retry at an index or fail |
| ChunkedUpload.JudgeStops | apps/ios/Kayle ID/Models/VerificationSession+UploadChunks.swift:51-105 | the first response that acknowledges no chunk of the window decides: a retry of this plan, the server's error, or an unexpected response |
| ChunkedUpload.JudgeCounts | apps/ios/Kayle ID/Models/VerificationSession+UploadChunks.swift:98-107 | if every response acknowledges one, the window is done exactly when the chunks acknowledged are as many as were sent |
| ChunkedUpload.UploadDataPlan | apps/ios/Kayle ID/Models/VerificationSession+UploadChunks.swift:21-127 | for every script of cancellations, responses and failures: each window sent begins where the answers to the one before lead and has the given size, or one chunk once there was a retry; a cancelled turn sends nothing and ends the call; the outcome is that of the last window, and of the recursive run |
| UploadDelivery.Pigeonhole | apps/ios/Kayle ID/Models/VerificationSession+UploadChunks.swift:98-107 | as many distinct acknowledged indices as requests in the window means every request was acknowledged |
| UploadDelivery.NotTooMany | apps/ios/Kayle ID/Models/VerificationSession+UploadChunks.swift:98-107 | a window never has more acknowledged indices than requests |
| UploadDelivery.AckIsEvidence | apps/ios/Kayle ID/Models/VerifyWebSocketAuthPolicy.swift:140-159 | an acknowledgement the client accepts for a chunk, from a server that acknowledges only what it stores, means the chunk is stored |
| UploadDelivery.JudgeIsSound | apps/ios/Kayle ID/Models/VerificationSession+UploadChunks.swift:51-125 | advancing means the whole window is stored, and a retry index is never beyond the first gap from the start index on |
| UploadDelivery.RunDelivers | apps/ios/Kayle ID/Models/VerificationSession+UploadChunks.swift:39-126 | the loop invariant over every finite run: everything from the start to the next chunk stays stored through advances, jumps and the window of one |
| UploadDelivery.UploadDelivers | apps/ios/Kayle ID/Models/VerificationSession+UploadChunks.swift:21-127 | a normal return from index s means every chunk from s on is stored, for every window and run of retries |
| UploadDelivery.UploadDeliversRaw | apps/ios/Kayle ID/Models/VerificationSession+UploadChunks.swift:4-127 | from index 0 the stored chunks put together are the raw bytes |
| UploadResend.ResendArtifacts | apps/ios/Kayle ID/Models/VerificationSession+NFCUpload.swift:260-276 | the artifact loop runs exactly the uploads listed by the specification, stopping at the first that does not return |
| UploadResend.ResendChunks | apps/ios/Kayle ID/Models/VerificationSession+NFCUpload.swift:278-297 | the chunk loop skips unknown kinds and indices out of range, and takes the rest in ascending order |
| UploadResend.ResendMissingNfcData | apps/ios/Kayle ID/Models/VerificationSession+NFCUpload.swift:252-298 | artifacts first, then single chunks, as one list of uploads |
| UploadResend.ResendMissingLivenessData | apps/ios/Kayle ID/Models/VerificationSession+LivenessUpload.swift:148-174 | an empty list resends the whole video, otherwise the listed chunks of the video |
| UploadResend.SortedNeverFalls | apps/ios/Kayle ID/Models/VerificationSession+NFCUpload.swift:284-296 | the indices of a listed entry are taken in ascending order, each as often as listed |
| UploadResend.NfcJobsListed | apps/ios/Kayle ID/Models/VerificationSession+NFCUpload.swift:252-298 | nothing is sent that the list does not ask for: whole artifacts by name, or from a listed index inside the artifact of the listed kind |
| UploadResend.LivenessJobsListed | apps/ios/Kayle ID/Models/VerificationSession+LivenessUpload.swift:148-174 | the same for the video |
| UploadResend.JobsDeliver | apps/ios/Kayle ID/Models/VerificationSession+NFCUpload.swift:252-298 | assuming a server that never forgets a chunk: after a normal return of a list of uploads each of them is still delivered |
| UploadResend.NfcResendDelivers | apps/ios/Kayle ID/Models/VerificationSession+NFCUpload.swift:252-298 | on the same assumption, after a normal return all chunks the server listed, and all of every artifact it named, are stored |
| UploadResend.LivenessResendDelivers | apps/ios/Kayle ID/Models/VerificationSession+LivenessUpload.swift:148-174 | the same for the video |
| UploadCompletion.CompleteNfcPhase | apps/ios/Kayle ID/Models/VerificationSession+NFCUpload.swift:198-250 | over every script of answers: completed exactly if an accepting answer is reached, answered exactly if a check result is; any other answer throws, an error without a list throws that error, an upload that fails ends the phase; an answer is reached when every one before it was an error whose list was resent |
| UploadCompletion.CompleteLivenessPhase | apps/ios/Kayle ID/Models/VerificationSession+LivenessUpload.swift:86-146 | the same for the video, where a check result completes the phase and an accepting answer throws, and which may also be asked for the NFC artifacts |
| UploadCompletion.UploadPlans | apps/ios/Kayle ID/Models/VerificationSession+NFCUpload.swift:62-70 | restreaming uploads every artifact whole, in order, up to the first failure |
| UploadCompletion.ResendFillsAllGaps | apps/ios/Kayle ID/Models/VerificationSession+NFCUpload.swift:252-298 | assuming a server that never forgets a chunk and lists all that are missing: a resend that returns leaves nothing missing in any artifact |
| UploadCompletion.OneResendCompletes | apps/ios/Kayle ID/Models/VerificationSession+NFCUpload.swift:198-250 | assuming moreover that it closes the phase once all is stored: the resend is broken off, or the next answer closes the phase; `NfcPhaseOutcome` says when the repository's own server does |
| UploadCompletion.LivenessResendFillsAllGaps | apps/ios/Kayle ID/Models/VerificationSession+LivenessUpload.swift:148-174 | on the assumptions of `ResendFillsAllGaps`, the same for the gaps of the video |
| TransferServer.TransferState.CollectChunks | apps/api/src/v1/verify/data-payload-chunks.ts:71-83 | the parts in order, or none if one is missing |
| TransferServer.TransferState.MergeChunks | apps/api/src/v1/verify/data-payload-chunks.ts:85-96 | the concatenation of the parts |
| TransferServer.PresentCount | apps/api/src/v1/verify/data-payload-chunks.ts:71-83 | an entry that holds every index holds at least that many parts |
| TransferServer.TransferState.AssembleChunk | apps/api/src/v1/verify/data-payload-chunks.ts:98-136 | stores the chunk, and completes and clears the entry exactly when every index is present |
| TransferServer.TransferState.ProcessDataPayload | apps/api/src/v1/verify/data-payload.ts:46-104 | validation, assembly and storing as one state transition with its answer |
| TransferServer.ProcessKeepsWellFormed | apps/api/src/v1/verify/data-payload.ts:46-104 | every message keeps what holds of all server states: entries are of supported kinds at index 0, expect at least two chunks and lack one |
| TransferMessages.RefusedMessages | apps/api/src/v1/verify/data-payload-validation.ts:102-229 | the error of every message outside the limits, in the order of the checks and by the limits' numbers; the state stays as it was |
| TransferMessages.PassedBytes | apps/api/src/v1/verify/data-payload-chunks.ts:111-122 | a message within the limits adds its bytes to those received, unless its part was there |
| TransferMessages.PassedPart | apps/api/src/v1/verify/data-payload.ts:67-76 | while a part is missing its own is kept, and acknowledged by its index |
| TransferMessages.PassedLast | apps/api/src/v1/verify/data-payload.ts:78-103 | once none is, the parts in order are stored and acknowledged, or refused as too large or as no active authentication data; no part is kept |
| TransferMessages.ProcessKeepsBounds | apps/api/src/v1/verify/data-payload-kinds.ts:10-15 | every message keeps the bounds of the state: bytes received, chunks of an entry, size of a part and of an artifact |
| TransferStatus.GetMissingChunkIndices | apps/api/src/v1/verify/data-payload-chunks.ts:43-51 | the loop computes the specified list of an entry's missing indices |
| TransferStatus.MissingExactly | apps/api/src/v1/verify/data-payload-chunks.ts:43-51 | that list holds exactly the missing indices |
| TransferStatus.MissingRises | apps/api/src/v1/verify/data-payload-chunks.ts:43-51 | in ascending order |
| TransferStatus.GetMissingTransferChunks | apps/api/src/v1/verify/data-payload-status.ts:57-83 | the walk over the entries computes the specified list, for every order of the walk |
| TransferStatus.ListedExactly | apps/api/src/v1/verify/data-payload-status.ts:57-83 | the list has an item for each incomplete entry of the phase and no other |
| TransferStatus.ListedOnce | apps/api/src/v1/verify/data-payload-status.ts:57-83 | no entry is listed twice |
| TransferStatus.NoMessageIff | apps/api/src/v1/verify/socket-missing-data.ts:16-45 | there is no message if and only if the required artifacts are stored and no entry of the phase lacks a part |
| TransferStatus.BuildMissingDataMessage | apps/api/src/v1/verify/socket-missing-data.ts:16-45 | NFC data first in both phases, then the video; none exactly when nothing of the phase is missing |
| UploadWindows.OneChunk | apps/api/src/v1/verify/data-payload.ts:46-104 | what one accepted chunk does to the server's state and which acknowledgement it gets |
| UploadWindows.QuietWindow | apps/api/src/v1/verify/data-payload-chunks.ts:98-136 | a window that does not complete the artifact is acknowledged chunk by chunk and adds exactly its indices |
| UploadWindows.CompletingAnswers | apps/api/src/v1/verify/data-payload.ts:46-104 | the window that fills the last gap: chunk acknowledgements, one final acknowledgement where the gap was, then a new entry begins |
| UploadWindows.CompletingVerdict | apps/ios/Kayle ID/Models/VerificationSession+UploadChunks.swift:51-125 | the client can account for the final acknowledgement only if the last gap was the last chunk |
| UploadWindows.RefusedVerdict | apps/ios/Kayle ID/Models/VerificationSession+UploadChunks.swift:51-125 | a window whose completed artifact the server refuses to store ends the call with that error |
| UploadWindows.TooLateVerdict | apps/ios/Kayle ID/Models/VerificationSession+UploadChunks.swift:51-105 | a window of which a chunk goes over the transfer limit after another completed the artifact: the client stops, with that error if the window reaches the last chunk and with an unexpected response before that |
| UploadEndToEnd.SessionFrom | apps/ios/Kayle ID/Models/VerificationSession+UploadChunks.swift:21-127 | client and server together, over any incomplete entry of as many chunks, whatever its bytes: if the resend fills the last gaps, the artifact is the new chunks from the start to the last gap and the old ones elsewhere, and the call returns exactly when that gap was the last chunk and the artifact is stored; otherwise the entry has the new chunks written over it; nothing else changes.  A call ends with the transfer limit's error only if a chunk it sends in turn goes over it, and does not return if one does |
| UploadEndToEnd.ResumedUpload | apps/ios/Kayle ID/Models/VerificationSession+UploadChunks.swift:21-127 | over an entry of the plan's own chunks the artifact is exact, and the call fails exactly when the last chunk was already held and the resend fills the last gaps, unless a chunk goes over the transfer limit |
| UploadEndToEnd.FreshUpload | apps/ios/Kayle ID/Models/VerificationSession+UploadChunks.swift:21-127 | a first upload returns normally if and only if the bytes received and its own together keep to the transfer limit, and the server's artifact is then the chunks put together |
| UploadEndToEnd.SingleChunk | apps/api/src/v1/verify/data-payload-chunks.ts:111-114 | an upload of one chunk that keeps to the limit is stored at once and returns exactly when the artifact is not refused |
| UploadEndToEnd.ResendOverGapFails | apps/ios/Kayle ID/Models/VerificationSession+UploadChunks.swift:73-105 | a concrete resend over a gap after which the server has the whole artifact and the client stops with an error |
| UploadEndToEnd.LeftoverChunksMix | apps/api/src/v1/verify/data-payload-chunks.ts:53-69 | a concrete upload over another recording's chunks of the same number: the server's artifact mixes both and the client stops with an error |
| UploadEndToEnd.StaleEntryNeverEnds | apps/api/src/v1/verify/data-payload-chunks.ts:53-69 | over an entry with another chunk total the server's state never changes, and the client retries for as many turns as are played, unless the first chunk goes over the transfer limit, which ends the call |
| UploadEndToEnd.CallEnds | apps/ios/Kayle ID/Models/VerificationSession+UploadChunks.swift:39-126 | over any other state the call ends in at most as many turns as chunks, and returns normally only if all of them keep to the transfer limit |
| UploadEndToEnd.NeverEndsIffStale | apps/ios/Kayle ID/Models/VerificationSession+UploadChunks.swift:39-126 | a call never ends if and only if the server holds an entry of another chunk total for its key and the first chunk keeps to the transfer limit |
| UploadEndToEnd.DeliveredFromStart | apps/ios/Kayle ID/Models/VerificationSession+UploadChunks.swift:21-127 | whatever the server holds, a call from the start that returns normally leaves exactly its own chunks as the artifact, no entry of it, and all else as it was |
| UploadLedger.OneJob | apps/ios/Kayle ID/Models/VerificationSession+NFCUpload.swift:260-297 | what one resend does to the chunks held of an artifact: adds its own, completes it, or fails |
| UploadLedger.OneBlock | apps/ios/Kayle ID/Models/VerificationSession+NFCUpload.swift:278-297 | what the resends of a list of chunk indices of one artifact do to it, one after another |
| UploadLedger.GapBlock | apps/ios/Kayle ID/Models/VerificationSession+NFCUpload.swift:278-297 | resending all gaps of an incomplete artifact fails if its last chunk was held, completes it for good if only the last chunk was missing, and otherwise completes it and opens an entry without its start |
| UploadLedger.GapBlockAfterWhole | apps/ios/Kayle ID/Models/VerificationSession+NFCUpload.swift:260-297 | resending listed gaps after the whole artifact was sent opens such an entry always |
| UploadLedger.StuckFails | apps/ios/Kayle ID/Models/VerificationSession+NFCUpload.swift:278-297 | resending the gaps of such an entry fails |
| UploadPhases.JobsPlayed | apps/ios/Kayle ID/Models/VerificationSession+NFCUpload.swift:252-298 | the client's run of a resend list over the turns this server produces is the list of sessions with it |
| UploadPhases.PhaseStep | apps/ios/Kayle ID/Models/VerificationSession+NFCUpload.swift:198-250 | one round of a phase with this server: its answer, the resends, and the rest of the phase from the state they leave |
| UploadBlocks.BlocksSent | apps/ios/Kayle ID/Models/VerificationSession+NFCUpload.swift:252-298 | resends of several artifacts of different kinds have the effect of each on its own, or break off at the first that fails |
| NfcPhase.FirstRound | apps/ios/Kayle ID/Models/VerificationSession+NFCUpload.swift:252-298 | the first round, from every state whose entries hold the artifacts' own chunks: broken off exactly when some incomplete artifact holds its last chunk; otherwise required artifacts are stored, and an entry stays open exactly for those that lacked more than their last chunk or were listed whole as well; the transfer limit ends it only if the stated bytes go over it |
| NfcPhase.NfcPhaseOutcome | apps/ios/Kayle ID/Models/VerificationSession+NFCUpload.swift:198-250 | unless the bytes resent go over the transfer limit, which ends it with that error, the phase with the repository's own server closes, with everything stored, if and only if every incomplete artifact lacks just its last chunk and is not one that is listed as missing besides; otherwise the client stops with an unexpected response, in the first round if some incomplete artifact holds its last chunk and in the second if none does |
| NfcRestream.Restream | apps/ios/Kayle ID/Models/VerificationSession+NFCUpload.swift:62-70 | a restream of all artifacts fails exactly if the last chunk of one of them is there, and otherwise stores them all and leaves no entry |
| LivenessPhase.VideoRounds | apps/ios/Kayle ID/Models/VerificationSession+LivenessUpload.swift:86-146 | when nothing of the NFC phase is missing: the phase closes if and only if the video is missing, complete, or lacks just its last chunk, and leaves all else as it was |
| LivenessPhase.LivenessPhaseOutcome | apps/ios/Kayle ID/Models/VerificationSession+LivenessUpload.swift:86-146 | from every state whose entries hold the artifacts' own chunks: with NFC data missing the client stops with the server's error if no document was read, and otherwise restreams the artifacts, which breaks off the phase exactly if the last chunk of one is there; then, with every artifact stored, the phase closes if and only if the video is missing, complete, or lacks just its last chunk; the number of answers is given, and the transfer limit ends it only if the stated bytes go over it |
| UploadCalls.UploadsReturn | apps/ios/Kayle ID/Models/VerificationSession+NFCUpload.swift:62-70 | whatever the server holds, a list of uploads that returns leaves every artifact stored, no entry of any, and all else as it was |
| UploadCalls.NfcCallCloses | apps/ios/Kayle ID/Models/VerificationSession+NFCUpload.swift:33-60 | from every state of the server whose NFC entries are of the artifacts sent: if the uploads return, the first answer closes the phase with everything stored |
| UploadCalls.LivenessCallCloses | apps/ios/Kayle ID/Models/VerificationSession+LivenessUpload.swift:5-40 | the same for the video, when nothing of the NFC phase is missing |
| UploadCalls.ReconnectedCallCloses | apps/ios/Kayle ID/Models/VerificationSession+LivenessUpload.swift:5-40 | on a connection that holds no chunks the video call closes the phase at the first answer, or, if NFC artifacts are missing, at the second after restreaming them, with everything stored; only the transfer limit ends it otherwise |
| UploadSlot.LivenessUpload.WaitForTurn | apps/ios/Kayle ID/Models/VerificationSession+UploadState.swift:9-17 | lets the caller through at once exactly when nothing is in flight, and queues it last otherwise |
| UploadSlot.LivenessUpload.Release | apps/ios/Kayle ID/Models/VerificationSession+UploadState.swift:19-26 | hands the slot to the first waiter, or frees it if there is none |
| UploadSlot.LivenessUpload.CancelWaiters | apps/ios/Kayle ID/Models/VerificationSession+UploadState.swift:28-35 | resumes all waiters in order with the error and frees the slot |
| UploadSlot.AcquireKeepsInvariant | apps/ios/Kayle ID/Models/VerificationSession+UploadState.swift:9-17 | taking the slot keeps the invariant of runs |
| UploadSlot.ReturnKeepsInvariant | apps/ios/Kayle ID/Models/VerificationSession+UploadState.swift:19-26 | passing it on keeps the invariant |
| UploadSlot.CancelKeepsInvariant | apps/ios/Kayle ID/Models/VerificationSession+UploadState.swift:28-35 | cancelling keeps the invariant |
| UploadSlot.SlotSafety | apps/ios/Kayle ID/Models/VerificationSession+UploadState.swift:9-35 | in every run waiters exist only behind a slot in flight, queued continuations are resumed in queue order, none twice and none dropped, and holders number at most one plus the cancellations |
| UploadSlot.MutualExclusion | apps/ios/Kayle ID/Models/VerificationSession+UploadState.swift:9-26 | without cancellation there is exactly one holder while in flight, none otherwise, and every resumption is a grant |
| UploadSlot.ExclusiveSteps | apps/ios/Kayle ID/Models/VerificationSession+UploadState.swift:9-35 | from an exclusive state a step keeps exclusion, exactly when it is not a cancellation while the slot is held |
| UploadSlot.CancelBreaksExclusionIffHeld | apps/ios/Kayle ID/Models/VerificationSession+UploadState.swift:28-35 | after a cancellation two tasks can hold the slot at once if and only if it was held |
| UploadSlot.CancelWhileHeld | apps/ios/Kayle ID/Models/VerificationSession+LivenessUpload.swift:12-15 | a concrete run with two holders |
| BigEndian.NumberOfMinimal | apps/debugger/src/biometric/dg2.ts:39-50 | reading the shortest big-endian bytes of a number gives the number |
| BigEndian.NumberOfFixed | apps/debugger/src/biometric/dg2.ts:20-28 | reading a field of fixed width gives the number modulo 256 to the width, for every number |
| Dg2Writer.UintBytes | apps/debugger/src/biometric/dg2.ts:20-28 | fills the field with the big-endian digits |
| Dg2Writer.EmitTag | apps/debugger/src/biometric/dg2.ts:30-37 | the tag's hexadecimal digits, padded to whole bytes |
| Dg2Writer.EmitLength | apps/debugger/src/biometric/dg2.ts:39-50 | short form below 128, otherwise the count of length bytes and the shortest big-endian length |
| Dg2Parser.StartsWithBytes | packages/config/src/dg2-face-image.ts:34-49 | exactly the prefix relation |
| Dg2Parser.ReadUint | packages/config/src/dg2-face-image.ts:59-71 | the big-endian number, or an error when the field leaves the input |
| Dg2Parser.ReadTlvTag | packages/config/src/dg2-face-image.ts:73-111 | the tag loop computes the recursive specification, whose end is beyond its start and inside the input |
| Dg2Parser.ReadTlvLength | packages/config/src/dg2-face-image.ts:113-156 | short and long forms and their errors, ending beyond the start and inside the input |
| Dg2Parser.Element | packages/config/src/dg2-face-image.ts:158-171 | an element read lies inside the input, strictly advances, and its value is the bytes between its offsets |
| Dg2Parser.ReadTlv | packages/config/src/dg2-face-image.ts:158-171 | tag, length and bounds check in the source's order, equal to the specification |
| Dg2Parser.ParseIso197945FaceImage | packages/config/src/dg2-face-image.ts:173-235 | the field walk over arbitrary bytes, with every error |
| Dg2Parser.ExtractDg2FaceImage | packages/config/src/dg2-face-image.ts:237-273 | the nested walk with its sibling loop, over arbitrary bytes, with every error |
| Dg2Parser.DataIsSlice | packages/config/src/dg2-face-image.ts:257-272 | whatever the sibling walk finds is a contiguous part of the group |
| Dg2Parser.ExtractedIsSlice | packages/config/src/dg2-face-image.ts:237-273 | a returned image is a contiguous part of the input and begins with the signature of the reported format |
| Dg2Reading.TagReads | packages/config/src/dg2-face-image.ts:73-111 | a tag of any number of bytes is read as the number they make |
| Dg2Reading.LengthReads | packages/config/src/dg2-face-image.ts:113-156 | a length in one byte, or in one to four counted ones, shortest or not, is read |
| Dg2Reading.LengthRefused | packages/config/src/dg2-face-image.ts:130-139 | a count of none or of more than four length bytes is refused |
| Dg2Reading.ElementReads | packages/config/src/dg2-face-image.ts:158-171 | every element so encoded is read, whatever follows |
| Dg2Reading.Signatures | packages/config/src/dg2-face-image.ts:208-232 | the signatures of the two formats, byte by byte |
| Dg2Reading.Detections | apps/debugger/src/biometric/dg2.ts:111-148 | those by which the writer's side tells the formats |
| Dg2Reading.RecordReads | packages/config/src/dg2-face-image.ts:173-235 | every face record, with any number of feature points and any other fields, reads as its image, width and height |
| Dg2Reading.FileImageReads | packages/config/src/dg2-face-image.ts:237-273 | every file, with any encoding of its tags and lengths, any other elements before the data, either data tag and any bytes behind, gives the image of the first data element |
| Dg2Reading.FileErrors | packages/config/src/dg2-face-image.ts:237-273 | the error of a file with another root tag, without the instance count, the group or a data element |
| Dg2RoundTrip.TagReadsBack | packages/config/src/dg2-face-image.ts:73-111 | a printed tag that the reader's form allows reads back, whatever follows |
| Dg2RoundTrip.LengthReadsBack | packages/config/src/dg2-face-image.ts:113-156 | a printed length reads back exactly when it takes at most four bytes, and is refused otherwise |
| Dg2RoundTrip.ElementReadsBack | packages/config/src/dg2-face-image.ts:158-171 | a printed element reads back under any trailing bytes, or is refused when too long |
| Dg2RoundTrip.ElementShift | packages/config/src/dg2-face-image.ts:158-171 | reading behind other bytes is reading at the start, shifted |
| Dg2RoundTrip.RecordReadsBack | packages/config/src/dg2-face-image.ts:173-235 | the printed face record reads back with width and height 0, exactly when the image has a supported signature |
| Dg2RoundTrip.RoundTrip | apps/debugger/src/biometric/dg2.ts:60-109 | the parser returns exactly the image, the format its signature names and size 0 by 0, with or without the outer tag, and otherwise the exact error: the outermost length does not fit four bytes, or the signature is not supported |
| Dg2RoundTrip.DetectedImagesReadBack | apps/debugger/src/biometric/dg2.ts:111-148 | an image whose format the writer detects reads back if and only if its JPEG 2000 signature is not cut after eight bytes |
| Roles.ParseOrgRoles | packages/auth/src/permissions.ts:31-52 | the parsing loop with its seen set accepts exactly non-empty lists of known, distinct names |
| Roles.RoleSetLanguage | packages/auth/src/permissions.ts:3-7 | the role set pattern matches exactly the strings whose comma-separated parts are all role names |
| Roles.SegmentLanguage | packages/auth/src/permissions.ts:6-7 | the segment pattern is found exactly when the name is one of the parts |
| Roles.AcceptedIsSplit | packages/auth/src/permissions.ts:60-71 | the accepted role strings are those whose parts are role names without repetition |
| Roles.ReadersCompared | packages/auth/src/organization-role-sql.ts:9-15 | for every string, the reader in the program equals the SQL predicate and the parts being distinct |
| Roles.ReadersAgree | packages/auth/src/organization-role-sql.ts:9-15 | on every accepted string the two readers agree for owner and for admin or owner |
| Roles.RepeatedRoleDisagrees | packages/auth/src/organization-role-sql.ts:9-11 | a repeated role passes the SQL predicate and not the program's check |
| Roles.SqlPredicatesComputed | packages/auth/src/organization-role-sql.ts:9-15 | the SQL predicates in terms of the parts of the string |
| JsText.SplitOfJoin | packages/auth/src/permissions.ts:31-52 | splitting inverts joining for parts without the separator |
| JsText.JoinOfSplit | packages/auth/src/permissions.ts:31-52 | joining inverts splitting, and no part holds the separator |
| OrgDeletionStore.Database.RequestOrgDeletion | packages/auth/src/organization-deletion.ts:233-283 | the error of every call, in the order of the checks; success replaces the code, valid for 24 hours, and changes nothing else |
| OrgDeletionStore.Database.ConfirmTransaction | packages/auth/src/organization-deletion.ts:335-437 | the guarded update and its rollback as one transition, with the error of each failing check |
| OrgDeletionStore.Database.ConfirmOrgDeletion | packages/auth/src/organization-deletion.ts:311-437 | the error of every call, in the order of the checks; success sets the three columns, the deadline 48 hours on, and uses the code up; an error changes nothing |
| OrgDeletionStore.Database.CancelOrgDeletion | packages/auth/src/organization-deletion.ts:498-579 | the error of every call, in the order of the checks; success clears the columns, for an active admin or owner of a pending organization only |
| OrgDeletionStore.Database.HardDeleteOrganizations | packages/auth/src/organization-deletion.ts:638-650 | removes the organizations and what hangs on them, nothing else |
| OrgDeletionStore.Database.ProcessDueOrganizationDeletions | packages/auth/src/organization-deletion.ts:656-675 | deletes organizations only whose deadline has come, and no more than the limit; with fewer than the limit, every one left has no deadline or a later one |
| OrgDeletionSafety.EveryStepKeeps | packages/auth/src/organization-deletion.ts:233-675 | every step of every interleaved call keeps the protocol invariant |
| OrgDeletionSafety.EveryRunKeeps | packages/auth/src/organization-deletion.ts:233-675 | the invariant holds after every run, with role changes, suspensions, account deletions and time in between |
| OrgDeletionCalls.RequestAlone | packages/auth/src/organization-deletion.ts:233-283 | an interleaved request with nothing in between ends with the error and the rows of the call run at once |
| OrgDeletionCalls.ConfirmAlone | packages/auth/src/organization-deletion.ts:311-437 | the same for a confirmation |
| OrgDeletionCalls.CancelAlone | packages/auth/src/organization-deletion.ts:498-579 | the same for a cancellation |
| OrgDeletionRuns.OneConfirmationPerPeriod | packages/auth/src/organization-deletion.ts:363-388 | of any concurrent confirmations at most one succeeds until a cancellation does |
| OrgDeletionRuns.OneCancellationPerPeriod | packages/auth/src/organization-deletion.ts:520-549 | of any concurrent cancellations at most one succeeds until a confirmation does |
| OrgDeletionRuns.CodeConfirmsOnce | packages/auth/src/organization-deletion.ts:340-437 | between two confirmations by one requester a new matching code was issued, and had not expired |
| OrgDeletionRuns.SelectedWasConfirmed | packages/auth/src/organization-deletion.ts:656-675 | every id the cron selects was confirmed by a call that began at least 48 hours before, with no cancellation since |
| OrgDeletionRuns.DueIsSelected | packages/auth/src/organization-deletion.ts:656-675 | and conversely, in every run: an organization that exists and was confirmed last, by a call that began at least 48 hours before, is selected, unless the selection is full |
| OrgDeletionRuns.PendingColumns | packages/database/src/schema/auth.ts:103-108 | deadline and request time are null together or 48 hours apart; the requester column is null with them, and otherwise exactly when that account was deleted since |
| OrgDeletionRuns.OnlyOwnersWithCodesSchedule | packages/auth/src/organization-deletion.ts:340-437 | a step makes an organization pending if and only if it commits a confirmation by a then active owner with the matching unexpired code, which that step consumes |
| OrgDeletionRuns.RemovalAfterSelection | packages/auth/src/organization-deletion.ts:662-675 | what the cron is about to remove is no longer pending exactly when it was canceled after the selection |
| OrgDeletionRuns.CancellationCanBeOverrun | packages/auth/src/organization-deletion.ts:662-675 | from every world with a due organization: a cancellation that reports success between selection and delete does not save it |
| OwnedOrganizations.OwnersAfter | packages/auth/src/owned-organizations.ts:23-72 | who is an active owner after an account deletion |
| OwnedOrganizations.AccountDeletionKeepsOwners | packages/auth/src/server.ts:193-199 | exactly the sole-owned organizations go, none with another active owner, and every survivor that had an owner has one |
| OwnedOrganizations.StaleSoleOwnedSet | packages/auth/src/owned-organizations.ts:23-72 | with rows changed since the query: every survivor keeps an owner if and only if no sole-owned organization was missed, and no co-owned one is deleted if and only if none was found |
| OwnedOrganizations.LeftWithoutOwner | packages/auth/src/owned-organizations.ts:23-72 | the deletions of the last two owners' accounts, each with the sole-owned organizations found before either, leave the organization without an owner |
| OwnedOrganizations.TwoLeavingOwners | packages/auth/src/server.ts:193-199 | two co-owners who delete their accounts at the same time leave the organization without an owner |
| Ldif.NormalizeLdifText | scripts/import-icao-pkd.ts:152-172 | line ending replacement and unfolding, with the error for a continuation without a line |
| Ldif.ParseLdifEntries | scripts/import-icao-pkd.ts:174-214 | the entry loop equals the specification, with both errors |
| Ldif.OtherLines | scripts/import-icao-pkd.ts:181-201 | an empty line ends an entry that has an attribute, a comment does nothing, and exactly the other lines without a name and a colon are errors |
| Ldif.UnfoldFailsIff | scripts/import-icao-pkd.ts:152-172 | unfolding fails if and only if the first line is a continuation |
| LdifRoundTrip.UnfoldInvertsFold | scripts/import-icao-pkd.ts:152-172 | unfolding gives every list of lines back, however they were folded |
| LdifRoundTrip.ParseInvertsPrint | scripts/import-icao-pkd.ts:174-214 | entries printed one attribute a line, folded anywhere, with either line ending on each line, parse back to the same multimaps with names in lower case and values in order |
| DistinguishedName.SplitEscaped | scripts/import-icao-pkd.ts:224-253 | the splitting loop equals the recursive definition |
| DistinguishedName.UnescapeValue | scripts/import-icao-pkd.ts:255-279 | the unescaping loop equals the recursive definition |
| DistinguishedName.FirstUnescapedIndex | scripts/import-icao-pkd.ts:281-301 | the scanning loop equals the recursive definition |
| DistinguishedName.ParseDistinguishedNameAttributes | scripts/import-icao-pkd.ts:303-324 | the attribute loop equals the specification, skipping components without a name |
| DistinguishedName.JoinOfSplitFrom | scripts/import-icao-pkd.ts:224-253 | joining the parts with the separator gives every text back |
| DistinguishedName.PartsHoldNoSeparator | scripts/import-icao-pkd.ts:224-253 | no part holds a separator that nothing escapes |
| DistinguishedName.UnescapeInvertsEscape | scripts/import-icao-pkd.ts:255-279 | unescaping inverts escaping for every value |
| DistinguishedName.ParseInvertsPrint | scripts/import-icao-pkd.ts:303-324 | escaped and joined attributes parse back normalized, and to themselves if and only if they were free of white space at the edges with names in lower case |
| DistinguishedName.TrailingEscapedSpaceIsLost | scripts/import-icao-pkd.ts:315-320 | for every value, an escaped space after it is trimmed away and its backslash becomes the value's end |
| DistinguishedName.LeadingSpaceSurvives | scripts/import-icao-pkd.ts:315-320 | an escaped space at the start of a value is kept |
| DistinguishedName.EscapedSpacesReadBackIff | scripts/import-icao-pkd.ts:303-324 | a value written with its first and last space escaped reads back if and only if it is empty, or ends in no white space and begins with none but a space |
| DscSegments.GroupByCountry | scripts/import-icao-pkd.ts:516-525 | each country's group is its records in order, and exactly the countries with records have one |
| DscSegments.ChunkItems | scripts/import-icao-pkd.ts:124-132 | the chunking loop equals the recursive definition |
| DscSegments.ChunksShape | scripts/import-icao-pkd.ts:124-132 | chunks are full but for the last, none is empty, and together they are the items |
| DscSegments.SegmentIndex.AddIndexSegment | scripts/import-icao-pkd.ts:134-150 | lists the segment under the lower-cased key, once |
| DscSegments.AddKeepsLists | scripts/import-icao-pkd.ts:537-551 | listing a record keeps the index in step with the segments built so far |
| DscSegments.BuildSegments | scripts/import-icao-pkd.ts:510-560 | the nested loops build the specified segments, and both indexes list for each key exactly the segments with a match |
| DscListing.RecordIsListed | scripts/import-icao-pkd.ts:516-551 | every record is in a segment named after its country in capitals, which is listed under its issuer and serial number and its subject key identifier in small letters |
| DscListing.ListedHasRecord | scripts/import-icao-pkd.ts:134-150 | a segment listed under a key holds a record with that key |
| DscListing.SegmentNumbers | scripts/import-icao-pkd.ts:531-535 | several segments of a country are numbered from one, with at least two digits |
| DscListing.GroupInOrder | scripts/import-icao-pkd.ts:516-525 | a country's records keep their order: those of the country at rising places, and no others |
| DscListing.SegmentsAreFull | scripts/import-icao-pkd.ts:124-132 | all segments of a country but its last hold a thousand records |
| DscLookup.SegmentsPermuteRecords | scripts/import-icao-pkd.ts:527-559 | the segments together are a permutation of the records |
| DscLookup.SegmentsAreSmall | scripts/import-icao-pkd.ts:527-559 | no segment is empty, none exceeds 1000 records, and each is of one country |
| DscLookup.ListedExactly | scripts/import-icao-pkd.ts:134-150 | a key lists exactly the segments with a match, none twice |
| DscLookup.KeysDistinctIff | scripts/import-icao-pkd.ts:531-535 | segment keys are distinct if and only if no single-segment country is named like a numbered segment of another |
| DscLookup.NoHyphenNoClash | scripts/import-icao-pkd.ts:531-535 | country keys without a hyphen never clash |
| DscLookup.LookupIsScanIff | apps/api/src/v1/verify/pkd-trust-resolver.ts:209-225 | a lookup through the listed segment files finds what a scan of all segments finds, in order, if and only if no file with a match was overwritten |
| DscLookup.ResolveDscCertificate | apps/api/src/v1/verify/pkd-trust-resolver.ts:154-173 | the loop over the listed segments returns the first record the specification finds |
| DscLookup.FirstHitIsFound | apps/api/src/v1/verify/pkd-trust-resolver.ts:154-173 | the first hit is one of the records a full lookup finds, and there is none only if it finds none |
| DscLookup.ResolvesWithoutClash | apps/api/src/v1/verify/pkd-trust-resolver.ts:154-173 | when no two countries clash, a certificate is resolved exactly when some segment holds a match, and it is one |
| DscLookup.LookupsAgreeIff | scripts/import-icao-pkd.ts:510-560 | the index agrees with a linear scan for every key of both kinds if and only if no two countries clash |
| SqlBatches.BuildInsertStatements | scripts/import-icao-pkd.ts:637-675 | the statements are the rows in order, every one of two or more rows within 90000 characters, and none could have taken the next one's first row |
| SqlBatches.GreedyIsUnique | scripts/import-icao-pkd.ts:637-675 | those properties determine the statements |
| SqlBatches.GreedyIsFewest | scripts/import-icao-pkd.ts:637-675 | no other way of packing the rows in order within the limit has fewer statements |
| SqlReadBack.LiteralReadsBack | scripts/import-icao-pkd.ts:621-635 | a written literal reads back with its quotes undone and leaves what follows |
| SqlReadBack.RowsReadBack | scripts/import-icao-pkd.ts:653-671 | the rows of a statement read back literal by literal |
| SqlReadBack.PackedRowsReadBack | scripts/import-icao-pkd.ts:637-675 | however rows are packed, the statements read back to all rows in order |
| Suppression.IouIsRatio | apps/biometric-verifier/src/yunet.rs:222-238 | symmetric and between 0 and 1 for all boxes, even of negative size |
| Suppression.IouWithItself | apps/biometric-verifier/src/yunet.rs:222-238 | 1 for a box with an area, 0 otherwise |
| Suppression.IouMeasures | apps/biometric-verifier/src/yunet.rs:222-238 | the area of what two boxes share over the area of what either covers, by their points; zero for boxes without a point in common, whatever their sizes |
| Suppression.IouOfPart | apps/biometric-verifier/src/yunet.rs:222-238 | of a box inside another, the quotient of their areas |
| Suppression.SortIsStable | apps/biometric-verifier/src/yunet.rs:241-245 | a permutation in order of falling score that keeps the order of equal scores |
| Suppression.Nms | apps/biometric-verifier/src/yunet.rs:240-263 | the in-place suppression loop equals the recursive greedy selection, for every cap |
| Suppression.GreedyIsKept | apps/biometric-verifier/src/yunet.rs:240-263 | greedy selection is, up to the cap but at least one, the faces no kept face before them overlaps; kept faces are apart and in score order, and a dropped one overlaps a kept one of at least its score |
| Suppression.PickBestFace | apps/biometric-verifier/src/yunet.rs:267-277 | the last face with the greatest area times score |
| Suppression.KeyIs | apps/biometric-verifier/src/yunet.rs:270-275 | the key is area times score, and zero if one of them is not positive |
| FrameSampling.ComputeTargets | apps/biometric-verifier/src/video.rs:215-227 | the set loop yields the middle frames of equal parts, as many as frames or parts, whichever is fewer |
| FrameSampling.TargetsAreIndices | apps/biometric-verifier/src/video.rs:215-227 | targets rise strictly and are frame indices |
| FrameSampling.TargetsHold | apps/biometric-verifier/src/video.rs:215-227 | a frame is a target exactly when it is the middle of one of the parts |
| FrameSampling.TargetIsMiddle | apps/biometric-verifier/src/video.rs:215-227 | a target is the frame that the middle of its part falls on |
| FrameSampling.TakeFrame | apps/biometric-verifier/src/video.rs:135-145 | one decoded frame takes the sampling from the frames seen to one more |
| FrameSampling.ReceiveFrames | apps/biometric-verifier/src/video.rs:134-149 | the frames the decoder has ready, up to the point where every target is reached |
| FrameSampling.ExtractFrames | apps/biometric-verifier/src/video.rs:121-165 | both decode loops together collect exactly the decoded frames at the targets reached, however frames are split over packets and the drain, and look at the stated number of frames |
| FrameSampling.FullClipLooksShorterIff | apps/biometric-verifier/src/video.rs:167-178 | the frame estimate of a clip that decodes in full is lowered if and only if its frame rate is known and the loops stop at least one frame before its end, in terms of its length and the frames asked for |
| ChallengeNonce.SquaresDisjoint | apps/biometric-verifier/src/nonce.rs:109-126 | no byte belongs to two squares |
| ChallengeNonce.SquaresInFrame | apps/biometric-verifier/src/nonce.rs:109-126 | every square lies inside the frame |
| ChallengeNonce.SquareByPixel | apps/biometric-verifier/src/nonce.rs:37-45 | the squares by column, line and channel of the frame |
| ChallengeNonce.BitByByte | apps/biometric-verifier/src/nonce.rs:62-66 | the bits of the nonce, from the most significant of its first byte |
| ChallengeNonce.WindowInSquare | apps/biometric-verifier/src/nonce.rs:37-50 | every sample of a square's window lies in the square |
| ChallengeNonce.WindowByPixel | apps/biometric-verifier/src/nonce.rs:43-60 | the four by four pixels that are sampled of a square |
| ChallengeNonce.Stamp | apps/biometric-verifier/src/nonce.rs:109-130 | the squares get the colours of the bits and no other byte changes |
| ChallengeNonce.ExtractNonceFromFrame | apps/biometric-verifier/src/nonce.rs:30-69 | none exactly for a frame of another size, otherwise the nonce whose one bits are the bright windows |
| ChallengeNonce.DecodesOnce | apps/biometric-verifier/src/nonce.rs:30-69 | a frame decodes to one nonce at most |
| ChallengeNonce.StampedFrameDecodes | apps/biometric-verifier/src/nonce.rs:30-69 | over every background a stamped frame decodes to its nonce, even with every sample off by up to 127 |
| ChallengeNonce.VerifyChallengeNonce | apps/biometric-verifier/src/nonce.rs:73-92 | the counts, and a match exactly when more than half of all frames decode to the expected bytes |
| ChallengeNonce.AtMostOneWins | apps/biometric-verifier/src/nonce.rs:73-92 | of two different expected values at most one wins over the same frames |
| ChallengeNonce.ShownNonceWins | apps/biometric-verifier/src/nonce.rs:73-92 | a clip most of whose frames show a nonce, up to that noise, wins with it and with nothing else |
| PixelGeometry.InvertDefined | apps/biometric-verifier/src/affine.rs:32-37 | there is an inverse exactly when the determinant is at least 1e-12 in size |
| PixelGeometry.InverseUndoes | apps/biometric-verifier/src/affine.rs:23-46 | the inverse undoes the map |
| PixelGeometry.InverseIsUndone | apps/biometric-verifier/src/affine.rs:23-46 | the map undoes its inverse |
| PixelGeometry.WarpAffineBgr | apps/biometric-verifier/src/affine.rs:175-236 | for a source of at most 2^31 - 1 samples a side, the loops, with their coordinates cut to 32 bits, write the zero-padded bilinear interpolation at the inverse-mapped position into every sample, and black if there is no inverse |
| PixelGeometry.TranslationShifts | apps/biometric-verifier/src/affine.rs:175-236 | a warp by whole pixels shifts the image, black where nothing is shifted in |
| PixelGeometry.IdentityWarpCopies | apps/biometric-verifier/src/affine.rs:175-236 | a warp by the identity returns the image |
| PixelGeometry.WarpStaysBelow | apps/biometric-verifier/src/affine.rs:175-236 | no warped sample exceeds the maximum of its channel |
| BilinearSurfaces.WarpInterpolates | apps/biometric-verifier/src/affine.rs:175-236 | every warped sample is the height, rounded half up, of the bilinear surface through the four samples, black outside, around the place the map takes to it |
| PixelGeometry.ResizeBilinearBgr | apps/biometric-verifier/src/affine.rs:256-300 | the loops read in bounds and write the interpolation of the four neighbours into every sample; black for an empty source |
| PixelGeometry.CoordinateOnSide | apps/biometric-verifier/src/affine.rs:268-284 | both neighbours exist for every output position and every size |
| PixelGeometry.ResizeStaysBetween | apps/biometric-verifier/src/affine.rs:256-300 | every output sample lies within any bounds of its channel, so constant images stay constant |
| PixelGeometry.ResizeToSameSize | apps/biometric-verifier/src/auraface.rs:134-136 | resizing to the same size returns the image |
| BilinearSurfaces.ResizeInterpolates | apps/biometric-verifier/src/affine.rs:256-300 | every resized sample is the height, rounded half up, of the bilinear surface through the samples around the place its pixel's centre falls on, kept to the image |
| BilinearSurfaces.SurfaceThrough | apps/biometric-verifier/src/affine.rs:224-226 | any four samples have such a surface, so the two determine every sample of every image |
| PadCrop.ShiftedBox | apps/biometric-verifier/src/pad.rs:124-166 | none exactly for a scale that is not positive; otherwise the box at the greatest scale, up to the requested one, at which it fits, inside the image on both axes and nearest to the face's centre |
| PadCrop.BoundedIsGreatest | apps/biometric-verifier/src/pad.rs:132-139 | the scale taken is the greatest up to the requested one at which the box fits |
| PadCrop.NearestIsUnique | apps/biometric-verifier/src/pad.rs:149-166 | that position is unique |
| PadCrop.CopyCrop | apps/biometric-verifier/src/pad.rs:183-190 | the rows copied are in bounds and make exactly the sub-image |
| PadCrop.CropFaceForPad | apps/biometric-verifier/src/pad.rs:119-198 | the resized crop of the shifted box, with exactly when there is none |

## Left out

- Sockets, JSON and message framing: an error body is the parsed value, and what the network does is a script of turns or rounds.
- Upload progress callbacks, status texts, reconnection before a transfer and the attestation of the NFC phase: they do not change what is sent.
- Validation of hello, authentication and phase order on the server: the transfer model begins at one data message of a session in its phase.
- The server's size limit over all artifacts is kept, its clearing of buffered chunks on session end is not.
- JobsDeliver, NfcResendDelivers, LivenessResendDelivers: proved for servers that never forget a stored chunk (`UploadDelivery.NeverForgets`).  The repository's server drops a completed artifact's entry; what then happens is `NfcPhaseOutcome` and `LivenessPhaseOutcome`.
- ResendFillsAllGaps, LivenessResendFillsAllGaps: the same assumption.
- OneResendCompletes: the same assumption, and that the server closes the phase once everything is stored (`UploadCompletion.ClosesOnceStored`).
- NfcPhaseOutcome: the entries hold the client's own chunks, which the sessions of one upload (`SessionFrom`) do not assume; the verdict once nothing is missing (any answer without a list) and the order in which the map of entries is walked are parameters; the bytes that go over the limit are bounded, not counted.
- LivenessPhaseOutcome: the same; the number of received bytes in the message is not read by the client.
- The record-length fields of the DG2 face record: the parser does not read them, and nothing is claimed about them.
- RoundTrip: images within 200 bytes of the largest exact JavaScript integer (2^53 - 1) are not covered, far beyond any buffer; the same for DetectedImagesReadBack.
- ChunkData: a chunk size that is not positive is admitted only for data the source returns whole, because its loop does not end otherwise.
- Tags of more bytes than a number holds exactly: a tag is an unbounded integer.
- Mails, logging and notifications of the deletion protocol; a confirmation code is given trimmed and in upper case, as the call makes it.
- Suspended memberships are no rows of the model: every query modelled asks for active ones only.
- Isolation inside one transaction: a transaction or single statement is one atomic step.
- `toLowerCase` and `toUpperCase` beyond ASCII, and surrogate pairs: text is a sequence of code units, so `firstUnescapedIndex`, which counts code points, and `slice`, which counts code units, do not differ.
- `localeCompare`: the order of the countries is a parameter, and the theorems hold for every order.
- Keys of an index object that an object prototype already has.
- LookupIsScanIff: the resolver then drops certificates of equal DER bytes, which the records here do not carry; records given inline and the loaders of single records are left out.
- Base64 and certificate decoding, the JSON manifest's other fields, and the in-memory caches of the resolver.
- `sqlLiteral` of a number that is not an integer: only integers and the non-finite case are modelled; what is read back is the literal, since null and a number that is not finite, or a flag and a number, are written alike.
- Floating point: coordinates, scores and means are reals, so rounding, infinities and NaN (and the comparisons that fall back to equality for them) are not captured; target positions are exact rationals.
- WarpAffineBgr: the 32-bit coordinates saturate as in a release build, where the addition of one does not trap; a source side above 2^31 - 1 is not covered, and the test for finite coordinates has no counterpart over the reals.
- Video, JPEG and neural network decoding, the pose solver and the Umeyama fit: foreign numerics without an exact contract.
- `bgr_to_gray`, `bgr_to_rgb_inplace`, the softmax and the pass fraction of the frame scores: they would only add easy members.
- Scope checks of API keys, onboarding, metadata and profile validators, retention sweeps, user interface: single-function facts.
