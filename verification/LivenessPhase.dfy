/**
How the liveness phase ends against the repository's own server: with what is missing of the video, and
with what is missing of the NFC artifacts before it.
*/
module LivenessPhase {
  import opened Wrappers
  import opened ChunkedUpload
  import opened TransferServer
  import opened TransferStatus
  import opened UploadResend
  import opened UploadCompletion
  import opened UploadWindows
  import opened UploadLedger
  import opened UploadPhases
  import opened UploadBlocks
  import opened NfcPhase
  import opened NfcRestream

  // ---- The video ----

  /** The messages of the video's kind do not change that. */
  lemma NfcStaysDone(t: Transfer, t': Transfer, plan: Plan, order: seq<Key>, order': seq<Key>)
    requires WalksEntries(order, t) && WalksEntries(order', t') && plan.kind == LIVENESS_KIND
    requires SameElsewhere(t, t', plan) && NfcDone(t, order)
    ensures NfcDone(t', order')
  {
    hide MissingTransferChunks, AllPresent;
    NoneMissing(t, order, true);
    NoneMissing(t', order', true);
    forall key | key in t'.chunks && IsOfPhase(key, true) ensures AllPresent(t'.chunks[key]) {
      assert key != KeyOf(plan) && key in t.chunks;
    }
    assert 0 in t.artifacts && 1 in t.artifacts && 2 in t.artifacts;
    assert 0 in t'.artifacts && 1 in t'.artifacts && 2 in t'.artifacts;
  }

  /** The only entry of the video's kind is the plan's. */
  ghost predicate OnlyEntry(t: Transfer, plan: Plan) {
    forall key <- t.chunks | key.0 == LIVENESS_KIND :: key == KeyOf(plan)
  }

  /** What the server lists of the video: its gaps, or nothing without an entry. */
  lemma VideoList(t: Transfer, order: seq<Key>, plan: Plan)
    requires WalksEntries(order, t) && Sound(t, plan) && plan.kind == LIVENESS_KIND && OnlyEntry(t, plan)
    ensures MissingTransferChunks(t, order, false)
         == if KeyOf(plan) in t.chunks then [MissingChunks(LIVENESS_KIND, 0, Gaps(plan, Parts(t, plan)))] else []
  {
    hide MissingTransferChunks, Sound, Gaps;
    var items := MissingTransferChunks(t, order, false);
    var item := MissingChunks(LIVENESS_KIND, 0, Gaps(plan, Parts(t, plan)));
    ListedExactly(t, order, false);
    ListedOnce(t, order, false);
    forall m | m in items ensures KeyOf(plan) in t.chunks && m == item {
      var key :| key in order && MissingOf(key, t.chunks[key], false) == [m];
      VideoItem(t, plan);
      assert [m][0] == [item][0];
    }
    forall i | 0 <= i < |items| ensures KeyOf(plan) in t.chunks && items[i] == item {
      assert items[i] in items;
    }
    FirstTwoDiffer(items);
    if KeyOf(plan) in t.chunks {
      VideoItem(t, plan);
      assert KeyOf(plan) in order && item in MissingOf(KeyOf(plan), t.chunks[KeyOf(plan)], false);
    }
  }

  lemma FirstTwoDiffer(items: seq<MissingChunks>)
    requires ItemsDiffer(items)
    ensures |items| > 1 ==> items[0] != items[1]
  {
  }

  lemma VideoItem(t: Transfer, plan: Plan)
    requires Sound(t, plan) && plan.kind == LIVENESS_KIND && KeyOf(plan) in t.chunks
    ensures MissingOf(KeyOf(plan), t.chunks[KeyOf(plan)], false)
         == [MissingChunks(LIVENESS_KIND, 0, Gaps(plan, Parts(t, plan)))]
  {
    GapsShape(plan, Parts(t, plan));
  }

  /** One round of the phase when nothing of the NFC phase is missing. */
  lemma VideoRound(
    plan: Plan, nfcPlans: Option<seq<Plan>>, window: nat, t: Transfer, order: Walk, verdict: PhaseAnswer,
    fuel: nat, rounds: nat)
    requires WalksAll(order) && NfcDone(t, order(t)) && Sound(t, plan) && plan.kind == LIVENESS_KIND
    requires OnlyEntry(t, plan)
    requires rounds > 0 && IsVerdict(verdict)
    ensures var phase := Liveness(plan, nfcPlans);
            var jobs := if KeyOf(plan) in t.chunks then IndexJobs(Gaps(plan, Parts(t, plan)), plan) else [Job(plan, 0)];
            PhaseSession(phase, window, t, order, verdict, fuel, rounds)
            == if LIVENESS_KIND in t.artifacts && KeyOf(plan) !in t.chunks then (Closing(phase, verdict), 1, t)
               else
                 var (outcome, t') := JobsSession(jobs, window, t, fuel);
                 if outcome != Delivered then (UploadEnded(outcome), 1, t')
                 else
                   var (later, count, t'') := PhaseSession(phase, window, t', order, verdict, fuel, rounds - 1);
                   (later, count + 1, t'')
  {
    hide PhaseSession, JobsSession, MissingTransferChunks, MissingNfcArtifacts, Sound, Gaps, Parts, IndexJobs;
    var phase := Liveness(plan, nfcPlans);
    PhaseStep(phase, window, t, order, verdict, fuel, rounds);
    assert WalksEntries(order(t), t);
    VideoList(t, order(t), plan);
    if KeyOf(plan) in t.chunks {
      VideoJobs(t, plan);
    }
  }

  lemma VideoJobs(t: Transfer, plan: Plan)
    requires Sound(t, plan) && plan.kind == LIVENESS_KIND && KeyOf(plan) in t.chunks
    ensures LivenessJobs([MissingChunks(LIVENESS_KIND, 0, Gaps(plan, Parts(t, plan)))], plan)
         == IndexJobs(Gaps(plan, Parts(t, plan)), plan)
  {
    hide Sorted, IndexJobs, Sound;
    var gaps := Gaps(plan, Parts(t, plan));
    SoundPlan(t, plan);
    GapsShape(plan, Parts(t, plan));
    SortedRising(gaps);
    var items := [MissingChunks(LIVENESS_KIND, 0, gaps)];
    assert items[1..] == [];
    assert LivenessChunkJobs(items, plan) == IndexJobs(gaps, plan) + LivenessChunkJobs([], plan);
    assert IndexJobs(gaps, plan) + [] == IndexJobs(gaps, plan);
  }

  /** The video has no entry, or one that lacks its last chunk only. */
  ghost predicate VideoCloses(t: Transfer, plan: Plan) {
    KeyOf(plan) in t.chunks ==> Gaps(plan, Parts(t, plan)) == [|plan.chunks| - 1]
  }

  /** The first round of the video. */
  lemma VideoSent(plan: Plan, window: nat, t: Transfer, fuel: nat)
    requires Sound(t, plan) && window >= 1 && fuel >= |plan.chunks|
    ensures var jobs := if KeyOf(plan) in t.chunks then IndexJobs(Gaps(plan, Parts(t, plan)), plan) else [Job(plan, 0)];
            var (outcome, t') := JobsSession(jobs, window, t, fuel);
            if outcome == TOO_LARGE then !RoomFor(t, 3 * |Concat(plan.chunks)|)
            else
              && SameElsewhere(t, t', plan)
              && if LastHeld(t, plan) then outcome == Stopped(UnexpectedServerResponse)
                 else
                   && outcome == Delivered && Sound(t', plan)
                   && t'.bytesReceived <= t.bytesReceived + 2 * |Concat(plan.chunks)|
                   && if VideoCloses(t, plan)
                      then KeyOf(plan) !in t'.chunks && t'.artifacts == t.artifacts[plan.kind := Concat(plan.chunks)]
                      else IsStuck(plan, Ledger(t', plan)) && KeyOf(plan) in t'.chunks
  {
    hide JobsSession, Sound, Gaps, Parts, Concat, BlockEffect, BlockCost, InRange, KeyOf, Ledger, Range;
    var size := |Concat(plan.chunks)|;
    var starts := if KeyOf(plan) in t.chunks then Gaps(plan, Parts(t, plan)) else [0];
    var b := Block(plan, starts);
    SoundPlan(t, plan);
    if KeyOf(plan) in t.chunks {
      EntryBlock(t, plan, [plan], size);
      GapsShape(plan, Parts(t, plan));
    } else {
      WholeBlock(t, plan, [plan], size);
      OneWhole(plan);
    }
    OneBlock(plan, starts, window, t, fuel);
    NoLedger(JobsSession(IndexJobs(starts, plan), window, t, fuel).1, plan);
  }

  /** The rounds of the video. */
  lemma VideoRounds(
    plan: Plan, nfcPlans: Option<seq<Plan>>, window: nat, t: Transfer, order: Walk, verdict: PhaseAnswer, fuel: nat,
    rounds: nat)
    requires WalksAll(order) && NfcDone(t, order(t)) && Sound(t, plan) && plan.kind == LIVENESS_KIND
    requires OnlyEntry(t, plan)
    requires IsVerdict(verdict) && rounds >= 2 && window >= 1 && fuel >= |plan.chunks|
    ensures var (outcome, count, t') := PhaseSession(Liveness(plan, nfcPlans), window, t, order, verdict, fuel, rounds);
            var entry := KeyOf(plan) in t.chunks;
            if outcome == UploadEnded(TOO_LARGE) then !RoomFor(t, 3 * |Concat(plan.chunks)|)
            else
              && count == (if LastHeld(t, plan) || (LIVENESS_KIND in t.artifacts && !entry) then 1 else 2)
              && SameElsewhere(t, t', plan) && NfcDone(t', order(t'))
              && if VideoCloses(t, plan) then
                   && outcome == Closing(Liveness(plan, nfcPlans), verdict)
                   && LIVENESS_KIND in t'.artifacts && KeyOf(plan) !in t'.chunks
                   && t'.artifacts[LIVENESS_KIND]
                      == if entry || LIVENESS_KIND !in t.artifacts then Concat(plan.chunks)
                         else t.artifacts[LIVENESS_KIND]
                 else outcome == UploadEnded(Stopped(UnexpectedServerResponse))
  {
    hide PhaseSession, JobsSession, NfcDone, Sound, Gaps, Parts, IndexJobs, Concat, LastHeld, IsStuck, Ledger;
    hide ReplyTo;
    hide SameElsewhere;
    assert WalksEntries(order(t), t);
    VideoRound(plan, nfcPlans, window, t, order, verdict, fuel, rounds);
    LastHeldHasMoreGaps(t, plan);
    NothingChanges(t, plan);
    if !(LIVENESS_KIND in t.artifacts && KeyOf(plan) !in t.chunks) {
      VideoSent(plan, window, t, fuel);
      var jobs := if KeyOf(plan) in t.chunks then IndexJobs(Gaps(plan, Parts(t, plan)), plan) else [Job(plan, 0)];
      var (first, t1) := JobsSession(jobs, window, t, fuel);
      if first != TOO_LARGE {
        assert WalksEntries(order(t1), t1);
        NfcStaysDone(t, t1, plan, order(t), order(t1));
        if !LastHeld(t, plan) {
          SecondVideoRound(plan, nfcPlans, window, t, t1, order, verdict, fuel, rounds - 1);
        }
      }
    }
  }

  /** The round after the video was resent without an error. */
  lemma SecondVideoRound(
    plan: Plan, nfcPlans: Option<seq<Plan>>, window: nat, t: Transfer, t1: Transfer, order: Walk, verdict: PhaseAnswer,
    fuel: nat, rounds: nat)
    requires WalksAll(order) && NfcDone(t1, order(t1)) && plan.kind == LIVENESS_KIND && OnlyEntry(t, plan)
    requires SameElsewhere(t, t1, plan) && Sound(t1, plan)
    requires IsVerdict(verdict) && rounds >= 1 && window >= 1 && fuel >= |plan.chunks|
    requires if KeyOf(plan) in t1.chunks then IsStuck(plan, Ledger(t1, plan)) else LIVENESS_KIND in t1.artifacts
    ensures var phase := Liveness(plan, nfcPlans);
            var (outcome, count, t') := PhaseSession(phase, window, t1, order, verdict, fuel, rounds);
            if outcome == UploadEnded(TOO_LARGE) then !RoomFor(t1, |Concat(plan.chunks)|)
            else
              && count == 1 && SameElsewhere(t, t', plan) && NfcDone(t', order(t'))
              && if KeyOf(plan) in t1.chunks then outcome == UploadEnded(Stopped(UnexpectedServerResponse))
                 else outcome == Closing(phase, verdict) && t' == t1
  {
    hide PhaseSession, JobsSession, NfcDone, Sound, Gaps, Parts, IndexJobs, Concat, IsStuck, Ledger, ReplyTo;
    hide SameElsewhere;
    assert WalksEntries(order(t1), t1);
    StillOnlyEntry(t, t1, plan);
    VideoRound(plan, nfcPlans, window, t1, order, verdict, fuel, rounds);
    if KeyOf(plan) in t1.chunks {
      StuckBlock(t1, plan, window, fuel);
      var (outcome, t2) := JobsSession(IndexJobs(Gaps(plan, Parts(t1, plan)), plan), window, t1, fuel);
      if outcome != TOO_LARGE {
        assert WalksEntries(order(t2), t2);
        NfcStaysDone(t1, t2, plan, order(t1), order(t2));
        SameElsewhereTwice(t, t1, t2, plan);
      }
    }
  }

  lemma StillOnlyEntry(t: Transfer, t': Transfer, plan: Plan)
    requires OnlyEntry(t, plan) && SameElsewhere(t, t', plan)
    ensures OnlyEntry(t', plan)
  {
  }

  lemma LastHeldHasMoreGaps(t: Transfer, plan: Plan)
    requires Sound(t, plan)
    ensures LastHeld(t, plan) ==> KeyOf(plan) in t.chunks && Gaps(plan, Parts(t, plan)) != [|plan.chunks| - 1]
  {
    hide Sound, Gaps;
    SoundPlan(t, plan);
    if LastHeld(t, plan) {
      GapsShape(plan, Parts(t, plan));
    }
  }

  // ---- The NFC artifacts before it ----

  /** One round of the phase when something of the NFC phase is missing. */
  lemma RestreamRound(
    plan: Plan, nfcPlans: Option<seq<Plan>>, window: nat, t: Transfer, order: Walk, verdict: PhaseAnswer, fuel: nat,
    rounds: nat)
    requires WalksAll(order) && !NfcDone(t, order(t)) && rounds > 0
    ensures PhaseSession(Liveness(plan, nfcPlans), window, t, order, verdict, fuel, rounds)
         == match nfcPlans
            case None => (Threw(ServerError("NFC_REQUIRED_DATA_MISSING", None)), 1, t)
            case Some(plans) =>
              var (outcome, t') := JobsSession(WholeJobs(plans), window, t, fuel);
              if outcome != Delivered then (UploadEnded(outcome), 1, t')
              else
                var (later, count, t'') :=
                  PhaseSession(Liveness(plan, nfcPlans), window, t', order, verdict, fuel, rounds - 1);
                (later, count + 1, t'')
  {
    hide PhaseSession, JobsSession, WholeJobs, NfcStatus;
    PhaseStep(Liveness(plan, nfcPlans), window, t, order, verdict, fuel, rounds);
    assert WalksEntries(order(t), t);
  }

  ghost predicate SameVideo(t: Transfer, t': Transfer) {
    if LIVENESS_KIND in t.artifacts
    then LIVENESS_KIND in t'.artifacts && t'.artifacts[LIVENESS_KIND] == t.artifacts[LIVENESS_KIND]
    else LIVENESS_KIND !in t'.artifacts
  }

  /** The restream does not touch the video. */
  lemma VideoKept(plan: Plan, plans: seq<Plan>, t: Transfer, t': Transfer)
    requires plan.kind == LIVENESS_KIND && OnlyEntry(t, plan) && forall p <- plans :: IsNfcKind(p.kind)
    requires Kept(t, t', plans + [plan], KindsOf(WholeBlocks(plans)))
    ensures Sound(t', plan) && OnlyEntry(t', plan) && Parts(t', plan) == Parts(t, plan)
    ensures KeyOf(plan) in t'.chunks <==> KeyOf(plan) in t.chunks
    ensures SameVideo(t, t')
  {
    hide Sound, Parts;
    var all := plans + [plan];
    assert plan in all;
    forall b | b in WholeBlocks(plans) ensures b.plan.kind != plan.kind {
      var i :| 0 <= i < |plans| && WholeBlocks(plans)[i] == b;
      assert plans[i] in plans;
    }
    NoLedger(t, plan);
    NoLedger(t', plan);
    forall key | key in t'.chunks && key.0 == LIVENESS_KIND ensures key == KeyOf(plan) {
      assert (forall p <- all :: KeyOf(p) != key) ==> key in t.chunks;
    }
  }

  /** The restream of the NFC artifacts. */
  lemma Restreamed(plan: Plan, plans: seq<Plan>, size: nat, window: nat, t: Transfer, order: Walk, fuel: nat)
    requires WalksAll(order) && NfcReady(t, plans) && Sendable(plans, size, window, fuel)
    requires Sound(t, plan) && plan.kind == LIVENESS_KIND && OnlyEntry(t, plan)
    requires fuel >= |plan.chunks| && |Concat(plan.chunks)| <= size
    ensures var (outcome, t') := JobsSession(WholeJobs(plans), window, t, fuel);
            if outcome == TOO_LARGE then t.bytesReceived + (2 * |plans| + 1) * size > MAX_TOTAL_TRANSFER_BYTES
            else if SomeLastHeld(t, plans) then outcome == Stopped(UnexpectedServerResponse)
            else
              && outcome == Delivered && AllStoredWhole(t', plans) && NfcDone(t', order(t'))
              && Sound(t', plan) && OnlyEntry(t', plan) && Parts(t', plan) == Parts(t, plan)
              && (KeyOf(plan) in t'.chunks <==> KeyOf(plan) in t.chunks)
              && SameVideo(t, t')
              && t'.bytesReceived <= t.bytesReceived + 2 * |plans| * size
  {
    hide Sound, JobsSession, WholeJobs, Parts, Concat, Kept, LastHeld, HasAll, NfcDone, OnlyEntry;
    hide AllStoredWhole;
    var all := plans + [plan];
    NfcSound(t, plans);
    AlsoSendable(plan, plans, size, window, t, fuel);
    Restream(plans, all, size, window, t, fuel);
    var (outcome, t') := JobsSession(WholeJobs(plans), window, t, fuel);
    forall p | p in plans && LastHeld(t, p) ensures KeyOf(p) in t.chunks {
      HeldHasEntry(t, p);
    }
    if outcome != TOO_LARGE && !SomeLastHeld(t, plans) {
      VideoKept(plan, plans, t, t');
      RestreamCompletes(t, t', plans, all, KindsOf(WholeBlocks(plans)));
      assert WalksEntries(order(t'), t');
      DoneIffHasAll(t', order(t'));
    }
  }

  lemma AlsoSendable(plan: Plan, plans: seq<Plan>, size: nat, window: nat, t: Transfer, fuel: nat)
    requires NfcReady(t, plans) && Sendable(plans, size, window, fuel) && Sound(t, plan) && plan.kind == LIVENESS_KIND
    requires fuel >= |plan.chunks| && |Concat(plan.chunks)| <= size
    ensures Sendable(plans + [plan], size, window, fuel) && AllSound(t, plans + [plan]) && DistinctKinds(plans)
  {
    hide Consistent, StorageError, NamesPlans;
    assert forall i | 0 <= i < |plans| :: plans[i] in plans;
  }

  // ---- The phase ----

  lemma DeliveredStays(t: Transfer, t': Transfer, plan: Plan, plans: seq<Plan>)
    requires AllStoredWhole(t, plans) && SameElsewhere(t, t', plan) && forall p <- plans :: p.kind != plan.kind
    ensures forall p <- plans :: Delivers(t', p)
  {
  }

  lemma NfcPlans(t: Transfer, plans: seq<Plan>)
    requires NfcReady(t, plans)
    ensures forall p <- plans :: p.kind != LIVENESS_KIND
  {
  }

  ghost predicate Delivers(t: Transfer, plan: Plan) {
    plan.kind in t.artifacts && t.artifacts[plan.kind] == Concat(plan.chunks)
  }

  /**
  The liveness phase, from any sound state.  If something of the NFC phase is missing, the client
  restreams all its artifacts, which fails exactly if the last chunk of one of them is there; without
  a document read it stops.  Then the phase closes if and only if the video is missing, complete, or
  lacks its last chunk only.  Otherwise the client stops with an error, in the next round if the last
  chunk is there and in the one after it if not.
  */
  lemma LivenessPhaseOutcome(
    plan: Plan, nfcPlans: Option<seq<Plan>>, size: nat, window: nat, t: Transfer, order: Walk, verdict: PhaseAnswer,
    fuel: nat, rounds: nat)
    requires WalksAll(order) && Sound(t, plan) && plan.kind == LIVENESS_KIND && OnlyEntry(t, plan)
    requires IsVerdict(verdict) && rounds >= 3 && Sendable([plan], size, window, fuel)
    requires !NfcDone(t, order(t)) && nfcPlans.Some? ==>
               NfcReady(t, nfcPlans.value) && Sendable(nfcPlans.value, size, window, fuel)
    ensures var (outcome, count, t') := PhaseSession(Liveness(plan, nfcPlans), window, t, order, verdict, fuel, rounds);
            var done := NfcDone(t, order(t));
            var plans := if done || nfcPlans.None? then [] else nfcPlans.value;
            var entry := KeyOf(plan) in t.chunks;
            if outcome == UploadEnded(TOO_LARGE)
            then t.bytesReceived + (2 * |plans| + 3) * size > MAX_TOTAL_TRANSFER_BYTES
            else if !done && nfcPlans.None?
            then (outcome, count, t') == (Threw(ServerError("NFC_REQUIRED_DATA_MISSING", None)), 1, t)
            else if SomeLastHeld(t, plans)
            then outcome == UploadEnded(Stopped(UnexpectedServerResponse)) && count == 1
            else
              && NfcDone(t', order(t')) && (forall p <- plans :: Delivers(t', p))
              && count == (if done then 0 else 1)
                          + (if LastHeld(t, plan) || (LIVENESS_KIND in t.artifacts && !entry) then 1 else 2)
              && if VideoCloses(t, plan) then
                   && outcome == Closing(Liveness(plan, nfcPlans), verdict)
                   && LIVENESS_KIND in t'.artifacts && KeyOf(plan) !in t'.chunks
                   && t'.artifacts[LIVENESS_KIND]
                      == if entry || LIVENESS_KIND !in t.artifacts then Concat(plan.chunks)
                         else t.artifacts[LIVENESS_KIND]
                 else outcome == UploadEnded(Stopped(UnexpectedServerResponse))
  {
    hide PhaseSession, JobsSession, WholeJobs, NfcDone, NfcReady, Sound, Gaps, Parts, Concat, ReplyTo;
    hide SameElsewhere, OnlyEntry;
    assert WalksEntries(order(t), t) && plan in [plan];
    if NfcDone(t, order(t)) {
      VideoRounds(plan, nfcPlans, window, t, order, verdict, fuel, rounds);
    } else {
      RestreamRound(plan, nfcPlans, window, t, order, verdict, fuel, rounds);
      if nfcPlans.Some? {
        var plans := nfcPlans.value;
        Restreamed(plan, plans, size, window, t, order, fuel);
        Multiples(|plans| + 1, size);
        var (first, t1) := JobsSession(WholeJobs(plans), window, t, fuel);
        if first == Delivered {
          VideoRounds(plan, nfcPlans, window, t1, order, verdict, fuel, rounds - 1);
          var (later, _, t2) := PhaseSession(Liveness(plan, nfcPlans), window, t1, order, verdict, fuel, rounds - 1);
          if later != UploadEnded(TOO_LARGE) {
            NfcPlans(t, plans);
            DeliveredStays(t1, t2, plan, plans);
          }
        }
      }
    }
  }
}
