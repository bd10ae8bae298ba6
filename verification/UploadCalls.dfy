/**
The two calls that send a phase's data to the repository's own server and then ask it to close the phase:
`uploadNFCData` and `sendLivenessVideo`.
*/
module UploadCalls {
  import opened Wrappers
  import opened ChunkedUpload
  import opened TransferServer
  import opened TransferStatus
  import opened UploadResend
  import opened UploadCompletion
  import opened UploadWindows
  import opened UploadEndToEnd
  import opened UploadLedger
  import opened UploadPhases
  import opened UploadBlocks
  import opened NfcPhase
  import opened NfcRestream
  import opened LivenessPhase

  /** The uploads of the plans, then the phase; how the call ends, with how many answers. */
  ghost function Call(
    phase: Phase, plans: seq<Plan>, window: nat, t: Transfer, order: Walk, verdict: PhaseAnswer, fuel: nat, rounds: nat)
    : (PhaseOutcome, nat, Transfer)
    requires WalksAll(order)
  {
    var (outcome, t') := JobsSession(WholeJobs(plans), window, t, fuel);
    if outcome != Delivered then (UploadEnded(outcome), 0, t')
    else PhaseSession(phase, window, t', order, verdict, fuel, rounds)
  }

  // ---- Uploads that returned ----

  ghost predicate NoneOfKind(plans: seq<Plan>, kind: nat) {
    forall p <- plans :: p.kind != kind
  }

  /** What uploads that returned normally leave, whatever was there before. */
  ghost predicate Uploaded(t: Transfer, t': Transfer, plans: seq<Plan>) {
    && WellFormed(t') && AllStoredWhole(t', plans)
    && (forall key <- t'.chunks | NoneOfKind(plans, key.0) :: key in t.chunks && t'.chunks[key] == t.chunks[key])
    && (forall kind <- t.artifacts :: kind in t'.artifacts)
    && (forall kind <- t.artifacts | NoneOfKind(plans, kind) && kind in t'.artifacts ::
          t'.artifacts[kind] == t.artifacts[kind])
    && (forall kind <- t'.artifacts | NoneOfKind(plans, kind) :: kind in t.artifacts)
  }

  lemma UploadedNone(t: Transfer)
    requires WellFormed(t)
    ensures Uploaded(t, t, [])
  {
  }

  lemma UploadedCons(p: Plan, rest: seq<Plan>, t: Transfer, t1: Transfer, t': Transfer)
    requires DistinctKinds([p] + rest) && Shaped(p) && (forall q <- rest :: q.kind != p.kind)
    requires t1.artifacts == t.artifacts[p.kind := Concat(p.chunks)] && KeyOf(p) !in t1.chunks
    requires SameElsewhere(t, t1, p)
    requires Uploaded(t1, t', rest) && WellFormed(t1)
    ensures Uploaded(t, t', [p] + rest)
  {
    hide Concat, AllPresent;
    var all := [p] + rest;
    assert NoneOfKind(rest, p.kind);
    forall kind: nat | NoneOfKind(all, kind) ensures kind != p.kind && NoneOfKind(rest, kind) {
      assert p in all && forall q <- rest :: q in all;
    }
    forall q | q in all
      ensures KeyOf(q) !in t'.chunks && q.kind in t'.artifacts && t'.artifacts[q.kind] == Concat(q.chunks)
    {
      assert q == p || q in rest;
    }
    forall key | key in t'.chunks && NoneOfKind(all, key.0) ensures key in t.chunks && t'.chunks[key] == t.chunks[key] {
      assert key != KeyOf(p) && key in t1.chunks;
    }
  }

  lemma {:induction false} UploadsReturn(plans: seq<Plan>, window: nat, t: Transfer, fuel: nat)
    requires WellFormed(t) && window >= 1 && DistinctKinds(plans) && forall p <- plans :: Shaped(p)
    requires JobsSession(WholeJobs(plans), window, t, fuel).0 == Delivered
    ensures Uploaded(t, JobsSession(WholeJobs(plans), window, t, fuel).1, plans)
  {
    hide WellFormed, Session, Shaped, Concat, Uploaded, SameElsewhere, KeyOf;
    if plans == [] {
      UploadedNone(t);
    } else {
      var p, rest := plans[0], plans[1..];
      assert plans == [p] + rest && p in plans;
      HasChunks(p);
      WholeJobsCons(p, rest, window, t, fuel);
      DeliveredFromStart(p, window, t, fuel);
      SessionKeepsWellFormed(p, 0, window, t, fuel);
      var t1 := Session(p, 0, window, t, fuel).1;
      UploadsReturn(rest, window, t1, fuel);
      UploadedCons(p, rest, t, t1, JobsSession(WholeJobs(rest), window, t1, fuel).1);
    }
  }

  lemma WholeJobsCons(p: Plan, rest: seq<Plan>, window: nat, t: Transfer, fuel: nat)
    requires p.chunks != []
    ensures var (outcome, t') := Session(p, 0, window, t, fuel);
            JobsSession(WholeJobs([p] + rest), window, t, fuel)
            == if outcome != Delivered then (outcome, t') else JobsSession(WholeJobs(rest), window, t', fuel)
  {
    hide Session;
    assert ([p] + rest)[1..] == rest && WholeJobs([p] + rest)[1..] == WholeJobs(rest);
  }

  // ---- The NFC call ----

  /**
  The NFC phase is closed at the first answer if the uploads before it have returned: everything is
  then stored, whatever the server held of the artifacts before.
  */
  lemma NfcCallCloses(
    plans: seq<Plan>, window: nat, t: Transfer, order: Walk, verdict: PhaseAnswer, fuel: nat, rounds: nat)
    requires WalksAll(order) && IsVerdict(verdict) && rounds >= 1 && window >= 1
    requires WellFormed(t) && DistinctKinds(plans) && forall p <- plans :: Shaped(p)
    requires NamesPlans(MissingNfcArtifacts(t), plans)
    requires forall key <- t.chunks | IsNfcKind(key.0) :: exists p <- plans :: p.kind == key.0
    ensures var (uploads, t1) := JobsSession(WholeJobs(plans), window, t, fuel);
            var (outcome, count, t') := Call(Nfc(plans), plans, window, t, order, verdict, fuel, rounds);
            if uploads != Delivered then outcome == UploadEnded(uploads)
            else
              && outcome == Closing(Nfc(plans), verdict) && count == 1
              && t' == t1 && HasAll(t', false) && forall p <- plans :: Delivers(t', p)
  {
    hide JobsSession, WholeJobs, WellFormed, Shaped, HasAll, PhaseSession, ReplyTo, MissingNfcArtifacts;
    hide MissingDataMessage;
    var (uploads, t1) := JobsSession(WholeJobs(plans), window, t, fuel);
    if uploads == Delivered {
      UploadsReturn(plans, window, t, fuel);
      UploadsComplete(t, t1, plans);
      PhaseStep(Nfc(plans), window, t1, order, verdict, fuel, rounds);
      assert WalksEntries(order(t1), t1);
      NoMessageIff(t1, order(t1), false);
    }
  }

  lemma UploadsComplete(t: Transfer, t': Transfer, plans: seq<Plan>)
    requires Uploaded(t, t', plans) && NamesPlans(MissingNfcArtifacts(t), plans)
    requires forall key <- t.chunks | IsNfcKind(key.0) :: exists p <- plans :: p.kind == key.0
    requires forall p <- plans :: Shaped(p)
    ensures HasAll(t', false)
  {
    hide MissingNfcArtifacts, ArtifactKind, PlanOfKind, AllPresent, Concat;
    forall kind: nat | kind <= 2 ensures kind in t'.artifacts {
      if kind !in t.artifacts {
        PlanOfMissing(t, plans, kind);
      }
    }
    forall key: Key | IsNfcKind(key.0) ensures key !in t'.chunks {
      if !NoneOfKind(plans, key.0) {
        var p :| p in plans && p.kind == key.0;
        assert KeyOf(p) == (key.0, 0);
      }
    }
  }

  // ---- The liveness call ----

  /**
  The liveness phase after the upload of the video has returned, when nothing of the NFC phase is
  missing: it closes at the first answer, with the video stored.
  */
  lemma LivenessCallCloses(
    plan: Plan, nfcPlans: Option<seq<Plan>>, window: nat, t: Transfer, order: Walk, verdict: PhaseAnswer, fuel: nat,
    rounds: nat)
    requires WalksAll(order) && IsVerdict(verdict) && rounds >= 1 && window >= 1
    requires WellFormed(t) && Shaped(plan) && plan.kind == LIVENESS_KIND && NfcDone(t, order(t))
    ensures var (uploads, t1) := JobsSession(WholeJobs([plan]), window, t, fuel);
            var phase := Liveness(plan, nfcPlans);
            var (outcome, count, t') := Call(phase, [plan], window, t, order, verdict, fuel, rounds);
            if uploads != Delivered then outcome == UploadEnded(uploads)
            else
              && outcome == Closing(phase, verdict) && count == 1
              && t' == t1 && HasAll(t', true) && Delivers(t', plan)
  {
    hide JobsSession, WholeJobs, WellFormed, HasAll, PhaseSession, ReplyTo, MissingDataMessage, NfcDone;
    hide StorageError;
    var (uploads, t1) := JobsSession(WholeJobs([plan]), window, t, fuel);
    if uploads == Delivered {
      UploadsReturn([plan], window, t, fuel);
      assert WalksEntries(order(t), t);
      DoneIffHasAll(t, order(t));
      VideoCompletes(t, t1, plan);
      PhaseStep(Liveness(plan, nfcPlans), window, t1, order, verdict, fuel, rounds);
      assert WalksEntries(order(t1), t1);
      NoMessageIff(t1, order(t1), true);
    }
  }

  lemma VideoCompletes(t: Transfer, t': Transfer, plan: Plan)
    requires Shaped(plan) && plan.kind == LIVENESS_KIND && Uploaded(t, t', [plan]) && HasAll(t, false)
    ensures HasAll(t', true) && Delivers(t', plan)
  {
    hide AllPresent, Concat;
    assert plan in [plan];
    forall key | key in t'.chunks && IsOfPhase(key, true) ensures AllPresent(t'.chunks[key]) {
      assert NoneOfKind([plan], key.0);
    }
    forall key: Key | key.0 == LIVENESS_KIND ensures key !in t'.chunks {
      assert KeyOf(plan) == (key.0, 0);
    }
  }

  /**
  The call on a connection that holds no chunks, as after a reconnect.  If the NFC artifacts were lost
  with the old one, the first answer makes the client restream them, and the second closes the phase.
  */
  lemma ReconnectedCallCloses(
    plan: Plan, plans: seq<Plan>, size: nat, window: nat, t: Transfer, order: Walk, verdict: PhaseAnswer, fuel: nat,
    rounds: nat)
    requires WalksAll(order) && IsVerdict(verdict) && rounds >= 3 && t.chunks == map[]
    requires Acceptable(plan) && plan.kind == LIVENESS_KIND && Sendable([plan], size, window, fuel)
    requires Sendable(plans, size, window, fuel) && forall p <- plans :: Acceptable(p) && IsNfcKind(p.kind)
    requires NamesPlans(MissingNfcArtifacts(t), plans)
    ensures var phase := Liveness(plan, Some(plans));
            var (outcome, count, t') := Call(phase, [plan], window, t, order, verdict, fuel, rounds);
            if outcome == UploadEnded(TOO_LARGE)
            then t.bytesReceived + (2 * |plans| + 4) * size > MAX_TOTAL_TRANSFER_BYTES
            else
              && outcome == Closing(phase, verdict) && count == (if NfcDone(t, order(t)) then 1 else 2)
              && NfcDone(t', order(t')) && Delivers(t', plan)
              && (!NfcDone(t, order(t)) ==> forall p <- plans :: Delivers(t', p))
  {
    hide JobsSession, WholeJobs, NfcDone, NfcReady, Acceptable, ReplyTo, Concat, Sound, PhaseSession, Sendable;
    hide OnlyEntry, MissingNfcArtifacts, KeyOf, LastHeld, SomeLastHeld, VideoCloses, Gaps, Parts, NamesPlans;
    ReconnectedVideo(plan, plans, size, window, t, order, fuel);
    Multiples(|plans| + 2, size);
    var (first, t1) := JobsSession(WholeJobs([plan]), window, t, fuel);
    if first == Delivered {
      NoneHeld(t1);
      LivenessPhaseOutcome(plan, Some(plans), size, window, t1, order, verdict, fuel, rounds);
    }
  }

  lemma NoneHeld(t: Transfer)
    ensures !SomeLastHeld(t, [])
  {
  }

  /** The upload of the video on such a connection. */
  lemma ReconnectedVideo(
    plan: Plan, plans: seq<Plan>, size: nat, window: nat, t: Transfer, order: Walk, fuel: nat)
    requires WalksAll(order) && t.chunks == map[]
    requires Acceptable(plan) && plan.kind == LIVENESS_KIND && Sendable([plan], size, window, fuel)
    requires forall p <- plans :: Acceptable(p) && IsNfcKind(p.kind)
    requires NamesPlans(MissingNfcArtifacts(t), plans)
    ensures var (outcome, t1) := JobsSession(WholeJobs([plan]), window, t, fuel);
            if outcome == TOO_LARGE then !RoomFor(t, size)
            else
              && outcome == Delivered && Delivers(t1, plan) && t1.bytesReceived <= t.bytesReceived + size
              && Sound(t1, plan) && OnlyEntry(t1, plan) && KeyOf(plan) !in t1.chunks
              && !LastHeld(t1, plan) && VideoCloses(t1, plan)
              && NfcReady(t1, plans) && !SomeLastHeld(t1, plans)
              && (NfcDone(t, order(t)) <==> NfcDone(t1, order(t1)))
  {
    hide Session, JobsSession, WholeJobs, NfcDone, NfcReady, Acceptable, Concat, Room, Sound, SameElsewhere;
    hide KeyOf;
    hide OnlyEntry, MissingNfcArtifacts, LastHeld, SomeLastHeld, VideoCloses, NamesPlans, Load;
    assert plan in [plan] && [plan] == [plan] + [] && forall key :: key !in t.chunks;
    WholeJobsCons(plan, [], window, t, fuel);
    var (first, t1) := Session(plan, 0, window, t, fuel);
    NothingToUpload(window, t1, fuel);
    FreshUpload(plan, window, t, fuel);
    AcceptableRoom(plan, t);
    if first == Delivered {
      StillNoEntries(t, t1, plan, plans, order);
      LoadOfWhole(plan, t, t1);
    }
  }

  lemma NothingToUpload(window: nat, t: Transfer, fuel: nat)
    ensures JobsSession(WholeJobs([]), window, t, fuel) == (Delivered, t)
  {
  }

  lemma AcceptableRoom(plan: Plan, t: Transfer)
    requires Acceptable(plan)
    ensures RoomFor(t, |Concat(plan.chunks)|) ==> Room(t, plan, 0, |plan.chunks|)
  {
    hide Room, Concat;
    assert plan.chunks[0..] == plan.chunks;
    if RoomFor(t, |Concat(plan.chunks)|) {
      LoadLeavesRoom(plan, 0, t);
    }
  }

  lemma LoadOfWhole(plan: Plan, t: Transfer, t': Transfer)
    requires Load(t', plan, |plan.chunks|) <= Load(t, plan, 0)
    ensures t'.bytesReceived <= t.bytesReceived + |Concat(plan.chunks)|
  {
    assert plan.chunks[0..] == plan.chunks && plan.chunks[|plan.chunks|..] == [];
  }

  lemma StillNoEntries(t: Transfer, t': Transfer, plan: Plan, plans: seq<Plan>, order: Walk)
    requires WalksAll(order) && t.chunks == map[] && KeyOf(plan) !in t'.chunks && SameElsewhere(t, t', plan)
    requires Acceptable(plan) && plan.kind == LIVENESS_KIND
    requires (forall p <- plans :: Acceptable(p) && IsNfcKind(p.kind)) && NamesPlans(MissingNfcArtifacts(t), plans)
    ensures Sound(t', plan) && OnlyEntry(t', plan) && NfcReady(t', plans)
    ensures NfcDone(t, order(t)) <==> NfcDone(t', order(t'))
    ensures !LastHeld(t', plan) && VideoCloses(t', plan) && !SomeLastHeld(t', plans)
  {
    hide NfcDone, StorageError, MissingTransferChunks, ArtifactKind, PlanOfKind;
    assert forall key :: key !in t'.chunks;
    assert WalksEntries(order(t), t) && WalksEntries(order(t'), t');
    DoneIffHasAll(t, order(t));
    DoneIffHasAll(t', order(t'));
    forall p | Acceptable(p) ensures Sound(t', p) {
      assert 0 !in Held(t', p);
    }
    forall kind: nat | kind <= 2 ensures kind in t'.artifacts <==> kind in t.artifacts {
    }
    assert 0 in t'.artifacts <==> 0 in t.artifacts;
    assert 1 in t'.artifacts <==> 1 in t.artifacts;
    assert 2 in t'.artifacts <==> 2 in t.artifacts;
    assert MissingNfcArtifacts(t') == MissingNfcArtifacts(t);
  }
}
