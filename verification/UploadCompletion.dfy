/**
The completion loops of the two upload phases: `completeNFCPhase` and `completeLivenessPhase` ask the
server to close the phase and resend what it says is missing, until it gives any other answer.
*/
module UploadCompletion {
  import opened Wrappers
  import opened ChunkedUpload
  import opened UploadDelivery
  import opened UploadResend

  // The answer to a phase message.  With an error come the lists its message parses to, if any.
  datatype PhaseAnswer =
    | PhaseOk
    | CheckResult
    | Other
    | Failure(error: SocketError, missingNfc: Option<MissingNfcData>, missingLiveness: Option<seq<MissingChunks>>)

  // One pass of the loop: the answer, and what the network does with the uploads it asks for.
  datatype Round = Round(answer: PhaseAnswer, turns: seq<Turn>)

  datatype PhaseOutcome =
    | Completed
    | Answered
    | Threw(error: SocketError)
    | UploadEnded(outcome: Outcome)
    | Unfinished

  // The liveness phase can also be asked for the NFC artifacts, if a document was read.
  datatype Phase = Nfc(plans: seq<Plan>) | Liveness(plan: Plan, nfcPlans: Option<seq<Plan>>)

  datatype Reply = Return(outcome: PhaseOutcome) | Resend(jobs: seq<Job>)

  function WholeJobs(plans: seq<Plan>): (jobs: seq<Job>)
    ensures |jobs| == |plans|
    ensures forall i | 0 <= i < |jobs| :: jobs[i] == Job(plans[i], 0)
  {
    if plans == [] then [] else [Job(plans[0], 0)] + WholeJobs(plans[1..])
  }

  function ReplyTo(phase: Phase, answer: PhaseAnswer): Reply {
    match phase
    case Nfc(plans) =>
      (match answer
       case PhaseOk => Return(Completed)
       case CheckResult => Return(Answered)
       case Other => Return(Threw(UnexpectedServerResponse))
       case Failure(error, missing, _) =>
         if error.ServerError? && missing.Some? then Resend(NfcJobs(missing.value, plans)) else Return(Threw(error)))
    case Liveness(plan, nfcPlans) =>
      match answer
      case CheckResult => Return(Completed)
      case PhaseOk => Return(Threw(UnexpectedServerResponse))
      case Other => Return(Threw(UnexpectedServerResponse))
      case Failure(error, missingNfc, missing) =>
        if error.ServerError? && missingNfc.Some? && nfcPlans.Some? then Resend(WholeJobs(nfcPlans.value))
        else if error.ServerError? && missing.Some? then Resend(LivenessJobs(missing.value, plan))
        else Return(Threw(error))
  }

  function RunPhase(phase: Phase, window: nat, rounds: seq<Round>): PhaseOutcome {
    if rounds == [] then Unfinished
    else
      var reply := ReplyTo(phase, rounds[0].answer);
      if reply.Return? then reply.outcome
      else if Uploads(phase, window, rounds[0]) == Delivered then RunPhase(phase, window, rounds[1..])
      else UploadEnded(Uploads(phase, window, rounds[0]))
  }

  /** How the uploads of a round end. */
  function Uploads(phase: Phase, window: nat, round: Round): Outcome
    requires ReplyTo(phase, round.answer).Resend?
  {
    RunJobs(ReplyTo(phase, round.answer).jobs, window, round.turns).outcome
  }

  // ---- Which answers end a phase ----

  /** The server's error names missing NFC data, and the client sent it without an error. */
  ghost predicate NfcResent(plans: seq<Plan>, window: nat, r: Round) {
    && r.answer.Failure? && r.answer.error.ServerError? && r.answer.missingNfc.Some?
    && RunJobs(NfcJobs(r.answer.missingNfc.value, plans), window, r.turns).outcome == Delivered
  }

  /** The loop comes to answer `k`. */
  ghost predicate NfcReaches(plans: seq<Plan>, window: nat, rounds: seq<Round>, k: nat) {
    k < |rounds| && forall i | 0 <= i < k :: NfcResent(plans, window, rounds[i])
  }

  /** The server's error names missing data, which the client sent without an error. */
  ghost predicate LivenessResent(plan: Plan, nfcPlans: Option<seq<Plan>>, window: nat, r: Round) {
    && r.answer.Failure? && r.answer.error.ServerError?
    && if r.answer.missingNfc.Some? && nfcPlans.Some?
       then RunJobs(WholeJobs(nfcPlans.value), window, r.turns).outcome == Delivered
       else
         && r.answer.missingLiveness.Some?
         && RunJobs(LivenessJobs(r.answer.missingLiveness.value, plan), window, r.turns).outcome == Delivered
  }

  ghost predicate LivenessReaches(plan: Plan, nfcPlans: Option<seq<Plan>>, window: nat, rounds: seq<Round>, k: nat) {
    k < |rounds| && forall i | 0 <= i < k :: LivenessResent(plan, nfcPlans, window, rounds[i])
  }

  ghost predicate GoesOn(phase: Phase, window: nat, r: Round) {
    ReplyTo(phase, r.answer).Resend? && Uploads(phase, window, r) == Delivered
  }

  /** The first answer after which the phase does not go on decides it. */
  lemma {:induction false} Decided(phase: Phase, window: nat, rounds: seq<Round>) returns (k: nat)
    ensures k <= |rounds| && forall i | 0 <= i < k :: GoesOn(phase, window, rounds[i])
    ensures k == |rounds| ==> RunPhase(phase, window, rounds) == Unfinished
    ensures k < |rounds| ==>
              && !GoesOn(phase, window, rounds[k])
              && RunPhase(phase, window, rounds) == RunPhase(phase, window, [rounds[k]]) != Unfinished
  {
    hide RunJobs, ReplyTo;
    if rounds == [] {
      k := 0;
    } else if GoesOn(phase, window, rounds[0]) {
      k := Decided(phase, window, rounds[1..]);
      k := k + 1;
    } else {
      k := 0;
      NotUnfinished(phase, rounds[0].answer);
    }
  }

  lemma NotUnfinished(phase: Phase, answer: PhaseAnswer)
    ensures ReplyTo(phase, answer).Return? ==> ReplyTo(phase, answer).outcome != Unfinished
  {
  }

  // ---- The loops ----

  method UploadPlans(plans: seq<Plan>, window: nat, turns: seq<Turn>) returns (outcome: Outcome, used: nat)
    ensures RunResult(outcome, used) == RunJobs(WholeJobs(plans), window, turns)
  {
    hide Upload, RunJobs, WholeJobs, AreWindows, VerdictOf;
    used := 0;
    ghost var whole := RunJobs(WholeJobs(plans), window, turns);
    assert turns[0..] == turns && plans[0..] == plans;
    for i := 0 to |plans|
      invariant used <= |turns|
      invariant whole == Shift(RunJobs(WholeJobs(plans[i..]), window, turns[used..]), used)
    {
      WholeStep(plans, i, window, turns[used..]);
      var n, sent;
      outcome, n, sent := UploadDataPlan(plans[i], 0, window, turns[used..]);
      assert turns[used..][n..] == turns[used + n..];
      used := used + n;
      if outcome != Delivered {
        return;
      }
    }
    NothingWhole(window, turns[used..]);
    assert plans[|plans|..] == [];
    outcome := Delivered;
  }

  lemma WholeStep(plans: seq<Plan>, i: nat, window: nat, turns: seq<Turn>)
    requires i < |plans|
    ensures var first := Upload(plans[i], 0, window, turns);
            first.used <= |turns| &&
            RunJobs(WholeJobs(plans[i..]), window, turns)
            == if first.outcome != Delivered then first
               else Shift(RunJobs(WholeJobs(plans[i + 1..]), window, turns[first.used..]), first.used)
  {
    hide Upload;
    var jobs := WholeJobs(plans[i..]);
    assert plans[i..][1..] == plans[i + 1..];
    assert jobs[1..] == WholeJobs(plans[i + 1..]);
  }

  lemma NothingWhole(window: nat, turns: seq<Turn>)
    ensures RunJobs(WholeJobs([]), window, turns) == RunResult(Delivered, 0)
  {
  }

  lemma NextRound(phase: Phase, window: nat, rounds: seq<Round>, i: nat)
    requires i < |rounds|
    ensures RunPhase(phase, window, rounds[i..])
         == if ReplyTo(phase, rounds[i].answer).Return? then ReplyTo(phase, rounds[i].answer).outcome
            else if Uploads(phase, window, rounds[i]) == Delivered then RunPhase(phase, window, rounds[i + 1..])
            else UploadEnded(Uploads(phase, window, rounds[i]))
  {
    hide RunJobs, ReplyTo;
    assert rounds[i..][1..] == rounds[i + 1..];
  }

  method CompleteNfcPhase(plans: seq<Plan>, window: nat, rounds: seq<Round>) returns (outcome: PhaseOutcome)
    requires DistinctKinds(plans)
    ensures outcome == RunPhase(Nfc(plans), window, rounds)
    ensures outcome == Completed <==>
              exists k: nat :: NfcReaches(plans, window, rounds, k) && rounds[k].answer == PhaseOk
    ensures outcome == Answered <==>
              exists k: nat :: NfcReaches(plans, window, rounds, k) && rounds[k].answer == CheckResult
    ensures forall k: nat | NfcReaches(plans, window, rounds, k) && rounds[k].answer == Other ::
              outcome == Threw(UnexpectedServerResponse)
    ensures forall k: nat | NfcReaches(plans, window, rounds, k) && rounds[k].answer.Failure? ::
              var answer := rounds[k].answer;
              if !answer.error.ServerError? || answer.missingNfc.None? then outcome == Threw(answer.error)
              else
                var uploads := RunJobs(NfcJobs(answer.missingNfc.value, plans), window, rounds[k].turns).outcome;
                uploads == Delivered || outcome == UploadEnded(uploads)
    ensures outcome == Unfinished <==> forall i | 0 <= i < |rounds| :: NfcResent(plans, window, rounds[i])
  {
    hide RunJobs, NfcJobs;
    ghost var last := Decided(Nfc(plans), window, rounds);
    assert forall r :: NfcResent(plans, window, r) <==> GoesOn(Nfc(plans), window, r);
    assert last < |rounds| ==> NfcReaches(plans, window, rounds, last);
    hide RunPhase, GoesOn;
    assert rounds[0..] == rounds;
    for i := 0 to |rounds|
      invariant RunPhase(Nfc(plans), window, rounds) == RunPhase(Nfc(plans), window, rounds[i..])
    {
      NextRound(Nfc(plans), window, rounds, i);
      match rounds[i].answer {
        case PhaseOk => return Completed;
        case CheckResult => return Answered;
        case Other => return Threw(UnexpectedServerResponse);
        case Failure(error, missing, _) =>
          if !error.ServerError? {
            return Threw(error);
          }
          if missing.None? {
            return Threw(error);
          }
          var uploads, _ := ResendMissingNfcData(missing.value, plans, window, rounds[i].turns);
          if uploads != Delivered {
            return UploadEnded(uploads);
          }
      }
    }
    NoRounds(Nfc(plans), window);
    assert rounds[|rounds|..] == [];
    outcome := Unfinished;
  }

  method CompleteLivenessPhase(plan: Plan, nfcPlans: Option<seq<Plan>>, window: nat, rounds: seq<Round>)
    returns (outcome: PhaseOutcome)
    ensures outcome == RunPhase(Liveness(plan, nfcPlans), window, rounds)
    ensures outcome == Completed <==>
              exists k: nat ::
                LivenessReaches(plan, nfcPlans, window, rounds, k) && rounds[k].answer == CheckResult
    ensures outcome != Answered
    ensures forall k: nat | LivenessReaches(plan, nfcPlans, window, rounds, k) ::
              rounds[k].answer == PhaseOk || rounds[k].answer == Other ==> outcome == Threw(UnexpectedServerResponse)
    ensures forall k: nat | LivenessReaches(plan, nfcPlans, window, rounds, k) && rounds[k].answer.Failure? ::
              var answer := rounds[k].answer;
              var restream := answer.missingNfc.Some? && nfcPlans.Some?;
              if !answer.error.ServerError? || !(restream || answer.missingLiveness.Some?)
              then outcome == Threw(answer.error)
              else
                var jobs := if restream then WholeJobs(nfcPlans.value)
                            else LivenessJobs(answer.missingLiveness.value, plan);
                var uploads := RunJobs(jobs, window, rounds[k].turns).outcome;
                uploads == Delivered || outcome == UploadEnded(uploads)
    ensures outcome == Unfinished <==>
              forall i | 0 <= i < |rounds| :: LivenessResent(plan, nfcPlans, window, rounds[i])
  {
    hide RunJobs, LivenessJobs, WholeJobs;
    ghost var last := Decided(Liveness(plan, nfcPlans), window, rounds);
    assert forall r :: LivenessResent(plan, nfcPlans, window, r) <==> GoesOn(Liveness(plan, nfcPlans), window, r);
    assert last < |rounds| ==> LivenessReaches(plan, nfcPlans, window, rounds, last);
    hide RunPhase, GoesOn;
    ghost var phase := Liveness(plan, nfcPlans);
    assert rounds[0..] == rounds;
    for i := 0 to |rounds|
      invariant RunPhase(phase, window, rounds) == RunPhase(phase, window, rounds[i..])
    {
      NextRound(phase, window, rounds, i);
      var uploads, used;
      match rounds[i].answer {
        case CheckResult => return Completed;
        case PhaseOk => return Threw(UnexpectedServerResponse);
        case Other => return Threw(UnexpectedServerResponse);
        case Failure(error, missingNfc, missing) =>
          if !error.ServerError? {
            return Threw(error);
          }
          if missingNfc.Some? && nfcPlans.Some? {
            uploads, used := UploadPlans(nfcPlans.value, window, rounds[i].turns);
          } else if missing.None? {
            return Threw(error);
          } else {
            uploads, used := ResendMissingLivenessData(missing.value, plan, window, rounds[i].turns);
          }
          if uploads != Delivered {
            return UploadEnded(uploads);
          }
      }
    }
    NoRounds(phase, window);
    assert rounds[|rounds|..] == [];
    outcome := Unfinished;
  }

  lemma NoRounds(phase: Phase, window: nat)
    ensures RunPhase(phase, window, []) == Unfinished
  {
  }

  // ---- When one resend would be enough ----

  /** Every chunk that the store lacks is asked for, by its index or with its whole artifact. */
  ghost predicate NamesAllGaps(missing: MissingNfcData, plans: seq<Plan>, store: Store) {
    forall p <- plans, c: nat | c < |p.chunks| && !Has(p, store, c) ::
      || (exists a <- missing.artifacts :: ArtifactKind(a) == Some(p.kind))
      || (exists m <- missing.chunks :: m.kind == p.kind && c in m.chunkIndices)
  }

  ghost predicate AllStored(plans: seq<Plan>, store: Store) {
    forall p <- plans :: HasRange(p, store, 0, |p.chunks|)
  }

  lemma RangeHas(plan: Plan, store: Store, lo: nat, hi: nat, c: nat)
    requires HasRange(plan, store, lo, hi) && lo <= c < hi
    ensures Has(plan, store, c)
  {
  }

  /** A resend that returns normally fills every gap of a list that names them all. */
  lemma ResendFillsAllGaps(missing: MissingNfcData, plans: seq<Plan>, window: nat, turns: seq<Turn>, stores: seq<Store>)
    requires DistinctKinds(plans) && |stores| == |turns| + 1
    requires NeverForgets(stores) && forall p <- plans :: p.chunks != []
    requires forall j <- NfcJobs(missing, plans) :: Honest(j.plan, turns, stores, j.start)
    requires NamesAllGaps(missing, plans, stores[0])
    ensures var r := RunJobs(NfcJobs(missing, plans), window, turns);
            r.outcome == Delivered ==> AllStored(plans, stores[r.used])
  {
    hide RunJobs, NfcJobs, Has, HasRange, Honest, NeverForgets, DistinctKinds;
    var r := RunJobs(NfcJobs(missing, plans), window, turns);
    if r.outcome == Delivered {
      NfcResendDelivers(missing, plans, window, turns, stores);
      forall p, c: nat | p in plans && c < |p.chunks| ensures Has(p, stores[r.used], c) {
        if Has(p, stores[0], c) {
          OneHas(p, stores[0], c);
          StaysStored(p, stores, r.used, c, c + 1);
          RangeHas(p, stores[r.used], c, c + 1, c);
        } else if exists a <- missing.artifacts :: ArtifactKind(a) == Some(p.kind) {
          RangeHas(p, stores[r.used], 0, |p.chunks|, c);
        } else {
          RangeHas(p, stores[r.used], c, |p.chunks|, c);
        }
      }
      forall p | p in plans ensures HasRange(p, stores[r.used], 0, |p.chunks|) {
        AllHas(p, stores[r.used]);
      }
    }
  }

  lemma OneHas(plan: Plan, store: Store, c: nat)
    requires Has(plan, store, c)
    ensures HasRange(plan, store, c, c + 1)
  {
  }

  lemma AllHas(plan: Plan, store: Store)
    requires forall c: nat | c < |plan.chunks| :: Has(plan, store, c)
    ensures HasRange(plan, store, 0, |plan.chunks|)
  {
  }

  /** An assumption on the server, which the repository's own does not meet (see `NfcPhase`). */
  ghost predicate ClosesOnceStored(plans: seq<Plan>, store: Store, answer: PhaseAnswer) {
    AllStored(plans, store) ==> answer == PhaseOk
  }

  /**
  With a server that forgets nothing, names all gaps and closes the phase once there are none, the
  loop would never need a second resend: either the first one is broken off, or the next answer
  closes the phase with every artifact stored.
  */
  lemma OneResendCompletes(plans: seq<Plan>, window: nat, rounds: seq<Round>, stores: seq<Store>)
    requires DistinctKinds(plans) && |rounds| >= 2 && |stores| == |rounds[0].turns| + 1
    requires rounds[0].answer.Failure? && rounds[0].answer.error.ServerError? && rounds[0].answer.missingNfc.Some?
    requires NeverForgets(stores) && forall p <- plans :: p.chunks != []
    requires forall j <- NfcJobs(rounds[0].answer.missingNfc.value, plans) ::
               Honest(j.plan, rounds[0].turns, stores, j.start)
    requires NamesAllGaps(rounds[0].answer.missingNfc.value, plans, stores[0])
    requires var used := RunJobs(NfcJobs(rounds[0].answer.missingNfc.value, plans), window, rounds[0].turns).used;
             ClosesOnceStored(plans, stores[used], rounds[1].answer)
    ensures var r := RunJobs(NfcJobs(rounds[0].answer.missingNfc.value, plans), window, rounds[0].turns);
            if r.outcome == Delivered
            then RunPhase(Nfc(plans), window, rounds) == Completed && AllStored(plans, stores[r.used])
            else RunPhase(Nfc(plans), window, rounds) == UploadEnded(r.outcome)
  {
    hide RunPhase, RunJobs, NfcJobs, AllStored, NamesAllGaps, Honest, NeverForgets, DistinctKinds;
    assert rounds[0..] == rounds;
    NextRound(Nfc(plans), window, rounds, 0);
    NextRound(Nfc(plans), window, rounds, 1);
    ResendFillsAllGaps(rounds[0].answer.missingNfc.value, plans, window, rounds[0].turns, stores);
  }

  /** The same for the video: its whole, or all its missing chunks, asked for. */
  lemma LivenessResendFillsAllGaps(
    missing: seq<MissingChunks>, plan: Plan, window: nat, turns: seq<Turn>, stores: seq<Store>)
    requires plan.chunks != [] && |stores| == |turns| + 1 && NeverForgets(stores)
    requires forall j <- LivenessJobs(missing, plan) :: Honest(j.plan, turns, stores, j.start)
    requires missing == [] || forall c: nat | c < |plan.chunks| && !Has(plan, stores[0], c) ::
               exists m <- missing :: m.kind == LIVENESS_KIND && c in m.chunkIndices
    ensures var r := RunJobs(LivenessJobs(missing, plan), window, turns);
            r.outcome == Delivered ==> HasRange(plan, stores[r.used], 0, |plan.chunks|)
  {
    hide RunJobs, LivenessJobs, Has, HasRange, Honest, NeverForgets;
    var r := RunJobs(LivenessJobs(missing, plan), window, turns);
    if r.outcome == Delivered && missing != [] {
      LivenessResendDelivers(missing, plan, window, turns, stores);
      forall c: nat | c < |plan.chunks| ensures Has(plan, stores[r.used], c) {
        if Has(plan, stores[0], c) {
          OneHas(plan, stores[0], c);
          StaysStored(plan, stores, r.used, c, c + 1);
          RangeHas(plan, stores[r.used], c, c + 1, c);
        } else {
          RangeHas(plan, stores[r.used], c, |plan.chunks|, c);
        }
      }
      AllHas(plan, stores[r.used]);
    } else {
      LivenessResendDelivers(missing, plan, window, turns, stores);
    }
  }
}
