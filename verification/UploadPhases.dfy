/**
The completion loops of `UploadCompletion` against the server of `TransferServer`: each round the
server answers with what `TransferStatus` finds missing, and takes in what the client then resends.
Once nothing is missing it gives its verdict, which is a parameter.
*/
module UploadPhases {
  import opened Wrappers
  import opened ChunkedUpload
  import opened TransferServer
  import opened TransferStatus
  import opened UploadResend
  import opened UploadCompletion
  import opened UploadWindows
  import opened UploadEndToEnd
  import opened UploadLedger

  // ---- The rounds that are played ----

  // In which order the server walks its map of entries, in every state.
  type Walk = Transfer -> seq<Key>

  ghost predicate WalksAll(order: Walk) {
    forall t: Transfer :: WalksEntries(order(t), t)
  }

  /** An answer without a list of what is missing: the phase is closed, or refused for another reason. */
  predicate IsVerdict(answer: PhaseAnswer) {
    answer.Failure? ==> answer.missingNfc.None? && answer.missingLiveness.None?
  }

  /** How the phase ends with it. */
  function Closing(phase: Phase, verdict: PhaseAnswer): (outcome: PhaseOutcome)
    requires IsVerdict(verdict)
    ensures !outcome.UploadEnded?
    ensures ReplyTo(phase, verdict) == Return(outcome)
  {
    ReplyTo(phase, verdict).outcome
  }

  function ServerAnswer(phase: Phase, t: Transfer, order: seq<Key>, verdict: PhaseAnswer): PhaseAnswer
    requires forall key <- order :: key in t.chunks
  {
    match MissingDataMessage(t, order, phase.Liveness?)
    case None => verdict
    case Some(NfcMissing(list)) => Failure(ServerError("NFC_REQUIRED_DATA_MISSING", None), Some(list), None)
    case Some(LivenessMissing(chunks)) =>
      Failure(ServerError("LIVENESS_REQUIRED_DATA_MISSING", None), None, Some(chunks))
  }

  /** The turns of a list of resends with this server. */
  function PlayJobs(jobs: seq<Job>, window: nat, t: Transfer, fuel: nat): (seq<Turn>, Transfer) {
    if jobs == [] || jobs[0].plan.chunks == [] then ([], t)
    else
      var start := ClampStart(jobs[0].plan, jobs[0].start);
      var (turns, t') := Play(jobs[0].plan, start, window, t, fuel);
      if Run(jobs[0].plan, start, window, turns).outcome != Delivered then (turns, t')
      else
        var (rest, t'') := PlayJobs(jobs[1..], window, t', fuel);
        (turns + rest, t'')
  }

  /** The rounds of a phase with this server, at most `rounds` of them, and its state after them. */
  ghost function PlayPhase(
    phase: Phase, window: nat, t: Transfer, order: Walk, verdict: PhaseAnswer, fuel: nat, rounds: nat)
    : (seq<Round>, Transfer)
    requires WalksAll(order)
    decreases rounds
  {
    if rounds == 0 then ([], t)
    else
      var answer := ServerAnswer(phase, t, order(t), verdict);
      var reply := ReplyTo(phase, answer);
      if reply.Return? then ([Round(answer, [])], t)
      else
        var (turns, t') := PlayJobs(reply.jobs, window, t, fuel);
        if RunJobs(reply.jobs, window, turns).outcome != Delivered then ([Round(answer, turns)], t')
        else
          var (later, t'') := PlayPhase(phase, window, t', order, verdict, fuel, rounds - 1);
          ([Round(answer, turns)] + later, t'')
  }

  lemma {:induction false} RunPrefix(plan: Plan, next: nat, window: nat, turns: seq<Turn>, more: seq<Turn>)
    requires Run(plan, next, window, turns).outcome != Interrupted
    ensures Run(plan, next, window, turns + more) == Run(plan, next, window, turns)
    decreases |turns|
  {
    hide JudgeTurn;
    if next < |plan.chunks| {
      assert turns != [];
      var all := turns + more;
      assert all[0] == turns[0] && all[1..] == turns[1..] + more;
      if !turns[0].cancelled {
        var end := WindowEnd(plan, next, window);
        match JudgeTurn(plan, next, end, turns[0].result)
        case Advance => RunPrefix(plan, end, window, turns[1..], more);
        case RetryAt(c) => RunPrefix(plan, c, 1, turns[1..], more);
        case Fail(_) =>
      }
    }
  }

  lemma {:induction false} PlayedAll(plan: Plan, next: nat, window: nat, t: Transfer, fuel: nat)
    requires Run(plan, next, window, Play(plan, next, window, t, fuel).0).outcome != Interrupted
    ensures Run(plan, next, window, Play(plan, next, window, t, fuel).0).used == |Play(plan, next, window, t, fuel).0|
    decreases fuel
  {
    hide JudgeTurn, Exchange;
    if next < |plan.chunks| && fuel > 0 {
      var end := WindowEnd(plan, next, window);
      var (responses, t') := Exchange(plan, next, end, t);
      var turns := Play(plan, next, window, t, fuel).0;
      assert turns[0] == Turn(false, Responses(responses));
      match JudgeTurn(plan, next, end, Responses(responses))
      case Advance =>
        assert turns[1..] == Play(plan, end, window, t', fuel - 1).0;
        PlayedAll(plan, end, window, t', fuel - 1);
      case RetryAt(c) =>
        assert turns[1..] == Play(plan, c, 1, t', fuel - 1).0;
        PlayedAll(plan, c, 1, t', fuel - 1);
      case Fail(_) =>
    }
  }

  /** The client's run of the played turns is the session with the server. */
  lemma {:induction false} JobsPlayed(jobs: seq<Job>, window: nat, t: Transfer, fuel: nat)
    ensures var (turns, t') := PlayJobs(jobs, window, t, fuel);
            (RunJobs(jobs, window, turns).outcome, t') == JobsSession(jobs, window, t, fuel)
  {
    hide Run, Play;
    if jobs != [] && jobs[0].plan.chunks != [] {
      var plan, start := jobs[0].plan, ClampStart(jobs[0].plan, jobs[0].start);
      var (turns, t') := Play(plan, start, window, t, fuel);
      if Run(plan, start, window, turns).outcome == Delivered {
        var rest := PlayJobs(jobs[1..], window, t', fuel).0;
        PlayedAll(plan, start, window, t, fuel);
        RunPrefix(plan, start, window, turns, rest);
        assert (turns + rest)[|turns|..] == rest;
        JobsPlayed(jobs[1..], window, t', fuel);
      }
    }
  }

  /** How a phase ends with this server, in how many rounds, and with which server state. */
  ghost function PhaseSession(
    phase: Phase, window: nat, t: Transfer, order: Walk, verdict: PhaseAnswer, fuel: nat, rounds: nat)
    : (PhaseOutcome, nat, Transfer)
    requires WalksAll(order)
  {
    var (played, t') := PlayPhase(phase, window, t, order, verdict, fuel, rounds);
    (RunPhase(phase, window, played), |played|, t')
  }

  /** One round. */
  lemma PhaseStep(phase: Phase, window: nat, t: Transfer, order: Walk, verdict: PhaseAnswer, fuel: nat, rounds: nat)
    requires WalksAll(order) && rounds > 0
    ensures var reply := ReplyTo(phase, ServerAnswer(phase, t, order(t), verdict));
            PhaseSession(phase, window, t, order, verdict, fuel, rounds)
            == if reply.Return? then (reply.outcome, 1, t)
               else
                 var (outcome, t') := JobsSession(reply.jobs, window, t, fuel);
                 if outcome != Delivered then (UploadEnded(outcome), 1, t')
                 else
                   var (later, count, t'') := PhaseSession(phase, window, t', order, verdict, fuel, rounds - 1);
                   (later, count + 1, t'')
  {
    hide ReplyTo, ServerAnswer, RunJobs, JobsSession, PlayJobs;
    var answer := ServerAnswer(phase, t, order(t), verdict);
    var reply := ReplyTo(phase, answer);
    var played := PlayPhase(phase, window, t, order, verdict, fuel, rounds).0;
    assert played[0].answer == answer;
    if reply.Resend? {
      JobsPlayed(reply.jobs, window, t, fuel);
      var (turns, t') := PlayJobs(reply.jobs, window, t, fuel);
      assert played[0] == Round(answer, turns);
      if RunJobs(reply.jobs, window, turns).outcome == Delivered {
        assert played[1..] == PlayPhase(phase, window, t', order, verdict, fuel, rounds - 1).0;
      }
    }
  }
}
