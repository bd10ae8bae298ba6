/**
The client's windowed upload of one artifact: `VerificationSession+UploadChunks.swift`, with the
acknowledgement and retry rules of `VerifyWebSocketAuthPolicy.swift`.

What the network does is a finite script of turns, one for each window the client sends.  A run
that outlives its script is `Interrupted`, so every finite prefix of every run is covered.
*/
module ChunkedUpload {
  import opened Wrappers
  import Decimal

  // The kind of data of the liveness video.
  const LIVENESS_KIND: nat := 8

  datatype Plan = Plan(kind: nat, index: nat, total: nat, chunks: seq<Bytes>)

  datatype Request = Request(kind: nat, index: nat, total: nat, raw: Bytes, chunkIndex: nat, chunkTotal: nat)

  function RequestFor(plan: Plan, chunkIndex: nat): Request
    requires chunkIndex < |plan.chunks|
  {
    Request(plan.kind, plan.index, plan.total, plan.chunks[chunkIndex], chunkIndex, |plan.chunks|)
  }

  // The JSON body of an error message, when it has the three integers of a chunk retry.
  datatype RetryBody = RetryBody(kind: int, index: int, chunkIndex: int)

  datatype Response =
    Response(errorCode: Option<string>, errorBody: Option<RetryBody>, ackMessage: Option<string>)

  datatype SocketError =
    | ServerError(code: string, body: Option<RetryBody>)
    | UnexpectedServerResponse
    | ConnectionError

  datatype WindowResult = Responses(responses: seq<Response>) | Failed(error: SocketError)

  // One pass of the upload loop: whether `shouldCancel` holds, and what the window send yields.
  datatype Turn = Turn(cancelled: bool, result: WindowResult)

  datatype Outcome = Delivered | EmptyPlan | Cancelled | Stopped(error: SocketError) | Interrupted

  function ChunkAck(kind: nat, index: nat, chunkIndex: nat): string {
    "data_chunk_ok_" + Decimal.Text(kind) + "_" + Decimal.Text(index) + "_" + Decimal.Text(chunkIndex)
  }

  function FinalAck(kind: nat, index: nat): string {
    "data_ok_" + Decimal.Text(kind) + "_" + Decimal.Text(index)
  }

  predicate IsExpectedAck(ack: Option<string>, plan: Plan, chunkIndex: nat) {
    match ack
    case None => false
    case Some(text) =>
      if |plan.chunks| <= 1 then text == FinalAck(plan.kind, plan.index)
      else
        || text == ChunkAck(plan.kind, plan.index, chunkIndex)
        || (chunkIndex == |plan.chunks| - 1 && text == FinalAck(plan.kind, plan.index))
  }

  /** The chunk a server error asks to resend, when it is a retry instruction for this plan. */
  function RetryIndex(code: string, body: Option<RetryBody>, plan: Plan): (r: Option<nat>)
    ensures r.Some? ==> r.value < |plan.chunks|
    ensures r.Some? <==> code == "DATA_CHUNK_RETRY" && body.Some? && 0 <= body.value.chunkIndex < |plan.chunks|
                         && body.value.kind == plan.kind && body.value.index == plan.index
    ensures r.Some? ==> r.value == body.value.chunkIndex
  {
    if && code == "DATA_CHUNK_RETRY" && body.Some?
       && body.value.kind == plan.kind && body.value.index == plan.index
       && 0 <= body.value.chunkIndex < |plan.chunks|
    then Some(body.value.chunkIndex)
    else None
  }

  /** `raw` cut into pieces of `chunkSize`, the last one possibly shorter; never no piece at all. */
  method ChunkData(raw: Bytes, chunkSize: int) returns (chunks: seq<Bytes>)
    requires chunkSize > 0 || |raw| <= chunkSize
    ensures Concat(chunks) == raw && |chunks| >= 1
    ensures forall i | 0 <= i < |chunks| - 1 :: |chunks[i]| == chunkSize
    ensures |chunks[|chunks| - 1]| <= chunkSize
    ensures raw != [] ==> chunks[|chunks| - 1] != []
  {
    if |raw| <= chunkSize {
      return [raw];
    }
    chunks := [];
    var offset := 0;
    while offset < |raw|
      invariant 0 <= offset <= |raw|
      invariant Concat(chunks) == raw[..offset]
      invariant offset > 0 ==> |chunks| > 0 && 0 < |chunks[|chunks| - 1]| <= chunkSize
      invariant forall i | 0 <= i < |chunks| - 1 :: |chunks[i]| == chunkSize
      invariant offset < |raw| && |chunks| > 0 ==> |chunks[|chunks| - 1]| == chunkSize
    {
      var end := if offset + chunkSize < |raw| then offset + chunkSize else |raw|;
      ConcatAppend(chunks, raw[offset..end]);
      chunks := chunks + [raw[offset..end]];
      offset := end;
    }
  }

  // ---- Specification of the loop ----

  datatype Verdict = Advance | RetryAt(chunkIndex: nat) | Fail(error: SocketError)

  /** The first requested chunk in `[next, end)` whose acknowledgement `ack` could be. */
  function FirstMatch(plan: Plan, ack: Option<string>, next: nat, end: nat): (r: Option<nat>)
    ensures r.Some? ==> next <= r.value < end && IsExpectedAck(ack, plan, r.value)
    ensures r.None? ==> forall c: nat | next <= c < end :: !IsExpectedAck(ack, plan, c)
    decreases end - next
  {
    if next >= end then None
    else if IsExpectedAck(ack, plan, next) then Some(next)
    else FirstMatch(plan, ack, next + 1, end)
  }

  /** What the client makes of the responses to the window `[next, end)`. */
  function Judge(plan: Plan, next: nat, end: nat, responses: seq<Response>, acked: set<nat>): (v: Verdict)
    ensures v.RetryAt? ==> v.chunkIndex < |plan.chunks|
  {
    if responses == [] then
      (if |acked| == end - next then Advance else Fail(UnexpectedServerResponse))
    else
      var r := responses[0];
      if r.errorCode.Some? then JudgeError(plan, ServerError(r.errorCode.value, r.errorBody))
      else
        match FirstMatch(plan, r.ackMessage, next, end)
        case None => Fail(UnexpectedServerResponse)
        case Some(c) => Judge(plan, next, end, responses[1..], acked + {c})
  }

  function JudgeError(plan: Plan, error: SocketError): (v: Verdict)
    ensures v.RetryAt? ==> v.chunkIndex < |plan.chunks|
  {
    if error.ServerError? && RetryIndex(error.code, error.body, plan).Some?
    then RetryAt(RetryIndex(error.code, error.body, plan).value)
    else Fail(error)
  }

  function JudgeTurn(plan: Plan, next: nat, end: nat, result: WindowResult): (v: Verdict)
    ensures v.RetryAt? ==> v.chunkIndex < |plan.chunks|
  {
    match result
    case Responses(responses) => Judge(plan, next, end, responses, {})
    case Failed(error) => JudgeError(plan, error)
  }

  /** The response acknowledges a chunk of the window. */
  ghost predicate Acknowledges(plan: Plan, next: nat, end: nat, r: Response) {
    r.errorCode.None? && exists c: nat :: next <= c < end && IsExpectedAck(r.ackMessage, plan, c)
  }

  /** The first response that does not decides: a retry of this plan, its error, or the lack of one. */
  lemma {:induction false} JudgeStops(
    plan: Plan, next: nat, end: nat, responses: seq<Response>, acked: set<nat>, i: nat)
    requires i < |responses| && forall j | 0 <= j < i :: Acknowledges(plan, next, end, responses[j])
    requires !Acknowledges(plan, next, end, responses[i])
    ensures var r := responses[i];
            Judge(plan, next, end, responses, acked)
            == if r.errorCode.None? then Fail(UnexpectedServerResponse)
               else if RetryIndex(r.errorCode.value, r.errorBody, plan).Some?
               then RetryAt(RetryIndex(r.errorCode.value, r.errorBody, plan).value)
               else Fail(ServerError(r.errorCode.value, r.errorBody))
    decreases i
  {
    hide RetryIndex, IsExpectedAck;
    if i > 0 {
      var c := FirstMatch(plan, responses[0].ackMessage, next, end);
      assert Acknowledges(plan, next, end, responses[0]);
      JudgeStops(plan, next, end, responses[1..], acked + {c.value}, i - 1);
    }
  }

  /** The chunks that the responses are taken to acknowledge. */
  ghost function AckedBy(plan: Plan, next: nat, end: nat, responses: seq<Response>): set<nat> {
    set c: nat | next <= c < end && exists i ::
      0 <= i < |responses| && FirstMatch(plan, responses[i].ackMessage, next, end) == Some(c)
  }

  /** If all do, the window is done exactly when they are as many chunks as were sent. */
  lemma {:induction false} JudgeCounts(plan: Plan, next: nat, end: nat, responses: seq<Response>, acked: set<nat>)
    requires forall j | 0 <= j < |responses| :: Acknowledges(plan, next, end, responses[j])
    ensures Judge(plan, next, end, responses, acked)
         == if |acked + AckedBy(plan, next, end, responses)| == end - next then Advance
            else Fail(UnexpectedServerResponse)
    decreases |responses|
  {
    hide IsExpectedAck, FirstMatch;
    if responses == [] {
      assert acked + AckedBy(plan, next, end, responses) == acked;
    } else {
      var first, rest := FirstMatch(plan, responses[0].ackMessage, next, end), responses[1..];
      assert Acknowledges(plan, next, end, responses[0]);
      JudgeCounts(plan, next, end, rest, acked + {first.value});
      forall c | c in AckedBy(plan, next, end, responses)
        ensures c == first.value || c in AckedBy(plan, next, end, rest)
      {
        var i :| 0 <= i < |responses| && FirstMatch(plan, responses[i].ackMessage, next, end) == Some(c);
        assert i > 0 ==> rest[i - 1] == responses[i];
      }
      forall c | c in AckedBy(plan, next, end, rest) ensures c in AckedBy(plan, next, end, responses) {
        var i :| 0 <= i < |rest| && FirstMatch(plan, rest[i].ackMessage, next, end) == Some(c);
        assert responses[i + 1] == rest[i];
      }
      assert acked + {first.value} + AckedBy(plan, next, end, rest) == acked + AckedBy(plan, next, end, responses);
    }
  }

  function WindowEnd(plan: Plan, next: nat, window: nat): nat {
    if next + window < |plan.chunks| then next + window else |plan.chunks|
  }

  datatype RunResult = RunResult(outcome: Outcome, used: nat)

  /** The upload from chunk `next` with windows of `window` against the scripted turns. */
  function Run(plan: Plan, next: nat, window: nat, turns: seq<Turn>): (r: RunResult)
    ensures r.used <= |turns|
    decreases |turns|
  {
    if next >= |plan.chunks| then RunResult(Delivered, 0)
    else if turns == [] then RunResult(Interrupted, 0)
    else if turns[0].cancelled then RunResult(Cancelled, 1)
    else
      var end := WindowEnd(plan, next, window);
      match JudgeTurn(plan, next, end, turns[0].result)
      case Advance => Later(Run(plan, end, window, turns[1..]))
      case RetryAt(c) => Later(Run(plan, c, 1, turns[1..]))
      case Fail(error) => RunResult(Stopped(error), 1)
  }

  function Later(r: RunResult): RunResult {
    RunResult(r.outcome, r.used + 1)
  }

  function ClampStart(plan: Plan, start: int): (next: int)
    ensures |plan.chunks| > 0 ==> 0 <= next < |plan.chunks|
    ensures 0 <= start < |plan.chunks| ==> next == start
  {
    var upper := if start < |plan.chunks| - 1 then start else |plan.chunks| - 1;
    if upper > 0 then upper else 0
  }

  /** The whole call, with the guard on the empty plan and the clamped start index. */
  function Upload(plan: Plan, start: int, window: nat, turns: seq<Turn>): (r: RunResult)
    ensures r.used <= |turns|
  {
    if plan.chunks == [] then RunResult(EmptyPlan, 0)
    else Run(plan, ClampStart(plan, start), window, turns)
  }

  // ---- The loop itself ----

  method JudgeResponses(plan: Plan, next: nat, end: nat, responses: seq<Response>) returns (verdict: Verdict)
    ensures verdict == JudgeTurn(plan, next, end, Responses(responses))
  {
    var acked: set<nat> := {};
    for i := 0 to |responses|
      invariant Judge(plan, next, end, responses, {}) == Judge(plan, next, end, responses[i..], acked)
    {
      var response := responses[i];
      assert responses[i..][0] == response && responses[i..][1..] == responses[i + 1..];
      if response.errorCode.Some? {
        var retry := RetryIndex(response.errorCode.value, response.errorBody, plan);
        if retry.None? {
          return Fail(ServerError(response.errorCode.value, response.errorBody));
        }
        return RetryAt(retry.value);
      }
      var c := next;
      while c < end && !IsExpectedAck(response.ackMessage, plan, c)
        invariant next <= c
        invariant FirstMatch(plan, response.ackMessage, next, end) == FirstMatch(plan, response.ackMessage, c, end)
      {
        c := c + 1;
      }
      if c >= end {
        return Fail(UnexpectedServerResponse);
      }
      acked := acked + {c};
    }
    verdict := if |acked| == end - next then Advance else Fail(UnexpectedServerResponse);
  }

  // ---- What is sent ----

  // The chunks of one window, from the first up to but not including the last.
  datatype Window = Window(from: nat, to: nat)

  ghost function VerdictOf(plan: Plan, turns: seq<Turn>, sent: seq<Window>, i: nat): Verdict
    requires i < |sent| <= |turns|
  {
    JudgeTurn(plan, sent[i].from, sent[i].to, turns[i].result)
  }

  ghost predicate RetriedBefore(plan: Plan, turns: seq<Turn>, sent: seq<Window>, i: nat)
    requires i <= |sent| <= |turns|
  {
    exists j | 0 <= j < i :: VerdictOf(plan, turns, sent, j).RetryAt?
  }

  /** Where the window after the first `i` begins. */
  ghost predicate BeginsAt(plan: Plan, start: int, turns: seq<Turn>, sent: seq<Window>, i: nat, from: nat)
    requires i <= |sent| <= |turns| && plan.chunks != []
  {
    if i == 0 then from == if start < 0 then 0 else if start >= |plan.chunks| then |plan.chunks| - 1 else start
    else
      match VerdictOf(plan, turns, sent, i - 1)
      case Advance => from == sent[i - 1].to
      case RetryAt(c) => from == c
      case Fail(_) => false
  }

  /**
  Window `i` begins where the answers to the one before lead, and has the given size, or a single chunk
  once there was a retry.
  */
  ghost predicate IsWindow(plan: Plan, start: int, window: nat, turns: seq<Turn>, sent: seq<Window>, i: nat)
    requires plan.chunks != [] && i < |sent| <= |turns|
  {
    && !turns[i].cancelled && sent[i].from < |plan.chunks|
    && BeginsAt(plan, start, turns, sent, i, sent[i].from)
    && var size := if RetriedBefore(plan, turns, sent, i) then 1 else window;
       sent[i].to == if sent[i].from + size < |plan.chunks| then sent[i].from + size else |plan.chunks|
  }

  /** The windows of a call, one for each turn that is not cancelled. */
  ghost predicate AreWindows(plan: Plan, start: int, window: nat, turns: seq<Turn>, sent: seq<Window>)
    requires plan.chunks != []
  {
    && |sent| <= |turns|
    && forall i | 0 <= i < |sent| :: IsWindow(plan, start, window, turns, sent, i)
  }

  /** The windows so far are those of the call, and the next one may begin. */
  ghost predicate SentSoFar(
    plan: Plan, start: int, window: nat, turns: seq<Turn>, sent: seq<Window>, from: nat, size: nat)
    requires plan.chunks != []
  {
    && AreWindows(plan, start, window, turns, sent)
    && BeginsAt(plan, start, turns, sent, |sent|, from)
    && size == if RetriedBefore(plan, turns, sent, |sent|) then 1 else window
  }

  lemma NothingSent(plan: Plan, start: int, window: nat, turns: seq<Turn>)
    requires plan.chunks != []
    ensures SentSoFar(plan, start, window, turns, [], ClampStart(plan, start), window)
  {
  }

  /** What is sent later does not change what came before. */
  lemma EarlierSame(
    plan: Plan, start: int, turns: seq<Turn>, sent: seq<Window>, last: Window, i: nat, from: nat)
    requires i <= |sent| < |turns| && plan.chunks != []
    ensures RetriedBefore(plan, turns, sent + [last], i) == RetriedBefore(plan, turns, sent, i)
    ensures BeginsAt(plan, start, turns, sent + [last], i, from) == BeginsAt(plan, start, turns, sent, i, from)
  {
    hide JudgeTurn;
    var all := sent + [last];
    assert forall j | 0 <= j < i :: all[j] == sent[j];
    assert forall j | 0 <= j < i :: VerdictOf(plan, turns, all, j) == VerdictOf(plan, turns, sent, j);
  }

  lemma RetriedNext(plan: Plan, turns: seq<Turn>, sent: seq<Window>, n: nat)
    requires n < |sent| <= |turns|
    ensures RetriedBefore(plan, turns, sent, n + 1)
       <==> RetriedBefore(plan, turns, sent, n) || VerdictOf(plan, turns, sent, n).RetryAt?
  {
    hide VerdictOf;
  }

  lemma WindowsGrow(
    plan: Plan, start: int, window: nat, turns: seq<Turn>, sent: seq<Window>, from: nat, size: nat)
    requires plan.chunks != [] && SentSoFar(plan, start, window, turns, sent, from, size)
    requires |sent| < |turns| && !turns[|sent|].cancelled && from < |plan.chunks|
    ensures AreWindows(plan, start, window, turns, sent + [Window(from, WindowEnd(plan, from, size))])
  {
    hide VerdictOf, RetriedBefore, BeginsAt;
    var last := Window(from, WindowEnd(plan, from, size));
    var all := sent + [last];
    forall i: nat | i < |all| ensures IsWindow(plan, start, window, turns, all, i) {
      EarlierSame(plan, start, turns, sent, last, i, all[i].from);
      if i < |sent| {
        assert all[i] == sent[i] && IsWindow(plan, start, window, turns, sent, i);
      }
    }
  }

  lemma OneMoreSent(
    plan: Plan, start: int, window: nat, turns: seq<Turn>, sent: seq<Window>, from: nat, size: nat)
    requires plan.chunks != [] && SentSoFar(plan, start, window, turns, sent, from, size)
    requires |sent| < |turns| && !turns[|sent|].cancelled && from < |plan.chunks|
    ensures var end := WindowEnd(plan, from, size);
            var all := sent + [Window(from, end)];
            && AreWindows(plan, start, window, turns, all)
            && match JudgeTurn(plan, from, end, turns[|sent|].result)
               case Advance => SentSoFar(plan, start, window, turns, all, end, size)
               case RetryAt(c) => SentSoFar(plan, start, window, turns, all, c, 1)
               case Fail(_) => true
  {
    hide JudgeTurn, AreWindows, RetriedBefore;
    var last := Window(from, WindowEnd(plan, from, size));
    WindowsGrow(plan, start, window, turns, sent, from, size);
    EarlierSame(plan, start, turns, sent, last, |sent|, from);
    RetriedNext(plan, turns, sent + [last], |sent|);
  }

  method UploadDataPlan(plan: Plan, startChunkIndex: int, uploadWindowSize: nat, turns: seq<Turn>)
    returns (outcome: Outcome, used: nat, sent: seq<Window>)
    ensures RunResult(outcome, used) == Upload(plan, startChunkIndex, uploadWindowSize, turns)
    ensures outcome == EmptyPlan <==> plan.chunks == []
    ensures plan.chunks == [] ==> sent == []
    ensures plan.chunks != [] ==> AreWindows(plan, startChunkIndex, uploadWindowSize, turns, sent)
    ensures plan.chunks != [] ==>
              match outcome
              case Delivered =>
                used == |sent| > 0 && VerdictOf(plan, turns, sent, used - 1) == Advance
                && sent[used - 1].to == |plan.chunks|
              case Stopped(error) =>
                used == |sent| > 0 && VerdictOf(plan, turns, sent, used - 1) == Fail(error)
              case Cancelled => used == |sent| + 1 <= |turns| && turns[|sent|].cancelled
              case Interrupted => used == |sent| == |turns|
              case EmptyPlan => false
  {
    hide JudgeTurn, AreWindows, SentSoFar;
    sent := [];
    if plan.chunks == [] {
      return EmptyPlan, 0, [];
    }
    var nextChunkIndex: nat := ClampStart(plan, startChunkIndex);
    var activeWindowSize := uploadWindowSize;
    used := 0;
    ghost var whole := Run(plan, nextChunkIndex, uploadWindowSize, turns);
    NothingSent(plan, startChunkIndex, uploadWindowSize, turns);
    SoFarAreWindows(plan, startChunkIndex, uploadWindowSize, turns, sent, nextChunkIndex, activeWindowSize);
    while nextChunkIndex < |plan.chunks|
      invariant used == |sent| <= |turns|
      invariant SentSoFar(plan, startChunkIndex, uploadWindowSize, turns, sent, nextChunkIndex, activeWindowSize)
      invariant AreWindows(plan, startChunkIndex, uploadWindowSize, turns, sent)
      invariant nextChunkIndex >= |plan.chunks| ==>
                  used > 0 && VerdictOf(plan, turns, sent, used - 1) == Advance && sent[used - 1].to == |plan.chunks|
      invariant whole == var rest := Run(plan, nextChunkIndex, activeWindowSize, turns[used..]);
                         RunResult(rest.outcome, used + rest.used)
      decreases |turns| - used
    {
      if used == |turns| {
        return Interrupted, used, sent;
      }
      var turn := turns[used];
      assert turns[used..][0] == turn && turns[used..][1..] == turns[used + 1..];
      if turn.cancelled {
        return Cancelled, used + 1, sent;
      }
      var windowEndIndex := WindowEnd(plan, nextChunkIndex, activeWindowSize);
      OneMoreSent(plan, startChunkIndex, uploadWindowSize, turns, sent, nextChunkIndex, activeWindowSize);
      sent := sent + [Window(nextChunkIndex, windowEndIndex)];
      used := used + 1;
      var verdict;
      if turn.result.Responses? {
        verdict := JudgeResponses(plan, nextChunkIndex, windowEndIndex, turn.result.responses);
      } else {
        FailedVerdict(plan, nextChunkIndex, windowEndIndex, turn.result.error);
        verdict := JudgeError(plan, turn.result.error);
      }
      match verdict
      case Advance =>
        nextChunkIndex := windowEndIndex;
      case RetryAt(c) =>
        nextChunkIndex := c;
        activeWindowSize := 1;
      case Fail(error) =>
        return Stopped(error), used, sent;
    }
    outcome := Delivered;
  }

  lemma FailedVerdict(plan: Plan, next: nat, end: nat, error: SocketError)
    ensures JudgeTurn(plan, next, end, Failed(error)) == JudgeError(plan, error)
  {
  }

  lemma SoFarAreWindows(
    plan: Plan, start: int, window: nat, turns: seq<Turn>, sent: seq<Window>, from: nat, size: nat)
    requires plan.chunks != [] && SentSoFar(plan, start, window, turns, sent, from, size)
    ensures AreWindows(plan, start, window, turns, sent)
  {
  }
}
