/**
One window of the client's upload loop against the server's transfer state: what the server answers
and takes in, and what the client makes of it.
*/
module UploadWindows {
  import opened Wrappers
  import Decimal
  import opened ChunkedUpload
  import opened TransferServer

  // ---- The two sides together ----

  /** The server's answers to the requests of the window `[next, end)`, sent in order. */
  function Exchange(plan: Plan, next: nat, end: nat, t: Transfer): (r: (seq<Response>, Transfer))
    requires next <= end <= |plan.chunks|
    ensures |r.0| == end - next
    decreases end - next
  {
    if next == end then ([], t)
    else
      var (response, t') := Process(t, RequestFor(plan, next));
      var (rest, t'') := Exchange(plan, next + 1, end, t');
      ([response] + rest, t'')
  }

  // ---- What the server holds of a plan ----

  function KeyOf(plan: Plan): Key {
    (plan.kind, plan.index)
  }

  function Parts(t: Transfer, plan: Plan): map<nat, Bytes> {
    if KeyOf(plan) in t.chunks then t.chunks[KeyOf(plan)].parts else map[]
  }

  function Held(t: Transfer, plan: Plan): set<nat> {
    Parts(t, plan).Keys
  }

  predicate Full(plan: Plan, held: set<nat>) {
    forall c: nat | c < |plan.chunks| :: c in held
  }

  /** The key's entry, if any, expects as many chunks as the plan has and lacks one. */
  ghost predicate Compatible(t: Transfer, plan: Plan) {
    && !Full(plan, Held(t, plan))
    && (KeyOf(plan) in t.chunks ==> t.chunks[KeyOf(plan)].chunkTotal == |plan.chunks|)
  }

  /** The bytes it holds are the plan's own. */
  ghost predicate Consistent(t: Transfer, plan: Plan) {
    Compatible(t, plan) && forall c <- Parts(t, plan) | c < |plan.chunks| :: Parts(t, plan)[c] == plan.chunks[c]
  }

  /** A plan of a shape the server takes in: known kind, one artifact, chunks within the limits. */
  ghost predicate Shaped(plan: Plan) {
    && plan.kind <= LIVENESS_KIND && plan.kind != LEGACY_SELFIE_KIND
    && plan.index == 0 && plan.total == 1
    && 1 <= |plan.chunks| <= MAX_CHUNKS_PER_KEY
    && (forall c <- plan.chunks :: |c| <= MAX_FRAME_BYTES)
  }

  /** And whose artifact it stores. */
  ghost predicate Acceptable(plan: Plan) {
    Shaped(plan) && StorageError(plan.kind, Concat(plan.chunks)).None?
  }

  /** The bytes received once the chunks from `next` on are taken in, if none of them is there yet. */
  function Load(t: Transfer, plan: Plan, next: nat): nat
    requires next <= |plan.chunks|
  {
    t.bytesReceived + |Concat(plan.chunks[next..])|
  }

  predicate Fits(t: Transfer, chunk: Bytes) {
    t.bytesReceived + |chunk| <= MAX_TOTAL_TRANSFER_BYTES
  }

  /** None of the chunks `[next, end)`, sent in turn, goes over the transfer limit. */
  ghost predicate Room(t: Transfer, plan: Plan, next: nat, end: nat)
    requires end <= |plan.chunks|
    decreases end - next
  {
    next >= end || (Fits(t, plan.chunks[next]) && Room(Process(t, RequestFor(plan, next)).1, plan, next + 1, end))
  }

  /** How a call ends that comes to a chunk over the limit. */
  const TOO_LARGE: Outcome := Stopped(ServerError("TRANSFER_TOO_LARGE", None))

  ghost function Range(lo: nat, hi: nat): (r: set<nat>)
    ensures forall c: nat :: c in r <==> lo <= c < hi
    decreases hi - lo
  {
    if lo >= hi then {} else {lo} + Range(lo + 1, hi)
  }

  /** `parts` with the plan's chunks `[lo, hi)` written over them. */
  ghost function Overlay(plan: Plan, parts: map<nat, Bytes>, lo: nat, hi: nat): map<nat, Bytes>
    requires hi <= |plan.chunks|
  {
    map c: nat | c in parts.Keys + Range(lo, hi) :: if lo <= c < hi then plan.chunks[c] else parts[c]
  }

  /** What only other plans' messages change. */
  ghost predicate SameElsewhere(t: Transfer, t': Transfer, plan: Plan) {
    && (forall key | key != KeyOf(plan) :: key in t'.chunks <==> key in t.chunks)
    && (forall key | key != KeyOf(plan) && key in t.chunks && key in t'.chunks :: t'.chunks[key] == t.chunks[key])
    && (forall kind | kind != plan.kind :: kind in t'.artifacts <==> kind in t.artifacts)
    && (forall kind | kind != plan.kind && kind in t.artifacts && kind in t'.artifacts ::
          t'.artifacts[kind] == t.artifacts[kind])
  }

  lemma SameElsewhereTwice(t: Transfer, t': Transfer, t'': Transfer, plan: Plan)
    requires SameElsewhere(t, t', plan) && SameElsewhere(t', t'', plan)
    ensures SameElsewhere(t, t'', plan)
  {
  }

  // ---- One chunk ----

  lemma Accepted(plan: Plan, c: nat, t: Transfer)
    requires Shaped(plan) && Compatible(t, plan)
    requires c < |plan.chunks|
    ensures Validate(t, RequestFor(plan, c))
         == if Fits(t, plan.chunks[c]) then None else Some(Refuse("TRANSFER_TOO_LARGE"))
  {
    assert plan.chunks[c] in plan.chunks;
  }

  /** The bytes of complete parts, in order. */
  function Whole(n: nat, parts: map<nat, Bytes>): Bytes {
    var entry := Entry(n, parts);
    if AllPresent(entry) then Merged(entry) else []
  }

  lemma TakenIn(plan: Plan, c: nat, t: Transfer)
    requires |plan.chunks| >= 2 && Compatible(t, plan)
    requires c < |plan.chunks|
    ensures var (data, t') := Assemble(t, RequestFor(plan, c));
            var parts := Parts(t, plan)[c := plan.chunks[c]];
            && Load(t', plan, c + 1) <= Load(t, plan, c) && SameElsewhere(t, t', plan)
            && t'.bytesReceived == t.bytesReceived + (if c in Held(t, plan) then 0 else |plan.chunks[c]|)
            && t'.artifacts == t.artifacts
            && if Full(plan, parts.Keys)
               then data == Some(Whole(|plan.chunks|, parts)) && KeyOf(plan) !in t'.chunks
               else data == None && KeyOf(plan) in t'.chunks && Parts(t', plan) == parts && Compatible(t', plan)
  {
    hide Merged;
    var r := RequestFor(plan, c);
    assert plan.chunks[c..] == [plan.chunks[c]] + plan.chunks[c + 1..];
    var entry := EntryFor(t, r);
    entry := entry.(parts := entry.parts[c := r.raw]);
    assert entry == Entry(|plan.chunks|, Parts(t, plan)[c := plan.chunks[c]]);
    assert AllPresent(entry) <==> Full(plan, entry.parts.Keys);
  }

  lemma OneChunk(plan: Plan, c: nat, t: Transfer)
    requires Shaped(plan) && |plan.chunks| >= 2 && Compatible(t, plan)
    requires c < |plan.chunks| && Fits(t, plan.chunks[c])
    ensures var (response, t') := Process(t, RequestFor(plan, c));
            var parts := Parts(t, plan)[c := plan.chunks[c]];
            && Load(t', plan, c + 1) <= Load(t, plan, c) && SameElsewhere(t, t', plan)
            && t'.bytesReceived == t.bytesReceived + (if c in Held(t, plan) then 0 else |plan.chunks[c]|)
            && if Full(plan, parts.Keys)
               then var data := Whole(|plan.chunks|, parts);
                    && response == Completion(plan.kind, plan.index, data)
                    && KeyOf(plan) !in t'.chunks && t'.artifacts == Stored(t.artifacts, plan.kind, data)
               else && response == Acknowledge(ChunkAck(plan.kind, plan.index, c))
                    && KeyOf(plan) in t'.chunks && Parts(t', plan) == parts && Compatible(t', plan)
                    && t'.artifacts == t.artifacts
  {
    hide Validate, Assemble, ChunkAck, FinalAck, Compatible, Full, Whole, Completion, StorageError;
    Accepted(plan, c, t);
    TakenIn(plan, c, t);
  }

  /** There is room if all the chunks would fit, were none of them there yet. */
  lemma {:induction false} LoadLeavesRoom(plan: Plan, next: nat, t: Transfer)
    requires Shaped(plan) && next <= |plan.chunks| && Load(t, plan, next) <= MAX_TOTAL_TRANSFER_BYTES
    ensures Room(t, plan, next, |plan.chunks|)
    decreases |plan.chunks| - next
  {
    if next < |plan.chunks| {
      assert plan.chunks[next..] == [plan.chunks[next]] + plan.chunks[next + 1..];
      BytesTaken(t, RequestFor(plan, next));
      LoadLeavesRoom(plan, next + 1, Process(t, RequestFor(plan, next)).1);
    }
  }

  /** A chunk over the limit is refused, and changes nothing. */
  lemma ChunkRefused(plan: Plan, c: nat, t: Transfer)
    requires Shaped(plan) && Compatible(t, plan) && c < |plan.chunks| && !Fits(t, plan.chunks[c])
    ensures Process(t, RequestFor(plan, c)) == (Refuse("TRANSFER_TOO_LARGE"), t)
  {
    Accepted(plan, c, t);
  }

  lemma BytesTaken(t: Transfer, r: Request)
    ensures Process(t, r).1.bytesReceived <= t.bytesReceived + |r.raw|
  {
  }

  // ---- One window ----

  lemma {:induction false} ExchangeSplit(plan: Plan, next: nat, mid: nat, end: nat, t: Transfer)
    requires next <= mid <= end <= |plan.chunks|
    ensures var (first, t') := Exchange(plan, next, mid, t);
            var (second, t'') := Exchange(plan, mid, end, t');
            Exchange(plan, next, end, t) == (first + second, t'')
    decreases mid - next
  {
    if next == mid {
      assert [] + Exchange(plan, mid, end, t).0 == Exchange(plan, mid, end, t).0;
    } else {
      var (response, t') := Process(t, RequestFor(plan, next));
      ExchangeSplit(plan, next + 1, mid, end, t');
      var (first, u) := Exchange(plan, next + 1, mid, t');
      var second := Exchange(plan, mid, end, u).0;
      assert [response] + (first + second) == ([response] + first) + second;
    }
  }

  lemma {:induction false} RoomSplit(plan: Plan, next: nat, mid: nat, end: nat, t: Transfer)
    requires next <= mid <= end <= |plan.chunks|
    ensures Room(t, plan, next, end)
       <==> Room(t, plan, next, mid) && Room(Exchange(plan, next, mid, t).1, plan, mid, end)
    decreases mid - next
  {
    hide Fits, Process;
    if next < mid {
      RoomSplit(plan, next + 1, mid, end, Process(t, RequestFor(plan, next)).1);
    }
  }

  ghost function ChunkAcks(plan: Plan, lo: nat, hi: nat): (s: seq<Response>)
    requires lo <= hi
    ensures |s| == hi - lo
    decreases hi - lo
  {
    if lo == hi then [] else [Acknowledge(ChunkAck(plan.kind, plan.index, lo))] + ChunkAcks(plan, lo + 1, hi)
  }

  /** A window that leaves a gap is acknowledged chunk by chunk. */
  lemma {:induction false} QuietWindow(plan: Plan, next: nat, end: nat, t: Transfer)
    requires Shaped(plan) && |plan.chunks| >= 2 && Compatible(t, plan)
    requires next <= end <= |plan.chunks| && Room(t, plan, next, end)
    requires !Full(plan, Overlay(plan, Parts(t, plan), next, end).Keys)
    ensures var (responses, t') := Exchange(plan, next, end, t);
            && responses == ChunkAcks(plan, next, end)
            && Parts(t', plan) == Overlay(plan, Parts(t, plan), next, end) && Compatible(t', plan)
            && (next < end || KeyOf(plan) in t.chunks ==> KeyOf(plan) in t'.chunks)
            && Load(t', plan, end) <= Load(t, plan, next) && SameElsewhere(t, t', plan)
            && (Range(next, end) <= Held(t, plan) ==> t'.bytesReceived == t.bytesReceived)
            && t'.artifacts == t.artifacts
    decreases end - next
  {
    hide Overlay, Load, Concat, Shaped, Compatible, ChunkAck, Acknowledge, Completion, Whole, Process;
    hide RequestFor, SameElsewhere;
    if next == end {
      NoExchange(plan, next, t);
    } else {
      OneChunk(plan, next, t);
      var t' := Process(t, RequestFor(plan, next)).1;
      OverlaySteps(plan, Parts(t, plan), next, end);
      QuietWindow(plan, next + 1, end, t');
      SameElsewhereTwice(t, t', Exchange(plan, next + 1, end, t').1, plan);
    }
  }

  lemma NoExchange(plan: Plan, next: nat, t: Transfer)
    requires next <= |plan.chunks|
    ensures Exchange(plan, next, next, t) == ([], t) && ChunkAcks(plan, next, next) == []
    ensures Overlay(plan, Parts(t, plan), next, next) == Parts(t, plan) && SameElsewhere(t, t, plan)
  {
  }

  lemma OverlaySteps(plan: Plan, parts: map<nat, Bytes>, lo: nat, hi: nat)
    requires lo < hi <= |plan.chunks|
    ensures Overlay(plan, parts, lo, hi) == Overlay(plan, parts[lo := plan.chunks[lo]], lo + 1, hi)
    ensures Overlay(plan, parts, lo, hi) == Overlay(plan, parts, lo, hi - 1)[hi - 1 := plan.chunks[hi - 1]]
    ensures forall k | k in parts[lo := plan.chunks[lo]].Keys :: k in Overlay(plan, parts, lo, hi)
  {
    OverlayFirst(plan, parts, lo, hi);
    OverlayLast(plan, parts, lo, hi);
  }

  lemma OverlayFirst(plan: Plan, parts: map<nat, Bytes>, lo: nat, hi: nat)
    requires lo < hi <= |plan.chunks|
    ensures Overlay(plan, parts, lo, hi) == Overlay(plan, parts[lo := plan.chunks[lo]], lo + 1, hi)
  {
  }

  lemma OverlayLast(plan: Plan, parts: map<nat, Bytes>, lo: nat, hi: nat)
    requires lo < hi <= |plan.chunks|
    ensures Overlay(plan, parts, lo, hi) == Overlay(plan, parts, lo, hi - 1)[hi - 1 := plan.chunks[hi - 1]]
  {
  }

  // ---- What the client makes of it ----

  lemma ChunkAckInjective(plan: Plan, c: nat, d: nat)
    requires ChunkAck(plan.kind, plan.index, c) == ChunkAck(plan.kind, plan.index, d)
    ensures c == d
  {
    var head := "data_chunk_ok_" + Decimal.Text(plan.kind) + "_" + Decimal.Text(plan.index) + "_";
    assert ChunkAck(plan.kind, plan.index, c) == head + Decimal.Text(c);
    assert ChunkAck(plan.kind, plan.index, d) == head + Decimal.Text(d);
    assert Decimal.Text(c) == ChunkAck(plan.kind, plan.index, c)[|head|..];
    assert Decimal.Text(d) == ChunkAck(plan.kind, plan.index, d)[|head|..];
    Decimal.TextInjective(c, d);
  }

  lemma AcksDiffer(plan: Plan, c: nat)
    ensures ChunkAck(plan.kind, plan.index, c) != FinalAck(plan.kind, plan.index)
  {
    assert ChunkAck(plan.kind, plan.index, c)[5] == 'c';
    assert FinalAck(plan.kind, plan.index)[5] == 'o';
  }

  lemma {:induction false} MatchOfChunkAck(plan: Plan, c: nat, next: nat, end: nat)
    requires |plan.chunks| >= 2 && next <= c < end
    ensures FirstMatch(plan, Some(ChunkAck(plan.kind, plan.index, c)), next, end) == Some(c)
    decreases end - next
  {
    AcksDiffer(plan, c);
    if next < c {
      if ChunkAck(plan.kind, plan.index, c) == ChunkAck(plan.kind, plan.index, next) {
        ChunkAckInjective(plan, c, next);
      }
      MatchOfChunkAck(plan, c, next + 1, end);
    }
  }

  lemma {:induction false} MatchOfFinalAck(plan: Plan, next: nat, end: nat)
    requires |plan.chunks| >= 2 && next <= end <= |plan.chunks|
    ensures FirstMatch(plan, Some(FinalAck(plan.kind, plan.index)), next, end)
         == if next < end == |plan.chunks| then Some(end - 1) else None
    decreases end - next
  {
    if next < end {
      AcksDiffer(plan, next);
      MatchOfFinalAck(plan, next + 1, end);
    }
  }

  lemma {:induction false} JudgeChunkAcks(
    plan: Plan, next: nat, end: nat, lo: nat, hi: nat, rest: seq<Response>, acked: set<nat>)
    requires |plan.chunks| >= 2 && next <= lo <= hi <= end
    ensures Judge(plan, next, end, ChunkAcks(plan, lo, hi) + rest, acked)
         == Judge(plan, next, end, rest, acked + Range(lo, hi))
    decreases hi - lo
  {
    if lo == hi {
      assert ChunkAcks(plan, lo, hi) + rest == rest;
      assert acked + Range(lo, hi) == acked;
    } else {
      var responses := ChunkAcks(plan, lo, hi) + rest;
      assert responses[1..] == ChunkAcks(plan, lo + 1, hi) + rest;
      MatchOfChunkAck(plan, lo, next, end);
      JudgeChunkAcks(plan, next, end, lo + 1, hi, rest, acked + {lo});
      assert (acked + {lo}) + Range(lo + 1, hi) == acked + Range(lo, hi);
    }
  }

  lemma {:induction false} RangeSize(lo: nat, hi: nat)
    requires lo <= hi
    ensures |Range(lo, hi)| == hi - lo
    decreases hi - lo
  {
    if lo < hi {
      RangeSize(lo + 1, hi);
      assert Range(lo, hi) == {lo} + Range(lo + 1, hi);
    }
  }

  /** A window acknowledged chunk by chunk advances the client. */
  lemma QuietVerdict(plan: Plan, next: nat, end: nat)
    requires |plan.chunks| >= 2 && next <= end
    ensures JudgeTurn(plan, next, end, Responses(ChunkAcks(plan, next, end))) == Advance
  {
    var responses := ChunkAcks(plan, next, end);
    assert responses + [] == responses;
    JudgeChunkAcks(plan, next, end, next, end, [], {});
    assert {} + Range(next, end) == Range(next, end);
    RangeSize(next, end);
  }

  /** The answers to a window whose chunk `g` completes the artifact. */
  lemma CompletingAnswers(plan: Plan, next: nat, g: nat, end: nat, t: Transfer)
    requires Shaped(plan) && |plan.chunks| >= 2 && Compatible(t, plan)
    requires next <= g < end <= |plan.chunks| && Room(t, plan, next, end)
    requires !Full(plan, Overlay(plan, Parts(t, plan), next, g).Keys)
    requires Full(plan, Overlay(plan, Parts(t, plan), next, g + 1).Keys)
    ensures var (responses, t') := Exchange(plan, next, end, t);
            var data := Whole(|plan.chunks|, Overlay(plan, Parts(t, plan), next, g + 1));
            && responses == ChunkAcks(plan, next, g) + ([Completion(plan.kind, plan.index, data)]
                                                        + ChunkAcks(plan, g + 1, end))
            && t'.artifacts == Stored(t.artifacts, plan.kind, data)
            && (g + 1 == end ==> KeyOf(plan) !in t'.chunks)
            && Compatible(t', plan) && g !in Held(t', plan)
            && Load(t', plan, end) <= Load(t, plan, next) && SameElsewhere(t, t', plan)
  {
    hide Overlay, Range, Parts, KeyOf, Full, Compatible, Concat, Load, Shaped, Completion, StorageError, Stored;
    hide ChunkAck, Process, Acknowledge, RequestFor, Exchange, Whole, SameElsewhere, Fits;
    ExchangeSplit(plan, next, g, end, t);
    RoomSplit(plan, next, g, end, t);
    QuietWindow(plan, next, g, t);
    OverlaySteps(plan, Parts(t, plan), next, g + 1);
    var t1 := Exchange(plan, next, g, t).1;
    OneChunk(plan, g, t1);
    var (response, t2) := Process(t1, RequestFor(plan, g));
    NothingHeld(plan, t2, g, end);
    QuietWindow(plan, g + 1, end, t2);
    ExchangeStep(plan, g, end, t1);
    SameElsewhereTwice(t, t1, t2, plan);
    SameElsewhereTwice(t, t2, Exchange(plan, g + 1, end, t2).1, plan);
    if g + 1 == end {
      NoExchange(plan, end, t2);
    }
  }

  lemma NothingHeld(plan: Plan, t: Transfer, g: nat, end: nat)
    requires KeyOf(plan) !in t.chunks && g < end <= |plan.chunks|
    ensures Compatible(t, plan) && Parts(t, plan) == map[]
    ensures !Full(plan, Overlay(plan, Parts(t, plan), g + 1, end).Keys)
    ensures g !in Overlay(plan, Parts(t, plan), g + 1, end)
  {
    assert g !in Overlay(plan, Parts(t, plan), g + 1, end);
  }

  lemma ExchangeStep(plan: Plan, next: nat, end: nat, t: Transfer)
    requires next < end <= |plan.chunks|
    ensures var (response, t') := Process(t, RequestFor(plan, next));
            var (rest, t'') := Exchange(plan, next + 1, end, t');
            Exchange(plan, next, end, t) == ([response] + rest, t'')
  {
  }

  lemma JudgeFinalAck(plan: Plan, next: nat, end: nat, rest: seq<Response>, acked: set<nat>)
    requires |plan.chunks| >= 2 && next < end <= |plan.chunks|
    ensures Judge(plan, next, end, [Acknowledge(FinalAck(plan.kind, plan.index))] + rest, acked)
         == if end == |plan.chunks| then Judge(plan, next, end, rest, acked + {end - 1})
            else Fail(UnexpectedServerResponse)
  {
    MatchOfFinalAck(plan, next, end);
    hide FinalAck, FirstMatch;
    var responses := [Acknowledge(FinalAck(plan.kind, plan.index))] + rest;
    assert responses[1..] == rest;
  }

  /**
  The client's verdict on such a window.  The final acknowledgement names no chunk; the client reads
  it as one of the last chunk, so it advances only when `g` is the last chunk.
  */
  lemma CompletingVerdict(plan: Plan, next: nat, g: nat, end: nat)
    requires |plan.chunks| >= 2 && next <= g < end <= |plan.chunks|
    ensures var final := Acknowledge(FinalAck(plan.kind, plan.index));
            JudgeTurn(plan, next, end, Responses(ChunkAcks(plan, next, g) + ([final] + ChunkAcks(plan, g + 1, end))))
            == if g == |plan.chunks| - 1 then Advance else Fail(UnexpectedServerResponse)
  {
    hide Range, FinalAck, ChunkAck, ChunkAcks, FirstMatch, Acknowledge, Judge;
    var after := ChunkAcks(plan, g + 1, end);
    var before := Range(next, g);
    JudgeChunkAcks(plan, next, end, next, g, [Acknowledge(FinalAck(plan.kind, plan.index))] + after, {});
    assert {} + before == before;
    JudgeFinalAck(plan, next, end, after, before);
    if end == |plan.chunks| {
      assert after + [] == after;
      JudgeChunkAcks(plan, next, end, g + 1, end, [], before + {end - 1});
      JudgeNothing(plan, next, end, before + {end - 1} + Range(g + 1, end));
      AckedCount(next, g, end);
    }
  }

  /** And when the completed artifact is refused. */
  lemma RefusedVerdict(plan: Plan, next: nat, g: nat, end: nat, code: string)
    requires |plan.chunks| >= 2 && next <= g < end <= |plan.chunks| && code != "DATA_CHUNK_RETRY"
    ensures var responses := ChunkAcks(plan, next, g) + ([Refuse(code)] + ChunkAcks(plan, g + 1, end));
            JudgeTurn(plan, next, end, Responses(responses)) == Fail(ServerError(code, None))
  {
    hide Range, FinalAck, ChunkAck, ChunkAcks, FirstMatch, Judge;
    var after := ChunkAcks(plan, g + 1, end);
    JudgeChunkAcks(plan, next, end, next, g, [Refuse(code)] + after, {});
    JudgeRefusal(plan, next, end, code, after, {} + Range(next, g));
  }

  lemma JudgeRefusal(plan: Plan, next: nat, end: nat, code: string, rest: seq<Response>, acked: set<nat>)
    requires code != "DATA_CHUNK_RETRY"
    ensures Judge(plan, next, end, [Refuse(code)] + rest, acked) == Fail(ServerError(code, None))
  {
  }

  lemma JudgeNothing(plan: Plan, next: nat, end: nat, acked: set<nat>)
    ensures Judge(plan, next, end, [], acked)
         == if |acked| == end - next then Advance else Fail(UnexpectedServerResponse)
  {
  }

  lemma AckedCount(next: nat, g: nat, end: nat)
    requires next <= g < end
    ensures |Range(next, g) + {end - 1} + Range(g + 1, end)| == if g == end - 1 then end - next else end - next - 1
  {
    hide Range;
    var acked := Range(next, g) + {end - 1} + Range(g + 1, end);
    RangeSize(next, end);
    if g == end - 1 {
      assert acked == Range(next, end);
    } else {
      assert acked == Range(next, end) - {g};
    }
  }

  // ---- Windows that go over the limit ----

  /** What is sent behind a gap does not complete the artifact, whatever of it is taken in. */
  lemma {:induction false} LooseWindow(plan: Plan, g: nat, next: nat, end: nat, t: Transfer)
    requires Shaped(plan) && |plan.chunks| >= 2 && Compatible(t, plan)
    requires g < next <= end <= |plan.chunks| && g !in Held(t, plan)
    ensures var t' := Exchange(plan, next, end, t).1;
            Load(t', plan, end) <= Load(t, plan, next) && SameElsewhere(t, t', plan) && t'.artifacts == t.artifacts
    decreases end - next
  {
    hide Concat, Shaped, Compatible, Process, RequestFor, SameElsewhere, Fits, Parts, KeyOf;
    if next == end {
      NoExchange(plan, next, t);
    } else {
      var t1 := Process(t, RequestFor(plan, next)).1;
      LooseChunk(plan, g, next, t);
      LooseWindow(plan, g, next + 1, end, t1);
      SameElsewhereTwice(t, t1, Exchange(plan, next + 1, end, t1).1, plan);
    }
  }

  lemma LooseChunk(plan: Plan, g: nat, c: nat, t: Transfer)
    requires Shaped(plan) && |plan.chunks| >= 2 && Compatible(t, plan)
    requires g < c < |plan.chunks| && g !in Held(t, plan)
    ensures var t' := Process(t, RequestFor(plan, c)).1;
            && Load(t', plan, c + 1) <= Load(t, plan, c) && SameElsewhere(t, t', plan) && t'.artifacts == t.artifacts
            && Compatible(t', plan) && g !in Held(t', plan)
  {
    hide Process, RequestFor, Shaped, Compatible, SameElsewhere, Fits, Concat;
    if Fits(t, plan.chunks[c]) {
      assert g !in Parts(t, plan)[c := plan.chunks[c]].Keys;
      OneChunk(plan, c, t);
    } else {
      ChunkRefused(plan, c, t);
      NoExchange(plan, c, t);
      LoadDrops(plan, t, c);
    }
  }

  lemma LoadDrops(plan: Plan, t: Transfer, c: nat)
    requires c < |plan.chunks|
    ensures Load(t, plan, c + 1) <= Load(t, plan, c)
  {
    assert plan.chunks[c..] == [plan.chunks[c]] + plan.chunks[c + 1..];
  }

  /** The first chunk of a window that goes over the limit. */
  lemma {:induction false} FirstTooLarge(plan: Plan, next: nat, end: nat, t: Transfer) returns (r: nat)
    requires next <= end <= |plan.chunks| && !Room(t, plan, next, end)
    ensures next <= r < end && Room(t, plan, next, r)
    ensures !Fits(Exchange(plan, next, r, t).1, plan.chunks[r])
    decreases end - next
  {
    hide Fits, Process;
    if !Fits(t, plan.chunks[next]) {
      r := next;
    } else {
      r := FirstTooLarge(plan, next + 1, end, Process(t, RequestFor(plan, next)).1);
    }
  }

  /** The client's verdict on a window of which a chunk goes over the limit. */
  lemma TooLargeVerdict(plan: Plan, next: nat, r: nat, end: nat, rest: seq<Response>)
    requires |plan.chunks| >= 2 && next <= r < end
    ensures JudgeTurn(plan, next, end, Responses(ChunkAcks(plan, next, r) + ([Refuse("TRANSFER_TOO_LARGE")] + rest)))
         == Fail(ServerError("TRANSFER_TOO_LARGE", None))
  {
    hide Range, ChunkAck, ChunkAcks, FirstMatch, Judge;
    JudgeChunkAcks(plan, next, end, next, r, [Refuse("TRANSFER_TOO_LARGE")] + rest, {});
    JudgeRefusal(plan, next, end, "TRANSFER_TOO_LARGE", rest, {} + Range(next, r));
  }

  /** And when chunk `g` completed the artifact before that. */
  lemma TooLateVerdict(plan: Plan, next: nat, g: nat, r: nat, end: nat, completion: Response, rest: seq<Response>)
    requires |plan.chunks| >= 2 && next <= g < r < end <= |plan.chunks|
    ensures var responses := ChunkAcks(plan, next, g)
                             + ([completion] + (ChunkAcks(plan, g + 1, r) + ([Refuse("TRANSFER_TOO_LARGE")] + rest)));
            && (completion == Acknowledge(FinalAck(plan.kind, plan.index)) ==>
                  JudgeTurn(plan, next, end, Responses(responses))
                  == Fail(if end == |plan.chunks| then ServerError("TRANSFER_TOO_LARGE", None)
                          else UnexpectedServerResponse))
            && forall code | code != "DATA_CHUNK_RETRY" && completion == Refuse(code) ::
                 JudgeTurn(plan, next, end, Responses(responses)) == Fail(ServerError(code, None))
  {
    hide Range, FinalAck, ChunkAck, ChunkAcks, FirstMatch, Judge, Acknowledge, Refuse;
    var refusal := [Refuse("TRANSFER_TOO_LARGE")] + rest;
    var after := ChunkAcks(plan, g + 1, r) + refusal;
    var before := {} + Range(next, g);
    JudgeChunkAcks(plan, next, end, next, g, [completion] + after, {});
    if completion == Acknowledge(FinalAck(plan.kind, plan.index)) {
      JudgeFinalAck(plan, next, end, after, before);
      if end == |plan.chunks| {
        JudgeChunkAcks(plan, next, end, g + 1, r, refusal, before + {end - 1});
        JudgeRefusal(plan, next, end, "TRANSFER_TOO_LARGE", rest, before + {end - 1} + Range(g + 1, r));
      }
    }
    forall code | code != "DATA_CHUNK_RETRY" && completion == Refuse(code)
      ensures Judge(plan, next, end, [completion] + after, before) == Fail(ServerError(code, None))
    {
      JudgeRefusal(plan, next, end, code, after, before);
    }
  }
}
