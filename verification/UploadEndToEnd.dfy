/**
The client's upload loop talking to the server's transfer state, one window after another: what a fresh
upload delivers, when a resend over a gap succeeds, and when the two never come to an end.
*/
module UploadEndToEnd {
  import opened Wrappers
  import opened ChunkedUpload
  import opened TransferServer
  import opened UploadWindows

  // ---- The two sides together ----

  /** The turns, at most `fuel` of them, that the client sees when this server answers it. */
  function Play(plan: Plan, next: nat, window: nat, t: Transfer, fuel: nat): (seq<Turn>, Transfer)
    decreases fuel
  {
    if next >= |plan.chunks| || fuel == 0 then ([], t)
    else
      var end := WindowEnd(plan, next, window);
      var (responses, t') := Exchange(plan, next, end, t);
      var turn := Turn(false, Responses(responses));
      match JudgeTurn(plan, next, end, turn.result)
      case Fail(_) => ([turn], t')
      case Advance =>
        var (turns, t'') := Play(plan, end, window, t', fuel - 1);
        ([turn] + turns, t'')
      case RetryAt(c) =>
        var (turns, t'') := Play(plan, c, 1, t', fuel - 1);
        ([turn] + turns, t'')
  }

  function Session(plan: Plan, start: nat, window: nat, t: Transfer, fuel: nat): (Outcome, Transfer) {
    var (turns, t') := Play(plan, start, window, t, fuel);
    (Run(plan, start, window, turns).outcome, t')
  }

  // ---- Whole sessions ----

  ghost predicate GapsFrom(plan: Plan, held: set<nat>, start: nat) {
    forall c: nat | c < |plan.chunks| && c !in held :: c >= start
  }

  /** The largest missing index below `hi`. */
  function LastGap(held: set<nat>, hi: nat): (g: nat)
    requires exists c: nat :: c < hi && c !in held
    ensures g < hi && g !in held && forall c: nat | g < c < hi :: c in held
  {
    if hi - 1 !in held then hi - 1
    else
      assert exists c: nat :: c < hi - 1 && c !in held by {
        var c: nat :| c < hi && c !in held;
        assert c < hi - 1;
      }
      LastGap(held, hi - 1)
  }

  /** The client's outcome when chunk `g` completes the artifact `data`. */
  function CompletingOutcome(plan: Plan, g: nat, data: Bytes): Outcome {
    match StorageError(plan.kind, data)
    case Some(code) => Stopped(ServerError(code, None))
    case None => if g == |plan.chunks| - 1 then Delivered else Stopped(UnexpectedServerResponse)
  }

  /**
  How an upload from `start` ends.  If it fills the last gaps, the chunk `g` that fills the very last
  one completes the artifact: the new chunks from `start` to `g` and what was there elsewhere.
  Otherwise the server holds what it held with the new chunks written over it.
  */
  ghost predicate Ends(plan: Plan, start: nat, t: Transfer, outcome: Outcome, t': Transfer)
    requires start <= |plan.chunks| && !Full(plan, Held(t, plan))
  {
    var n, parts := |plan.chunks|, Parts(t, plan);
    && Load(t', plan, n) <= Load(t, plan, start) && SameElsewhere(t, t', plan)
    && if GapsFrom(plan, parts.Keys, start) then
         var g := LastGap(parts.Keys, n);
         var data := Whole(n, Overlay(plan, parts, start, g + 1));
         && outcome == CompletingOutcome(plan, g, data)
         && t'.artifacts == Stored(t.artifacts, plan.kind, data)
         && (outcome == Delivered ==> KeyOf(plan) !in t'.chunks)
       else
         && outcome == Delivered
         && Parts(t', plan) == Overlay(plan, parts, start, n) && Compatible(t', plan)
         && (start < n ==> KeyOf(plan) in t'.chunks)
         && (Range(start, n) <= parts.Keys ==> t'.bytesReceived == t.bytesReceived)
         && t'.artifacts == t.artifacts
  }

  /** One pass of `Play` and `Run` together. */
  lemma SessionStep(plan: Plan, start: nat, window: nat, t: Transfer, fuel: nat)
    requires start < |plan.chunks| && fuel > 0
    ensures var end := WindowEnd(plan, start, window);
            var (responses, t') := Exchange(plan, start, end, t);
            Session(plan, start, window, t, fuel)
            == match JudgeTurn(plan, start, end, Responses(responses))
               case Advance => Session(plan, end, window, t', fuel - 1)
               case RetryAt(c) => Session(plan, c, 1, t', fuel - 1)
               case Fail(error) => (Stopped(error), t')
  {
    hide Exchange, JudgeTurn;
    var end := WindowEnd(plan, start, window);
    var (responses, t') := Exchange(plan, start, end, t);
    var turn := Turn(false, Responses(responses));
    var turns := Play(plan, start, window, t, fuel).0;
    assert turns[0] == turn;
    match JudgeTurn(plan, start, end, turn.result)
    case Advance => assert turns[1..] == Play(plan, end, window, t', fuel - 1).0;
    case RetryAt(c) => assert turns[1..] == Play(plan, c, 1, t', fuel - 1).0;
    case Fail(_) =>
  }

  /** Judging the rest of a session by what is held after its first window. */
  lemma EndsAfterWindow(plan: Plan, start: nat, end: nat, t: Transfer, t1: Transfer, outcome: Outcome, t2: Transfer)
    requires start < end <= |plan.chunks| && !Full(plan, Held(t, plan)) && !Full(plan, Held(t1, plan))
    requires Parts(t1, plan) == Overlay(plan, Parts(t, plan), start, end) && KeyOf(plan) in t1.chunks
    requires Load(t1, plan, end) <= Load(t, plan, start) && SameElsewhere(t, t1, plan) && t1.artifacts == t.artifacts
    requires Range(start, end) <= Held(t, plan) ==> t1.bytesReceived == t.bytesReceived
    requires Ends(plan, end, t1, outcome, t2) && (end == |plan.chunks| ==> t2 == t1)
    ensures Ends(plan, start, t, outcome, t2)
  {
    hide Load, Stored, CompletingOutcome, Whole, SameElsewhere, Compatible, KeyOf, Overlay, Parts, GapsFrom;
    hide Full, LastGap;
    var n, parts := |plan.chunks|, Parts(t, plan);
    SameElsewhereTwice(t, t1, t2, plan);
    GapsAfterWindow(plan, parts, start, end);
    OverlayTwice(plan, parts, start, end, n);
    if GapsFrom(plan, parts.Keys, start) {
      LastGapAfterWindow(plan, parts, start, end);
      OverlayTwice(plan, parts, start, end, LastGap(parts.Keys, n) + 1);
    } else {
      HeldBefore(plan, parts, start, end);
    }
  }

  lemma HeldBefore(plan: Plan, parts: map<nat, Bytes>, start: nat, end: nat)
    requires start <= end <= |plan.chunks|
    ensures Range(start, |plan.chunks|) <= parts.Keys ==>
              Range(start, end) <= parts.Keys && Range(end, |plan.chunks|) <= Overlay(plan, parts, start, end).Keys
  {
  }

  /** Two windows in a row write as one. */
  lemma OverlayTwice(plan: Plan, parts: map<nat, Bytes>, lo: nat, mid: nat, hi: nat)
    requires lo <= mid <= hi <= |plan.chunks|
    ensures Overlay(plan, Overlay(plan, parts, lo, mid), mid, hi) == Overlay(plan, parts, lo, hi)
  {
  }

  lemma LastGapAfterWindow(plan: Plan, parts: map<nat, Bytes>, start: nat, end: nat)
    requires start < end <= |plan.chunks| && !Full(plan, parts.Keys)
    requires !Full(plan, Overlay(plan, parts, start, end).Keys)
    requires GapsFrom(plan, parts.Keys, start)
    ensures LastGap(Overlay(plan, parts, start, end).Keys, |plan.chunks|) == LastGap(parts.Keys, |plan.chunks|) >= end
  {
    var n, later := |plan.chunks|, Overlay(plan, parts, start, end);
    var g, k := LastGap(parts.Keys, n), LastGap(later.Keys, n);
    assert k !in later && k !in parts && k <= g;
    assert g >= end || g in later;
    assert g !in later || start <= g < end;
  }

  lemma GapsAfterWindow(plan: Plan, parts: map<nat, Bytes>, start: nat, end: nat)
    requires start < end <= |plan.chunks| && !Full(plan, Overlay(plan, parts, start, end).Keys)
    ensures GapsFrom(plan, Overlay(plan, parts, start, end).Keys, end) <==> GapsFrom(plan, parts.Keys, start)
  {
    var later := Overlay(plan, parts, start, end);
    if GapsFrom(plan, later.Keys, end) {
      forall c: nat | c < |plan.chunks| && c !in parts.Keys ensures c >= start {
        assert c !in later.Keys || start <= c < end;
      }
    }
    if GapsFrom(plan, parts.Keys, start) {
      forall c: nat | c < |plan.chunks| && c !in later.Keys ensures c >= end {
        assert c !in parts.Keys && !(start <= c < end);
      }
    }
  }

  lemma SessionDone(plan: Plan, start: nat, window: nat, t: Transfer, fuel: nat)
    requires start >= |plan.chunks|
    ensures Session(plan, start, window, t, fuel) == (Delivered, t)
  {
  }

  lemma FullOverlay(plan: Plan, parts: map<nat, Bytes>, lo: nat, hi: nat)
    requires hi <= |plan.chunks|
    ensures Full(plan, Overlay(plan, parts, lo, hi).Keys)
       <==> forall c: nat | c < |plan.chunks| && c !in parts :: lo <= c < hi
  {
    var over := Overlay(plan, parts, lo, hi);
    assert forall c: nat :: c in over.Keys <==> c in parts || lo <= c < hi;
  }

  lemma CompletingChunk(plan: Plan, parts: map<nat, Bytes>, start: nat, end: nat)
    requires start < end <= |plan.chunks| && !Full(plan, parts.Keys)
    requires Full(plan, Overlay(plan, parts, start, end).Keys)
    ensures var g := LastGap(parts.Keys, |plan.chunks|);
            && start <= g < end && !Full(plan, Overlay(plan, parts, start, g).Keys)
            && Full(plan, Overlay(plan, parts, start, g + 1).Keys) && GapsFrom(plan, parts.Keys, start)
  {
    hide Overlay, LastGap;
    var g := LastGap(parts.Keys, |plan.chunks|);
    FullOverlay(plan, parts, start, end);
    FullOverlay(plan, parts, start, g);
    FullOverlay(plan, parts, start, g + 1);
  }

  lemma CompletionCode(kind: nat, index: nat, data: Bytes)
    ensures match StorageError(kind, data)
            case Some(code) => Completion(kind, index, data) == Refuse(code) && code != "DATA_CHUNK_RETRY"
            case None => Completion(kind, index, data) == Acknowledge(FinalAck(kind, index))
  {
  }

  lemma CompatibleHasGap(t: Transfer, plan: Plan)
    requires Compatible(t, plan)
    ensures !Full(plan, Held(t, plan)) && !Full(plan, Parts(t, plan).Keys)
  {
  }

  /** The window that fills the last gap ends the session, one way or the other. */
  lemma CompletingSession(plan: Plan, start: nat, window: nat, t: Transfer, fuel: nat)
    requires Shaped(plan) && |plan.chunks| >= 2 && Compatible(t, plan)
    requires start < |plan.chunks| && window >= 1 && fuel >= 1
    requires Room(t, plan, start, WindowEnd(plan, start, window))
    requires Full(plan, Overlay(plan, Parts(t, plan), start, WindowEnd(plan, start, window)).Keys)
    ensures var (outcome, t') := Session(plan, start, window, t, fuel);
            && Ends(plan, start, t, outcome, t')
            && (outcome == Delivered ==> WindowEnd(plan, start, window) == |plan.chunks|)
  {
    hide Overlay, Compatible, Range, Full, GapsFrom, LastGap, Concat, ChunkAcks, Acknowledge, Refuse, Session;
    hide Exchange, JudgeTurn, Whole, SameElsewhere;
    hide Shaped, Parts, FinalAck, ChunkAck, Completion, StorageError, KeyOf, Stored, Load, Room;
    var n, end := |plan.chunks|, WindowEnd(plan, start, window);
    var parts := Parts(t, plan);
    CompatibleHasGap(t, plan);
    CompletingChunk(plan, parts, start, end);
    var g := LastGap(parts.Keys, n);
    var data := Whole(n, Overlay(plan, parts, start, g + 1));
    var t' := Exchange(plan, start, end, t).1;
    SessionStep(plan, start, window, t, fuel);
    CompletingAnswers(plan, start, g, end, t);
    CompletionCode(plan.kind, plan.index, data);
    if StorageError(plan.kind, data).Some? {
      RefusedVerdict(plan, start, g, end, StorageError(plan.kind, data).value);
    } else {
      CompletingVerdict(plan, start, g, end);
    }
    LoadShrinks(plan, t', end);
    if g == n - 1 {
      SessionDone(plan, end, window, t', fuel - 1);
    }
  }

  lemma LoadShrinks(plan: Plan, t: Transfer, end: nat)
    requires end <= |plan.chunks|
    ensures Load(t, plan, |plan.chunks|) == t.bytesReceived <= Load(t, plan, end)
  {
    assert plan.chunks[|plan.chunks|..] == [];
  }

  /** A window that leaves a gap is followed by the rest of the session. */
  lemma QuietSession(plan: Plan, start: nat, window: nat, t: Transfer, fuel: nat) returns (t': Transfer)
    requires Shaped(plan) && |plan.chunks| >= 2 && Compatible(t, plan)
    requires start < |plan.chunks| && window >= 1 && fuel >= 1
    requires Room(t, plan, start, WindowEnd(plan, start, window))
    requires !Full(plan, Overlay(plan, Parts(t, plan), start, WindowEnd(plan, start, window)).Keys)
    ensures var end := WindowEnd(plan, start, window);
            && Session(plan, start, window, t, fuel) == Session(plan, end, window, t', fuel - 1)
            && Parts(t', plan) == Overlay(plan, Parts(t, plan), start, end) && KeyOf(plan) in t'.chunks
            && Compatible(t', plan) && Load(t', plan, end) <= Load(t, plan, start)
            && SameElsewhere(t, t', plan) && t'.artifacts == t.artifacts
            && (Range(start, end) <= Held(t, plan) ==> t'.bytesReceived == t.bytesReceived)
            && t' == Exchange(plan, start, end, t).1
  {
    hide Overlay, Full, KeyOf, Range, Session, JudgeTurn, Shaped, Compatible, Parts, FinalAck, ChunkAck;
    hide Exchange, Load, SameElsewhere, Room;
    var end := WindowEnd(plan, start, window);
    t' := Exchange(plan, start, end, t).1;
    SessionStep(plan, start, window, t, fuel);
    QuietWindow(plan, start, end, t);
    QuietVerdict(plan, start, end);
  }

  /** A window of which a chunk goes over the limit ends the session. */
  lemma RefusedSession(plan: Plan, start: nat, window: nat, t: Transfer, fuel: nat)
    requires Shaped(plan) && |plan.chunks| >= 2 && Compatible(t, plan)
    requires start < |plan.chunks| && window >= 1 && fuel >= 1
    requires !Room(t, plan, start, WindowEnd(plan, start, window))
    ensures var (outcome, t') := Session(plan, start, window, t, fuel);
            outcome == TOO_LARGE || (outcome.Stopped? && Ends(plan, start, t, outcome, t'))
  {
    hide Overlay, Compatible, Full, Shaped, Session, Exchange, JudgeTurn, Room, Fits, Parts, RequestFor;
    hide Process, ChunkAck, FinalAck;
    hide Concat, Range, Whole, Ends, SameElsewhere;
    var end := WindowEnd(plan, start, window);
    CompatibleHasGap(t, plan);
    SessionStep(plan, start, window, t, fuel);
    var r := FirstTooLarge(plan, start, end, t);
    var (first, t1) := Exchange(plan, start, r, t);
    ExchangeSplit(plan, start, r, end, t);
    ExchangeStep(plan, r, end, t1);
    var rest := Exchange(plan, r + 1, end, Process(t1, RequestFor(plan, r)).1).0;
    if !Full(plan, Overlay(plan, Parts(t, plan), start, r).Keys) {
      QuietWindow(plan, start, r, t);
      ChunkRefused(plan, r, t1);
      TooLargeVerdict(plan, start, r, end, rest);
    } else {
      CompletedThenRefused(plan, start, r, end, t);
    }
  }

  lemma CompletedThenRefused(plan: Plan, start: nat, r: nat, end: nat, t: Transfer)
    requires Shaped(plan) && |plan.chunks| >= 2 && Compatible(t, plan)
    requires start <= r < end <= |plan.chunks| && Room(t, plan, start, r)
    requires !Fits(Exchange(plan, start, r, t).1, plan.chunks[r])
    requires Full(plan, Overlay(plan, Parts(t, plan), start, r).Keys)
    ensures !Full(plan, Held(t, plan))
    ensures var (responses, t') := Exchange(plan, start, end, t);
            var verdict := JudgeTurn(plan, start, end, Responses(responses));
            verdict.Fail? && (Stopped(verdict.error) == TOO_LARGE || Ends(plan, start, t, Stopped(verdict.error), t'))
  {
    hide Overlay, Compatible, Full, Shaped, Exchange, JudgeTurn, Room, Fits, Parts, RequestFor, Process;
    hide ChunkAck, FinalAck, ChunkAcks;
    hide Concat, Range, Whole, GapsFrom, LastGap, Load, SameElsewhere, Acknowledge, Refuse, Completion;
    hide StorageError, Stored, KeyOf;
    var n, parts := |plan.chunks|, Parts(t, plan);
    CompatibleHasGap(t, plan);
    if start == r {
      NoExchange(plan, start, t);
    }
    CompletingChunk(plan, parts, start, r);
    var g := LastGap(parts.Keys, n);
    var data := Whole(n, Overlay(plan, parts, start, g + 1));
    CompletingAnswers(plan, start, g, r, t);
    CompletionCode(plan.kind, plan.index, data);
    var (first, t1) := Exchange(plan, start, r, t);
    ExchangeSplit(plan, start, r, end, t);
    ExchangeStep(plan, r, end, t1);
    ChunkRefused(plan, r, t1);
    var (rest, t') := Exchange(plan, r + 1, end, t1);
    var completion := Completion(plan.kind, plan.index, data);
    TooLateVerdict(plan, start, g, r, end, completion, rest);
    var refusal := [Refuse("TRANSFER_TOO_LARGE")] + rest;
    assert first + refusal
        == ChunkAcks(plan, start, g) + ([completion] + (ChunkAcks(plan, g + 1, r) + refusal));
    LooseWindow(plan, g, r + 1, end, t1);
    LoadDrops(plan, t1, r);
    LoadShrinks(plan, t', end);
    SameElsewhereTwice(t, t1, t', plan);
  }

  /**
  Uploading from `start` to a server that may hold an incomplete entry of as many chunks, whatever
  its bytes.  The call can also come to a chunk over the transfer limit.
  */
  lemma {:induction false} SessionFrom(plan: Plan, start: nat, window: nat, t: Transfer, fuel: nat)
    requires Shaped(plan) && |plan.chunks| >= 2 && Compatible(t, plan)
    requires start <= |plan.chunks| && window >= 1 && fuel >= |plan.chunks| - start
    ensures var (outcome, t') := Session(plan, start, window, t, fuel);
            var room := Room(t, plan, start, |plan.chunks|);
            if outcome == TOO_LARGE then !room else Ends(plan, start, t, outcome, t') && (outcome == Delivered ==> room)
    decreases |plan.chunks| - start
  {
    hide Overlay, Compatible, Range, Session, Shaped, Ends, Parts, Full, Load, KeyOf, SameElsewhere, Room;
    hide Exchange;
    CompatibleHasGap(t, plan);
    if start == |plan.chunks| {
      SessionDone(plan, start, window, t, fuel);
      NothingToSend(plan, t);
    } else {
      var end := WindowEnd(plan, start, window);
      RoomSplit(plan, start, end, |plan.chunks|, t);
      if !Room(t, plan, start, end) {
        RefusedSession(plan, start, window, t, fuel);
      } else if Full(plan, Overlay(plan, Parts(t, plan), start, end).Keys) {
        CompletingSession(plan, start, window, t, fuel);
        var (outcome, t') := Session(plan, start, window, t, fuel);
        EndsNotTooLarge(plan, start, t, outcome, t');
      } else {
        var t1 := QuietSession(plan, start, window, t, fuel);
        SessionFrom(plan, end, window, t1, fuel - 1);
        var (outcome, t2) := Session(plan, end, window, t1, fuel - 1);
        if end == |plan.chunks| {
          SessionDone(plan, end, window, t1, fuel - 1);
        }
        CompatibleHasGap(t1, plan);
        if outcome != TOO_LARGE {
          EndsAfterWindow(plan, start, end, t, t1, outcome, t2);
        }
      }
    }
  }

  lemma EndsNotTooLarge(plan: Plan, start: nat, t: Transfer, outcome: Outcome, t': Transfer)
    requires start <= |plan.chunks| && !Full(plan, Held(t, plan)) && Ends(plan, start, t, outcome, t')
    ensures outcome != TOO_LARGE
  {
    hide Overlay, Whole, LastGap, Load, SameElsewhere, GapsFrom, Full;
  }

  lemma NothingToSend(plan: Plan, t: Transfer)
    requires Compatible(t, plan)
    ensures Ends(plan, |plan.chunks|, t, Delivered, t) && Room(t, plan, |plan.chunks|, |plan.chunks|)
  {
    var c: nat :| c < |plan.chunks| && c !in Held(t, plan);
    assert !GapsFrom(plan, Held(t, plan), |plan.chunks|);
  }

  // ---- When the bytes are the plan's own ----

  lemma OwnBytes(plan: Plan, parts: map<nat, Bytes>)
    requires forall c: nat | c < |plan.chunks| :: c in parts && parts[c] == plan.chunks[c]
    ensures Whole(|plan.chunks|, parts) == Concat(plan.chunks)
  {
    var entry := Entry(|plan.chunks|, parts);
    assert AllPresent(entry);
    assert seq(entry.chunkTotal, i requires 0 <= i < entry.chunkTotal => entry.parts[i]) == plan.chunks;
  }

  /** The chunks of an artifact that its last gap completes are all the plan's, if the held ones are. */
  lemma OwnArtifact(plan: Plan, parts: map<nat, Bytes>, start: nat)
    requires !Full(plan, parts.Keys) && GapsFrom(plan, parts.Keys, start) && start <= |plan.chunks|
    requires forall c <- parts | c < |plan.chunks| :: parts[c] == plan.chunks[c]
    ensures var g := LastGap(parts.Keys, |plan.chunks|);
            Whole(|plan.chunks|, Overlay(plan, parts, start, g + 1)) == Concat(plan.chunks)
  {
    hide LastGap, Whole, Overlay;
    var g := LastGap(parts.Keys, |plan.chunks|);
    OwnOverlay(plan, parts, start, g + 1);
    OwnBytes(plan, Overlay(plan, parts, start, g + 1));
  }

  lemma OwnOverlay(plan: Plan, parts: map<nat, Bytes>, lo: nat, hi: nat)
    requires hi <= |plan.chunks| && forall c: nat | c < |plan.chunks| && c !in parts :: lo <= c < hi
    requires forall c <- parts | c < |plan.chunks| :: parts[c] == plan.chunks[c]
    ensures forall c: nat | c < |plan.chunks| ::
              c in Overlay(plan, parts, lo, hi) && Overlay(plan, parts, lo, hi)[c] == plan.chunks[c]
  {
  }

  ghost predicate ResendFails(plan: Plan, held: set<nat>, start: nat) {
    |plan.chunks| - 1 in held && GapsFrom(plan, held, start)
  }

  lemma SameArtifact(plan: Plan, start: nat, t: Transfer, outcome: Outcome, t': Transfer)
    requires start <= |plan.chunks| && Acceptable(plan) && Consistent(t, plan) && Ends(plan, start, t, outcome, t')
    requires GapsFrom(plan, Held(t, plan), start)
    ensures outcome == if ResendFails(plan, Held(t, plan), start) then Stopped(UnexpectedServerResponse) else Delivered
    ensures t'.artifacts == t.artifacts[plan.kind := Concat(plan.chunks)]
    ensures outcome == Delivered ==> KeyOf(plan) !in t'.chunks
  {
    hide Load, SameElsewhere, Whole, Shaped, StorageError, KeyOf, Overlay, Parts, Concat, Full, GapsFrom;
    var n, parts := |plan.chunks|, Parts(t, plan);
    OwnArtifact(plan, parts, start);
    var g := LastGap(parts.Keys, n);
    assert g == n - 1 <==> n - 1 !in parts.Keys;
  }

  lemma StillConsistent(plan: Plan, start: nat, t: Transfer, t': Transfer)
    requires start <= |plan.chunks| && Consistent(t, plan) && Compatible(t', plan)
    requires Parts(t', plan) == Overlay(plan, Parts(t, plan), start, |plan.chunks|)
    ensures Held(t', plan) == Held(t, plan) + Range(start, |plan.chunks|) && Consistent(t', plan)
  {
    hide Parts, Compatible;
  }

  /**
  Resuming the upload of the same artifact.  With room under the limit the call returns normally
  unless the resend fills the last gaps while the final chunk was already there: then the server has
  the whole artifact and the client stops with an error.
  */
  lemma ResumedUpload(plan: Plan, start: nat, window: nat, t: Transfer, fuel: nat)
    requires Acceptable(plan) && |plan.chunks| >= 2 && Consistent(t, plan)
    requires start <= |plan.chunks| && window >= 1 && fuel >= |plan.chunks| - start
    ensures var (outcome, t') := Session(plan, start, window, t, fuel);
            if outcome == TOO_LARGE then !Room(t, plan, start, |plan.chunks|) else Resumed(plan, start, t, outcome, t')
  {
    hide Session, Load, SameElsewhere, Whole, Shaped, StorageError, Room, Overlay, Parts, KeyOf, GapsFrom, Full;
    hide LastGap, Stored, CompletingOutcome, Range, Concat;
    SessionFrom(plan, start, window, t, fuel);
    var (outcome, t') := Session(plan, start, window, t, fuel);
    if outcome != TOO_LARGE {
      if GapsFrom(plan, Held(t, plan), start) {
        SameArtifact(plan, start, t, outcome, t');
      } else {
        StillConsistent(plan, start, t, t');
      }
    }
  }

  ghost predicate Resumed(plan: Plan, start: nat, t: Transfer, outcome: Outcome, t': Transfer)
    requires start <= |plan.chunks|
  {
    var held := Held(t, plan);
    && Load(t', plan, |plan.chunks|) <= Load(t, plan, start) && SameElsewhere(t, t', plan)
    && outcome == (if ResendFails(plan, held, start) then Stopped(UnexpectedServerResponse) else Delivered)
    && if GapsFrom(plan, held, start)
       then && t'.artifacts == t.artifacts[plan.kind := Concat(plan.chunks)]
            && (outcome == Delivered ==> KeyOf(plan) !in t'.chunks)
       else && t'.artifacts == t.artifacts && Held(t', plan) == held + Range(start, |plan.chunks|)
            && Consistent(t', plan) && (start < |plan.chunks| ==> KeyOf(plan) in t'.chunks)
            && (Range(start, |plan.chunks|) <= held ==> t'.bytesReceived == t.bytesReceived)
  }

  /** If none of the chunks from `next` on is held, there is room exactly if all their bytes fit. */
  lemma {:induction false} FreshRoom(plan: Plan, next: nat, t: Transfer)
    requires Shaped(plan) && |plan.chunks| >= 2 && Compatible(t, plan) && next <= |plan.chunks|
    requires forall c <- Held(t, plan) :: c < next
    requires t.bytesReceived <= MAX_TOTAL_TRANSFER_BYTES
    ensures Room(t, plan, next, |plan.chunks|) <==> Load(t, plan, next) <= MAX_TOTAL_TRANSFER_BYTES
    decreases |plan.chunks| - next
  {
    hide Shaped, Compatible, Process, RequestFor, Whole, Completion, Stored, SameElsewhere;
    assert plan.chunks[|plan.chunks|..] == [];
    if next < |plan.chunks| {
      assert plan.chunks[next..] == [plan.chunks[next]] + plan.chunks[next + 1..];
      if Fits(t, plan.chunks[next]) {
        var t' := Process(t, RequestFor(plan, next)).1;
        OneChunk(plan, next, t);
        if KeyOf(plan) !in t'.chunks {
          NothingHeld(plan, t', 0, |plan.chunks|);
        }
        FreshRoom(plan, next + 1, t');
      }
    }
  }

  /** A first upload: the artifact the server ends up with is the chunks put together. */
  lemma FreshUpload(plan: Plan, window: nat, t: Transfer, fuel: nat)
    requires Acceptable(plan) && KeyOf(plan) !in t.chunks && window >= 1 && fuel >= |plan.chunks|
    ensures t.bytesReceived <= MAX_TOTAL_TRANSFER_BYTES ==>
              (Room(t, plan, 0, |plan.chunks|) <==> Load(t, plan, 0) <= MAX_TOTAL_TRANSFER_BYTES)
    ensures var (outcome, t') := Session(plan, 0, window, t, fuel);
            && outcome == (if Room(t, plan, 0, |plan.chunks|) then Delivered else TOO_LARGE)
            && (outcome == Delivered ==>
                  && t'.artifacts == t.artifacts[plan.kind := Concat(plan.chunks)]
                  && KeyOf(plan) !in t'.chunks && SameElsewhere(t, t', plan)
                  && Load(t', plan, |plan.chunks|) <= Load(t, plan, 0))
  {
    hide Session, SameElsewhere, Room, Load, Concat, Overlay, Whole;
    var n := |plan.chunks|;
    if n >= 2 {
      assert 0 !in Held(t, plan) && n - 1 !in Held(t, plan);
      SessionFrom(plan, 0, window, t, fuel);
      ResumedUpload(plan, 0, window, t, fuel);
      if t.bytesReceived <= MAX_TOTAL_TRANSFER_BYTES {
        FreshRoom(plan, 0, t);
      }
    } else {
      SingleLoad(plan, t);
      SingleChunk(plan, window, t, fuel);
    }
  }

  /** An artifact of one chunk takes one message. */
  lemma SingleChunk(plan: Plan, window: nat, t: Transfer, fuel: nat)
    requires Shaped(plan) && |plan.chunks| == 1 && KeyOf(plan) !in t.chunks
    requires window >= 1 && fuel >= 1
    ensures Room(t, plan, 0, 1) <==> Fits(t, plan.chunks[0])
    ensures var (outcome, t') := Session(plan, 0, window, t, fuel);
            if Room(t, plan, 0, 1) then
              && outcome == CompletingOutcome(plan, 0, Concat(plan.chunks)) && outcome != TOO_LARGE
              && t'.artifacts == Stored(t.artifacts, plan.kind, Concat(plan.chunks))
              && KeyOf(plan) !in t'.chunks && SameElsewhere(t, t', plan)
              && Load(t', plan, 1) <= Load(t, plan, 0)
            else outcome == TOO_LARGE && t' == t
  {
    hide Session, FinalAck, ChunkAck, Play, Exchange, JudgeTurn, Shaped, Process, Concat, Stored, Completion;
    SingleExchange(plan, t);
    SessionStep(plan, 0, window, t, fuel);
    var t' := Exchange(plan, 0, 1, t).1;
    SessionDone(plan, 1, window, t', fuel - 1);
    SingleVerdict(plan, Concat(plan.chunks));
    SingleStored(plan, t);
    ConcatNothing<byte>();
  }

  lemma SingleLoad(plan: Plan, t: Transfer)
    requires |plan.chunks| == 1
    ensures Load(t, plan, 0) == t.bytesReceived + |plan.chunks[0]|
  {
    assert plan.chunks[0..] == plan.chunks && plan.chunks[1..] == [];
    assert Concat(plan.chunks) == plan.chunks[0] + Concat(plan.chunks[1..]) == plan.chunks[0];
  }

  lemma SingleStored(plan: Plan, t: Transfer)
    ensures SameElsewhere(t, t.(artifacts := Stored(t.artifacts, plan.kind, Concat(plan.chunks))), plan)
  {
    hide Concat, StorageError;
  }

  lemma SingleExchange(plan: Plan, t: Transfer)
    requires Shaped(plan) && |plan.chunks| == 1 && KeyOf(plan) !in t.chunks
    ensures Exchange(plan, 0, 1, t)
         == if Fits(t, plan.chunks[0]) then
              ([Completion(plan.kind, plan.index, Concat(plan.chunks))],
               t.(bytesReceived := t.bytesReceived + |plan.chunks[0]|,
                  artifacts := Stored(t.artifacts, plan.kind, Concat(plan.chunks))))
            else ([Refuse("TRANSFER_TOO_LARGE")], t)
    ensures plan.chunks[0..] == plan.chunks && plan.chunks[1..] == [] && Concat(plan.chunks) == plan.chunks[0]
  {
    hide StorageError, FinalAck, ChunkAck, Completion, Stored;
    assert plan.chunks[0] in plan.chunks && plan.chunks[0..] == plan.chunks == [plan.chunks[0]];
    assert Concat(plan.chunks) == plan.chunks[0] + Concat(plan.chunks[1..]) == plan.chunks[0];
    assert 0 !in Held(t, plan);
    Accepted(plan, 0, t);
    var (response, t') := Process(t, RequestFor(plan, 0));
    assert Exchange(plan, 1, 1, t') == ([], t');
    assert [response] + [] == [response];
  }

  lemma SingleVerdict(plan: Plan, data: Bytes)
    requires |plan.chunks| == 1
    ensures JudgeTurn(plan, 0, 1, Responses([Completion(plan.kind, plan.index, data)]))
         == match StorageError(plan.kind, data)
            case Some(code) => Fail(ServerError(code, None))
            case None => Advance
    ensures JudgeTurn(plan, 0, 1, Responses([Refuse("TRANSFER_TOO_LARGE")]))
         == Fail(ServerError("TRANSFER_TOO_LARGE", None))
  {
    hide StorageError, FinalAck, ChunkAck;
    var response := Completion(plan.kind, plan.index, data);
    CompletionCode(plan.kind, plan.index, data);
    if StorageError(plan.kind, data).None? {
      assert FirstMatch(plan, response.ackMessage, 0, 1) == Some(0);
      assert Judge(plan, 0, 1, [response][1..], {} + {0}) == Advance;
    }
  }

  lemma ThreeChunks(a: Bytes, b: Bytes, c: Bytes)
    ensures Concat([a, b, c]) == a + b + c && Concat([a, b, c][1..]) == b + c
  {
    assert [a, b, c][1..] == [b, c] && [b, c][1..] == [c];
    assert Concat([c]) == c && Concat([b, c]) == b + c;
  }

  lemma ThreeIsAcceptable(kind: nat)
    requires kind == 0 || kind == LIVENESS_KIND
    ensures Acceptable(Plan(kind, 0, 1, [[1], [2], [3]])) && Concat([[1], [2], [3]]) == [1, 2, 3]
  {
    ThreeChunks([1], [2], [3]);
  }

  lemma ThreeHaveRoom(plan: Plan, start: nat, t: Transfer)
    requires Shaped(plan) && plan.chunks == [[1], [2], [3]] && start <= 1 && t.bytesReceived == 2
    ensures Room(t, plan, start, 3)
  {
    hide Room, Shaped, Concat;
    ThreeChunks([1], [2], [3]);
    assert plan.chunks[0..] == plan.chunks;
    LoadLeavesRoom(plan, start, t);
  }

  /** An example of the failure: chunks 0 and 2 are there, the client resends from the gap at 1. */
  lemma ResendOverGapFails(t: Transfer)
    requires t == Transfer(map[(0, 0) := Entry(3, map[0 := [1], 2 := [3]])], map[], 2)
    ensures var (outcome, t') := Session(Plan(0, 0, 1, [[1], [2], [3]]), 1, 3, t, 3);
            outcome == Stopped(UnexpectedServerResponse) && t'.artifacts == map[0 := [1, 2, 3]]
  {
    hide Session, Shaped, StorageError, Overlay, SameElsewhere, Concat, Room, Load;
    var plan := Plan(0, 0, 1, [[1], [2], [3]]);
    ThreeIsAcceptable(0);
    ThreeChunks([1], [2], [3]);
    ThreeHaveRoom(plan, 1, t);
    assert Parts(t, plan) == map[0 := [1], 2 := [3]];
    assert 1 !in Held(t, plan) && 0 in Held(t, plan) && 2 in Held(t, plan);
    ResumedUpload(plan, 1, 3, t, 3);
    assert Concat(plan.chunks) == [1, 2, 3] && t.artifacts[0 := Concat(plan.chunks)] == map[0 := [1, 2, 3]];
  }

  // ---- An entry left by another plan ----

  /**
  An entry of the same number of chunks, left by another recording: chunks of both end up in one
  artifact, while the client stops with an error.
  */
  lemma LeftoverChunksMix(t: Transfer)
    requires t == Transfer(map[(8, 0) := Entry(3, map[1 := [9], 2 := [9]])], map[], 2)
    ensures var (outcome, t') := Session(Plan(8, 0, 1, [[1], [2], [3]]), 0, 3, t, 3);
            outcome == Stopped(UnexpectedServerResponse) && t'.artifacts == map[8 := [1, 9, 9]]
  {
    hide Session, SameElsewhere, Overlay, LastGap, Whole, Shaped, Concat, Room, Load;
    var plan := Plan(8, 0, 1, [[1], [2], [3]]);
    ThreeIsAcceptable(8);
    ThreeHaveRoom(plan, 0, t);
    var parts := map[1 := [9], 2 := [9]];
    assert Parts(t, plan) == parts && 0 !in parts && 1 in parts && 2 in parts;
    SessionFrom(plan, 0, 3, t, 3);
    assert LastGap(parts.Keys, 3) == 0;
    MixedArtifact(plan, parts);
  }

  lemma MixedArtifact(plan: Plan, parts: map<nat, Bytes>)
    requires plan == Plan(8, 0, 1, [[1], [2], [3]]) && parts == map[1 := [9], 2 := [9]]
    ensures Whole(3, Overlay(plan, parts, 0, 1)) == [1, 9, 9]
  {
    hide Whole;
    var mixed := Overlay(plan, parts, 0, 1);
    assert mixed[0] == [1] && mixed[1] == [9] && mixed[2] == [9];
    var other := Plan(8, 0, 1, [[1], [9], [9]]);
    OwnBytes(other, mixed);
    ThreeChunks([1], [9], [9]);
  }

  /** The key is held by an entry of another number of chunks. */
  predicate Stale(t: Transfer, plan: Plan) {
    KeyOf(plan) in t.chunks && t.chunks[KeyOf(plan)].chunkTotal != |plan.chunks|
  }

  lemma {:induction false} StaleExchange(plan: Plan, next: nat, end: nat, t: Transfer)
    requires Shaped(plan) && next <= end <= |plan.chunks| && Stale(t, plan)
    ensures var (responses, t') := Exchange(plan, next, end, t);
            && t' == t
            && (next < end ==> responses[0] == if Fits(t, plan.chunks[next]) then Retry(RequestFor(plan, next))
                                               else Refuse("TRANSFER_TOO_LARGE"))
    decreases end - next
  {
    if next < end {
      assert plan.chunks[next] in plan.chunks;
      StaleExchange(plan, next + 1, end, t);
    }
  }

  /**
  An entry for the same key with another chunk total makes the server ask for every chunk again and
  the client obey: however many turns are played, the call has not returned and nothing has changed.
  Only a chunk over the transfer limit ends it.
  */
  lemma {:induction false} StaleEntryNeverEnds(plan: Plan, start: nat, window: nat, t: Transfer, fuel: nat)
    requires Shaped(plan) && start < |plan.chunks| && Stale(t, plan) && window >= 1
    ensures Session(plan, start, window, t, fuel)
         == (if fuel == 0 || Fits(t, plan.chunks[start]) then Interrupted
             else Stopped(ServerError("TRANSFER_TOO_LARGE", None)), t)
    decreases fuel
  {
    hide Session, Exchange, JudgeTurn, Shaped, KeyOf, Retry, Fits, Stale;
    if fuel == 0 {
      NoTurns(plan, start, window, t);
    } else {
      var end := WindowEnd(plan, start, window);
      StaleExchange(plan, start, end, t);
      SessionStep(plan, start, window, t, fuel);
      FirstVerdict(plan, start, end, Exchange(plan, start, end, t).0);
      if Fits(t, plan.chunks[start]) {
        StaleEntryNeverEnds(plan, start, 1, t, fuel - 1);
      }
    }
  }

  lemma FirstVerdict(plan: Plan, start: nat, end: nat, responses: seq<Response>)
    requires start < |plan.chunks| && responses != []
    ensures responses[0] == Retry(RequestFor(plan, start)) ==>
              JudgeTurn(plan, start, end, Responses(responses)) == RetryAt(start)
    ensures responses[0] == Refuse("TRANSFER_TOO_LARGE") ==>
              JudgeTurn(plan, start, end, Responses(responses)) == Fail(ServerError("TRANSFER_TOO_LARGE", None))
  {
  }

  lemma NoTurns(plan: Plan, start: nat, window: nat, t: Transfer)
    requires start < |plan.chunks|
    ensures Session(plan, start, window, t, 0) == (Interrupted, t)
  {
  }

  /** More turns change nothing once a call has ended. */
  lemma {:induction false} FuelToSpare(plan: Plan, start: nat, window: nat, t: Transfer, fuel: nat, more: nat)
    requires fuel <= more && Session(plan, start, window, t, fuel).0 != Interrupted
    ensures Session(plan, start, window, t, more) == Session(plan, start, window, t, fuel)
    decreases fuel
  {
    hide Session, Exchange, JudgeTurn;
    if start >= |plan.chunks| {
      SessionDone(plan, start, window, t, fuel);
      SessionDone(plan, start, window, t, more);
    } else {
      NoTurns(plan, start, window, t);
      var end := WindowEnd(plan, start, window);
      var (responses, t') := Exchange(plan, start, end, t);
      SessionStep(plan, start, window, t, fuel);
      SessionStep(plan, start, window, t, more);
      match JudgeTurn(plan, start, end, Responses(responses))
      case Advance => FuelToSpare(plan, end, window, t', fuel - 1, more - 1);
      case RetryAt(c) => FuelToSpare(plan, c, 1, t', fuel - 1, more - 1);
      case Fail(_) =>
    }
  }

  lemma WellFormedEntry(t: Transfer, plan: Plan)
    requires WellFormed(t) && !Stale(t, plan) && |plan.chunks| >= 1
    ensures Compatible(t, plan) && (|plan.chunks| == 1 ==> KeyOf(plan) !in t.chunks)
  {
    if KeyOf(plan) !in t.chunks {
      assert 0 !in Held(t, plan);
    }
  }

  lemma HasChunks(plan: Plan)
    requires Shaped(plan)
    ensures |plan.chunks| >= 1
  {
  }

  /**
  A call with turns to spare ends, unless the entry is stale; with an error if a chunk it comes to
  would go over the transfer limit.
  */
  lemma CallEnds(plan: Plan, start: nat, window: nat, t: Transfer, fuel: nat)
    requires Shaped(plan) && WellFormed(t) && !Stale(t, plan)
    requires start < |plan.chunks| && window >= 1 && fuel >= |plan.chunks| - start
    ensures var outcome := Session(plan, start, window, t, fuel).0;
            outcome.Stopped? || (outcome == Delivered && Room(t, plan, start, |plan.chunks|))
  {
    hide Session, Shaped, Room, WellFormed, Stale, Overlay, Whole, SameElsewhere, Load, Compatible, GapsFrom;
    hide LastGap, StorageError;
    WellFormedEntry(t, plan);
    if |plan.chunks| == 1 {
      SingleChunk(plan, window, t, fuel);
    } else {
      CompatibleHasGap(t, plan);
      SessionFrom(plan, start, window, t, fuel);
    }
  }

  /**
  A call never ends, however many turns are played, if and only if the server holds an entry of
  another number of chunks for its key and the first chunk keeps to the transfer limit.
  */
  lemma NeverEndsIffStale(plan: Plan, start: nat, window: nat, t: Transfer)
    requires Shaped(plan) && WellFormed(t) && start < |plan.chunks| && window >= 1
    ensures (forall fuel: nat :: Session(plan, start, window, t, fuel).0 == Interrupted)
       <==> Stale(t, plan) && Fits(t, plan.chunks[start])
  {
    hide Session, Shaped, Room, WellFormed, Stale, Fits;
    if Stale(t, plan) {
      forall fuel: nat ensures Fits(t, plan.chunks[start]) ==> Session(plan, start, window, t, fuel).0 == Interrupted {
        StaleEntryNeverEnds(plan, start, window, t, fuel);
      }
      StaleEntryNeverEnds(plan, start, window, t, 1);
    } else {
      CallEnds(plan, start, window, t, |plan.chunks|);
    }
  }

  lemma {:induction false} ExchangeKeepsWellFormed(plan: Plan, next: nat, end: nat, t: Transfer)
    requires WellFormed(t) && next <= end <= |plan.chunks|
    ensures WellFormed(Exchange(plan, next, end, t).1)
    decreases end - next
  {
    hide WellFormed, Process;
    if next < end {
      ProcessKeepsWellFormed(t, RequestFor(plan, next));
      ExchangeKeepsWellFormed(plan, next + 1, end, Process(t, RequestFor(plan, next)).1);
    }
  }

  lemma {:induction false} SessionKeepsWellFormed(plan: Plan, next: nat, window: nat, t: Transfer, fuel: nat)
    requires WellFormed(t)
    ensures WellFormed(Session(plan, next, window, t, fuel).1)
    decreases fuel
  {
    hide WellFormed, Exchange, JudgeTurn;
    if next < |plan.chunks| && fuel > 0 {
      var end := WindowEnd(plan, next, window);
      var (responses, t') := Exchange(plan, next, end, t);
      ExchangeKeepsWellFormed(plan, next, end, t);
      match JudgeTurn(plan, next, end, Responses(responses))
      case Advance => SessionKeepsWellFormed(plan, end, window, t', fuel - 1);
      case RetryAt(c) => SessionKeepsWellFormed(plan, c, 1, t', fuel - 1);
      case Fail(_) =>
    }
  }

  /**
  Whatever entry the server holds and however many turns it takes: a call from the start that returns
  normally leaves the plan's own chunks as the artifact, and nothing of it to complete.
  */
  lemma DeliveredFromStart(plan: Plan, window: nat, t: Transfer, fuel: nat)
    requires Shaped(plan) && WellFormed(t) && window >= 1
    requires Session(plan, 0, window, t, fuel).0 == Delivered
    ensures var t' := Session(plan, 0, window, t, fuel).1;
            && t'.artifacts == t.artifacts[plan.kind := Concat(plan.chunks)]
            && KeyOf(plan) !in t'.chunks && SameElsewhere(t, t', plan)
  {
    hide Session, Room, WellFormed, Shaped, Fits, Whole, StorageError, SameElsewhere, Load, Overlay, LastGap;
    hide Compatible;
    var n := |plan.chunks|;
    HasChunks(plan);
    if Stale(t, plan) {
      StaleEntryNeverEnds(plan, 0, window, t, fuel);
    }
    var more := if fuel < n then n else fuel;
    FuelToSpare(plan, 0, window, t, fuel, more);
    CallEnds(plan, 0, window, t, more);
    WellFormedEntry(t, plan);
    if n == 1 {
      SingleChunk(plan, window, t, more);
    } else {
      SessionFrom(plan, 0, window, t, more);
      AllNew(plan, Parts(t, plan));
    }
  }

  /** From the start, an artifact completed by its last chunk has only new chunks. */
  lemma AllNew(plan: Plan, parts: map<nat, Bytes>)
    ensures GapsFrom(plan, parts.Keys, 0)
    ensures Whole(|plan.chunks|, Overlay(plan, parts, 0, |plan.chunks|)) == Concat(plan.chunks)
  {
    OwnBytes(plan, Overlay(plan, parts, 0, |plan.chunks|));
  }
}
