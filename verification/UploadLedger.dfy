/**
A list of resends against the server's transfer state, reduced to what the server holds of each plan:
nothing, or an incomplete set of chunks.
*/
module UploadLedger {
  import opened Wrappers
  import opened ChunkedUpload
  import opened TransferServer
  import opened TransferStatus
  import opened UploadResend
  import opened UploadWindows
  import opened UploadEndToEnd

  // ---- A list of resends against the server ----

  /** The calls one after another, up to the first that does not return normally. */
  function JobsSession(jobs: seq<Job>, window: nat, t: Transfer, fuel: nat): (Outcome, Transfer) {
    if jobs == [] then (Delivered, t)
    else if jobs[0].plan.chunks == [] then (EmptyPlan, t)
    else
      var (outcome, t') := Session(jobs[0].plan, ClampStart(jobs[0].plan, jobs[0].start), window, t, fuel);
      if outcome != Delivered then (outcome, t') else JobsSession(jobs[1..], window, t', fuel)
  }

  lemma {:induction false} JobsSplit(first: seq<Job>, second: seq<Job>, window: nat, t: Transfer, fuel: nat)
    ensures var (outcome, t') := JobsSession(first, window, t, fuel);
            JobsSession(first + second, window, t, fuel)
            == if outcome == Delivered then JobsSession(second, window, t', fuel) else (outcome, t')
  {
    hide Session;
    if first == [] {
      assert first + second == second;
    } else {
      assert (first + second)[1..] == first[1..] + second;
      if first[0].plan.chunks != [] {
        var t' := Session(first[0].plan, ClampStart(first[0].plan, first[0].start), window, t, fuel).1;
        JobsSplit(first[1..], second, window, t', fuel);
      }
    }
  }

  // ---- What the server holds ----

  /** The chunks held of an incomplete artifact, or none if it has no entry. */
  function Ledger(t: Transfer, plan: Plan): Option<set<nat>> {
    if KeyOf(plan) in t.chunks then Some(Held(t, plan)) else None
  }

  /** The plan is acceptable, and an entry of it is its own. */
  ghost predicate Sound(t: Transfer, plan: Plan) {
    Acceptable(plan) && Consistent(t, plan) && (|plan.chunks| == 1 ==> KeyOf(plan) !in t.chunks)
  }

  // What a resend does to the ledger, unless it breaks off.
  datatype Effect = Fails | Leaves(held: Option<set<nat>>)

  function HeldOf(held: Option<set<nat>>): set<nat> {
    match held
    case None => {}
    case Some(h) => h
  }

  ghost function JobEffect(plan: Plan, held: Option<set<nat>>, start: nat): Effect {
    var h := HeldOf(held);
    if !GapsFrom(plan, h, start) then Leaves(Some(h + Range(start, |plan.chunks|)))
    else if |plan.chunks| - 1 in h then Fails
    else Leaves(None)
  }

  /** The new bytes of a resend are at most those of the artifact, and none if all it sends is held. */
  ghost function JobCost(plan: Plan, held: Option<set<nat>>, start: nat): nat {
    if held.Some? && Range(start, |plan.chunks|) <= held.value then 0 else |Concat(plan.chunks)|
  }

  lemma {:induction false} TailIsShorter(chunks: seq<Bytes>, start: nat)
    requires start <= |chunks|
    ensures |Concat(chunks[start..])| <= |Concat(chunks)|
  {
    if start == 0 {
      assert chunks[0..] == chunks;
    } else {
      assert chunks[start..] == chunks[1..][start - 1..];
      TailIsShorter(chunks[1..], start - 1);
    }
  }

  /** The transfer limit leaves room for so many bytes. */
  predicate RoomFor(t: Transfer, bytes: nat) {
    t.bytesReceived + bytes <= MAX_TOTAL_TRANSFER_BYTES
  }

  /** One resend of a sound plan has its effect on the ledger, and on nothing else, if there is room. */
  lemma OneJob(plan: Plan, start: nat, window: nat, t: Transfer, fuel: nat)
    requires Sound(t, plan) && start < |plan.chunks| && window >= 1 && fuel >= |plan.chunks|
    ensures var (outcome, t') := Session(plan, start, window, t, fuel);
            if outcome == TOO_LARGE then !RoomFor(t, |Concat(plan.chunks)|)
            else
              && SameElsewhere(t, t', plan)
              && match JobEffect(plan, Ledger(t, plan), start)
                 case Fails => outcome == Stopped(UnexpectedServerResponse)
                 case Leaves(held) =>
                   && outcome == Delivered && Ledger(t', plan) == held && Sound(t', plan)
                   && t'.bytesReceived <= t.bytesReceived + JobCost(plan, Ledger(t, plan), start)
                   && t'.artifacts == if held.None? then t.artifacts[plan.kind := Concat(plan.chunks)] else t.artifacts
  {
    hide Session, SameElsewhere, Shaped, StorageError, GapsFrom, Range, Parts, KeyOf, Room;
    var n := |plan.chunks|;
    TailIsShorter(plan.chunks, start);
    SoundIsShaped(t, plan);
    if RoomFor(t, |Concat(plan.chunks)|) {
      LoadLeavesRoom(plan, start, t);
    }
    var t' := Session(plan, start, window, t, fuel).1;
    LoadShrinks(plan, t', n);
    if n == 1 {
      FreshUpload(plan, window, t, fuel);
      if Session(plan, start, window, t, fuel).0 != TOO_LARGE {
        NoEntry(t', plan);
      }
      NoEntry(t, plan);
    } else {
      ResumedUpload(plan, start, window, t, fuel);
      var outcome := Session(plan, start, window, t, fuel).0;
      if outcome != TOO_LARGE && GapsFrom(plan, Held(t, plan), start) && n - 1 !in Held(t, plan) {
        NoEntry(t', plan);
      }
    }
    HeldWithoutEntry(t, plan);
  }

  lemma SoundIsShaped(t: Transfer, plan: Plan)
    requires Sound(t, plan)
    ensures Shaped(plan)
  {
  }

  lemma HeldWithoutEntry(t: Transfer, plan: Plan)
    ensures HeldOf(Ledger(t, plan)) == Held(t, plan)
  {
  }

  lemma NoEntry(t: Transfer, plan: Plan)
    requires KeyOf(plan) !in t.chunks && |plan.chunks| >= 1
    ensures Consistent(t, plan) && Ledger(t, plan) == None && Held(t, plan) == {}
    ensures |plan.chunks| == 1 ==> GapsFrom(plan, {}, 0)
  {
    assert 0 !in Held(t, plan);
  }

  // ---- Several resends of one plan ----

  ghost function BlockEffect(plan: Plan, held: Option<set<nat>>, starts: seq<int>): Effect
    requires forall i | 0 <= i < |starts| :: starts[i] >= 0
    decreases |starts|
  {
    if starts == [] then Leaves(held)
    else
      match JobEffect(plan, held, starts[0])
      case Fails => Fails
      case Leaves(h) => BlockEffect(plan, h, starts[1..])
  }

  ghost function BlockCost(plan: Plan, held: Option<set<nat>>, starts: seq<int>): nat
    requires forall i | 0 <= i < |starts| :: starts[i] >= 0
    decreases |starts|
  {
    if starts == [] then 0
    else
      match JobEffect(plan, held, starts[0])
      case Fails => 0
      case Leaves(h) => JobCost(plan, held, starts[0]) + BlockCost(plan, h, starts[1..])
  }

  ghost predicate InRange(plan: Plan, starts: seq<int>) {
    forall i | 0 <= i < |starts| :: 0 <= starts[i] < |plan.chunks|
  }

  /** The resends of one plan have their effect on its ledger, and on nothing else. */
  lemma {:induction false} OneBlock(plan: Plan, starts: seq<int>, window: nat, t: Transfer, fuel: nat)
    requires Sound(t, plan) && InRange(plan, starts) && window >= 1 && fuel >= |plan.chunks|
    ensures var (outcome, t') := JobsSession(IndexJobs(starts, plan), window, t, fuel);
            if outcome == TOO_LARGE
            then !RoomFor(t, BlockCost(plan, Ledger(t, plan), starts) + |Concat(plan.chunks)|)
            else
              && SameElsewhere(t, t', plan)
              && match BlockEffect(plan, Ledger(t, plan), starts)
                 case Fails => outcome == Stopped(UnexpectedServerResponse)
                 case Leaves(held) =>
                   && outcome == Delivered && Ledger(t', plan) == held && Sound(t', plan)
                   && t'.bytesReceived <= t.bytesReceived + BlockCost(plan, Ledger(t, plan), starts)
                   && (t'.artifacts == t.artifacts || t'.artifacts == t.artifacts[plan.kind := Concat(plan.chunks)])
                   && (starts != [] && held == None ==> t'.artifacts == t.artifacts[plan.kind := Concat(plan.chunks)])
    decreases |starts|
  {
    hide Session, SameElsewhere, Sound, Ledger, JobEffect, JobCost, Concat;
    if starts == [] {
      NothingChanges(t, plan);
    } else {
      var start, rest := starts[0], starts[1..];
      assert start in starts && InRange(plan, rest);
      ClampInside(plan, start);
      var jobs := IndexJobs(starts, plan);
      assert jobs[0] == Job(plan, start) && jobs[1..] == IndexJobs(rest, plan);
      OneJob(plan, start, window, t, fuel);
      var t1 := Session(plan, start, window, t, fuel).1;
      if Session(plan, start, window, t, fuel).0 != TOO_LARGE && JobEffect(plan, Ledger(t, plan), start).Leaves? {
        OneBlock(plan, rest, window, t1, fuel);
        var (outcome, t2) := JobsSession(jobs[1..], window, t1, fuel);
        if outcome != TOO_LARGE {
          SameElsewhereTwice(t, t1, t2, plan);
        }
      }
    }
  }

  lemma NothingChanges(t: Transfer, plan: Plan)
    ensures SameElsewhere(t, t, plan)
  {
  }

  lemma ClampInside(plan: Plan, start: int)
    requires 0 <= start < |plan.chunks|
    ensures ClampStart(plan, start) == start
  {
  }

  // ---- The resends of a list of gaps ----

  /** Resends of what is held, behind a gap, change nothing. */
  lemma {:induction false} LateBlock(plan: Plan, m: nat, starts: seq<int>)
    requires 0 < m < |plan.chunks| && forall i | 0 <= i < |starts| :: m <= starts[i] < |plan.chunks|
    ensures var held := Some(Range(m, |plan.chunks|));
            BlockEffect(plan, held, starts) == Leaves(held) && BlockCost(plan, held, starts) == 0
  {
    if starts != [] {
      var n := |plan.chunks|;
      assert starts[0] in starts;
      LateBlock(plan, m, starts[1..]);
      assert 0 !in Range(m, n) && !GapsFrom(plan, Range(m, n), starts[0]);
      assert Range(m, n) + Range(starts[0], n) == Range(m, n);
    }
  }

  /**
  Resends in ascending order of an artifact without an entry.  One from the start completes it; the
  first from further on opens an entry that none of them completes.
  */
  lemma FreshBlock(plan: Plan, starts: seq<int>)
    requires |plan.chunks| >= 2 && InRange(plan, starts) && Rising(starts)
    ensures BlockEffect(plan, None, starts)
         == (if starts == [] || starts == [0] then Leaves(None)
             else Leaves(Some(Range(if starts[0] == 0 then starts[1] else starts[0], |plan.chunks|))))
    ensures BlockCost(plan, None, starts) <= 2 * |Concat(plan.chunks)|
  {
    if starts != [] {
      assert starts[0] in starts;
      if starts[0] > 0 {
        PartBlock(plan, starts);
      } else {
        assert GapsFrom(plan, {}, 0);
        var rest := starts[1..];
        if rest != [] {
          assert rest[0] > starts[0];
          PartBlock(plan, rest);
        }
      }
    }
  }

  lemma PartBlock(plan: Plan, starts: seq<int>)
    requires |plan.chunks| >= 2 && InRange(plan, starts) && Rising(starts) && starts != [] && starts[0] > 0
    ensures BlockEffect(plan, None, starts) == Leaves(Some(Range(starts[0], |plan.chunks|)))
    ensures BlockCost(plan, None, starts) <= |Concat(plan.chunks)|
  {
    var n, m := |plan.chunks|, starts[0];
    assert m in starts;
    assert 0 !in HeldOf(None) && !GapsFrom(plan, {}, m);
    assert {} + Range(m, n) == Range(m, n);
    LateBlock(plan, m, starts[1..]);
  }

  /** The indices that an incomplete artifact lacks. */
  function Gaps(plan: Plan, parts: map<nat, Bytes>): seq<int> {
    MissingBelow(parts, |plan.chunks|)
  }

  lemma GapsShape(plan: Plan, parts: map<nat, Bytes>)
    requires |plan.chunks| >= 2 && !Full(plan, parts.Keys)
    ensures var gaps := Gaps(plan, parts);
            && gaps != [] && InRange(plan, gaps) && Rising(gaps)
            && GapsFrom(plan, parts.Keys, gaps[0])
            && (|plan.chunks| - 1 !in parts.Keys <==> gaps[|gaps| - 1] == |plan.chunks| - 1)
            && (gaps == [|plan.chunks| - 1] ==> |plan.chunks| - 1 !in parts.Keys)
  {
    var n, gaps := |plan.chunks|, Gaps(plan, parts);
    MissingExactly(parts, n);
    MissingRises(parts, n);
    var c: nat :| c < n && c !in parts;
    assert c in gaps;
    forall c: nat | c < n && c !in parts ensures c >= gaps[0] {
      assert c in gaps;
    }
    assert gaps[|gaps| - 1] in gaps;
    if n - 1 !in parts {
      assert n - 1 in gaps;
    }
  }

  // What a list of resends leaves of an artifact: nothing missing, or an entry without its start.
  ghost predicate IsStuck(plan: Plan, held: Option<set<nat>>) {
    held.Some? && exists m: nat :: 0 < m < |plan.chunks| && held.value == Range(m, |plan.chunks|)
  }

  /**
  All gaps of an incomplete artifact resent in order.  It fails if the last chunk was held.
  Otherwise the first resend completes the artifact, and every further one opens an entry again.
  */
  lemma GapBlock(plan: Plan, parts: map<nat, Bytes>)
    requires |plan.chunks| >= 2 && !Full(plan, parts.Keys)
    ensures var gaps := Gaps(plan, parts);
            && InRange(plan, gaps)
            && BlockCost(plan, Some(parts.Keys), gaps) <= 2 * |Concat(plan.chunks)|
            && match BlockEffect(plan, Some(parts.Keys), gaps)
               case Fails => |plan.chunks| - 1 in parts.Keys
               case Leaves(held) =>
                 && |plan.chunks| - 1 !in parts.Keys
                 && if gaps == [|plan.chunks| - 1] then held == None else IsStuck(plan, held)
  {
    hide Gaps, GapsFrom, Full;
    var n, gaps := |plan.chunks|, Gaps(plan, parts);
    GapsShape(plan, parts);
    var first := JobEffect(plan, Some(parts.Keys), gaps[0]);
    if n - 1 in parts.Keys {
      assert first == Fails;
    } else {
      assert first == Leaves(None);
      var rest := gaps[1..];
      if rest == [] {
        assert gaps == [n - 1] && BlockEffect(plan, None, rest) == Leaves(None);
      } else {
        assert rest[0] > gaps[0];
        PartBlock(plan, rest);
      }
    }
  }

  /** The same after the whole artifact was sent: the entry opens again at its first gap but zero. */
  lemma GapBlockAfterWhole(plan: Plan, gaps: seq<int>)
    requires |plan.chunks| >= 2 && InRange(plan, gaps) && Rising(gaps) && gaps != []
    requires gaps[|gaps| - 1] == |plan.chunks| - 1
    ensures BlockCost(plan, None, gaps) <= 2 * |Concat(plan.chunks)|
    ensures match BlockEffect(plan, None, gaps)
            case Fails => false
            case Leaves(held) => IsStuck(plan, held)
  {
    FreshBlock(plan, gaps);
    assert gaps[0] in gaps;
    if gaps[0] == 0 {
      assert |gaps| >= 2 && gaps[1] in gaps && gaps[1] > gaps[0];
    }
  }

  /** A stuck artifact is listed with the gaps up to its entry, and resending the first of them fails. */
  lemma StuckFails(plan: Plan, parts: map<nat, Bytes>)
    requires |plan.chunks| >= 2 && IsStuck(plan, Some(parts.Keys))
    ensures !Full(plan, parts.Keys) && |plan.chunks| - 1 in parts.Keys
    ensures BlockEffect(plan, Some(parts.Keys), Gaps(plan, parts)) == Fails
    ensures BlockCost(plan, Some(parts.Keys), Gaps(plan, parts)) == 0
  {
    var m: nat :| 0 < m < |plan.chunks| && parts.Keys == Range(m, |plan.chunks|);
    assert 0 !in parts.Keys;
    GapsShape(plan, parts);
  }
}
