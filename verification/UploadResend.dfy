/**
The resend loops of the NFC and liveness phases: `resendMissingNFCData` and
`resendMissingLivenessData` turn the server's list of missing data into uploads, one after another.
*/
module UploadResend {
  import opened Wrappers
  import opened ChunkedUpload
  import opened UploadDelivery

  datatype MissingChunks = MissingChunks(kind: int, index: int, chunkIndices: seq<int>)

  datatype MissingNfcData = MissingNfcData(artifacts: seq<string>, chunks: seq<MissingChunks>)

  // One call of the upload loop.
  datatype Job = Job(plan: Plan, start: int)

  // ---- Specification ----

  function ArtifactKind(artifact: string): Option<nat> {
    match artifact
    case "dg1" => Some(0)
    case "dg2" => Some(1)
    case "sod" => Some(2)
    case _ => None
  }

  predicate DistinctKinds(plans: seq<Plan>) {
    forall i, j | 0 <= i < j < |plans| :: plans[i].kind != plans[j].kind
  }

  /** The plan of a kind; at most one exists when the kinds are distinct. */
  function PlanOfKind(plans: seq<Plan>, kind: int): (r: Option<Plan>)
    ensures r.Some? ==> r.value in plans && r.value.kind == kind
    ensures r.None? ==> forall p <- plans :: p.kind != kind
  {
    if plans == [] then None
    else if plans[0].kind == kind then Some(plans[0])
    else PlanOfKind(plans[1..], kind)
  }

  function Insert(x: int, s: seq<int>): (r: seq<int>)
    ensures multiset(r) == multiset{x} + multiset(s)
  {
    if s == [] || x <= s[0] then [x] + s
    else
      assert s == [s[0]] + s[1..];
      [s[0]] + Insert(x, s[1..])
  }

  function Sorted(s: seq<int>): (r: seq<int>)
    ensures multiset(r) == multiset(s)
  {
    if s == [] then []
    else
      assert s == [s[0]] + s[1..];
      Insert(s[0], Sorted(s[1..]))
  }

  ghost predicate NeverFalls(s: seq<int>) {
    forall i, j | 0 <= i < j < |s| :: s[i] <= s[j]
  }

  lemma {:induction false} InsertKeepsOrder(x: int, s: seq<int>)
    requires NeverFalls(s)
    ensures NeverFalls(Insert(x, s)) && forall y <- Insert(x, s) :: y == x || y in s
  {
    hide NeverFalls;
    if s == [] || x <= s[0] {
      LeastFirst(x, s);
    } else {
      assert s == [s[0]] + s[1..];
      RestNeverFalls(s);
      InsertKeepsOrder(x, s[1..]);
      BoundsRest(s[0], Insert(x, s[1..]));
    }
  }

  lemma LeastFirst(x: int, s: seq<int>)
    requires NeverFalls(s) && (s == [] || x <= s[0])
    ensures NeverFalls([x] + s)
  {
  }

  lemma RestNeverFalls(s: seq<int>)
    requires NeverFalls(s) && s != []
    ensures NeverFalls(s[1..]) && forall y <- s[1..] :: s[0] <= y
  {
  }

  lemma BoundsRest(x: int, rest: seq<int>)
    requires NeverFalls(rest) && forall y <- rest :: x <= y
    ensures NeverFalls([x] + rest)
  {
    assert rest != [] ==> rest[0] in rest;
  }

  /** In ascending order. */
  lemma {:induction false} SortedNeverFalls(s: seq<int>)
    ensures NeverFalls(Sorted(s)) && multiset(Sorted(s)) == multiset(s)
  {
    hide NeverFalls;
    if s == [] {
      OneNeverFalls();
    } else {
      SortedNeverFalls(s[1..]);
      InsertKeepsOrder(s[0], Sorted(s[1..]));
    }
  }

  lemma OneNeverFalls()
    ensures NeverFalls([])
  {
  }

  function ArtifactPlan(artifact: string, plans: seq<Plan>): Option<Plan> {
    match ArtifactKind(artifact)
    case None => None
    case Some(kind) => PlanOfKind(plans, kind)
  }

  function ArtifactJobs(artifacts: seq<string>, plans: seq<Plan>): seq<Job> {
    if artifacts == [] then []
    else
      match ArtifactPlan(artifacts[0], plans)
      case None => ArtifactJobs(artifacts[1..], plans)
      case Some(plan) => [Job(plan, 0)] + ArtifactJobs(artifacts[1..], plans)
  }

  function IndexJobs(indices: seq<int>, plan: Plan): seq<Job> {
    if indices == [] then []
    else if 0 <= indices[0] < |plan.chunks| then [Job(plan, indices[0])] + IndexJobs(indices[1..], plan)
    else IndexJobs(indices[1..], plan)
  }

  function ChunkJobs(missing: seq<MissingChunks>, plans: seq<Plan>): seq<Job> {
    if missing == [] then []
    else
      match PlanOfKind(plans, missing[0].kind)
      case None => ChunkJobs(missing[1..], plans)
      case Some(plan) => IndexJobs(Sorted(missing[0].chunkIndices), plan) + ChunkJobs(missing[1..], plans)
  }

  function NfcJobs(missing: MissingNfcData, plans: seq<Plan>): seq<Job> {
    ArtifactJobs(missing.artifacts, plans) + ChunkJobs(missing.chunks, plans)
  }

  function LivenessJobs(missing: seq<MissingChunks>, plan: Plan): seq<Job> {
    if missing == [] then [Job(plan, 0)] else LivenessChunkJobs(missing, plan)
  }

  function LivenessChunkJobs(missing: seq<MissingChunks>, plan: Plan): seq<Job> {
    if missing == [] then []
    else if missing[0].kind != LIVENESS_KIND then LivenessChunkJobs(missing[1..], plan)
    else IndexJobs(Sorted(missing[0].chunkIndices), plan) + LivenessChunkJobs(missing[1..], plan)
  }

  /** An upload from a listed chunk of one of the plans. */
  ghost predicate IsListedChunk(j: Job, missing: seq<MissingChunks>) {
    0 <= j.start < |j.plan.chunks| && exists m <- missing :: m.kind == j.plan.kind && j.start in m.chunkIndices
  }

  lemma {:induction false} IndexJobsListed(indices: seq<int>, plan: Plan)
    ensures forall j <- IndexJobs(indices, plan) ::
              j.plan == plan && 0 <= j.start < |plan.chunks| && j.start in indices
  {
    if indices != [] {
      IndexJobsListed(indices[1..], plan);
      assert forall c <- indices[1..] :: c in indices;
    }
  }

  lemma SortedListed(m: MissingChunks, plan: Plan)
    ensures forall j <- IndexJobs(Sorted(m.chunkIndices), plan) ::
              j.plan == plan && 0 <= j.start < |plan.chunks| && j.start in m.chunkIndices
  {
    hide IndexJobs;
    IndexJobsListed(Sorted(m.chunkIndices), plan);
    forall c | c in Sorted(m.chunkIndices) ensures c in m.chunkIndices {
      assert c in multiset(Sorted(m.chunkIndices));
    }
  }

  lemma {:induction false} ChunkJobsListed(missing: seq<MissingChunks>, plans: seq<Plan>)
    ensures forall j <- ChunkJobs(missing, plans) :: j.plan in plans && IsListedChunk(j, missing)
  {
    hide IndexJobs, Sorted, PlanOfKind;
    if missing != [] {
      ChunkJobsListed(missing[1..], plans);
      assert missing[0] in missing && forall m <- missing[1..] :: m in missing;
      var plan := PlanOfKind(plans, missing[0].kind);
      if plan.Some? {
        SortedListed(missing[0], plan.value);
      }
    }
  }

  lemma {:induction false} ArtifactJobsListed(artifacts: seq<string>, plans: seq<Plan>)
    ensures forall j <- ArtifactJobs(artifacts, plans) ::
              j.plan in plans && j.start == 0 && exists a <- artifacts :: ArtifactKind(a) == Some(j.plan.kind)
  {
    hide ArtifactKind, PlanOfKind;
    if artifacts != [] {
      ArtifactJobsListed(artifacts[1..], plans);
      assert artifacts[0] in artifacts && forall a <- artifacts[1..] :: a in artifacts;
    }
  }

  /** Nothing is sent that the list does not ask for. */
  lemma NfcJobsListed(missing: MissingNfcData, plans: seq<Plan>)
    ensures forall j <- NfcJobs(missing, plans) ::
              && j.plan in plans
              && (IsListedChunk(j, missing.chunks)
                  || (j.start == 0 && exists a <- missing.artifacts ::
                        a in ["dg1", "dg2", "sod"]
                        && j.plan.kind == if a == "dg1" then 0 else if a == "dg2" then 1 else 2))
  {
    ArtifactJobsListed(missing.artifacts, plans);
    ChunkJobsListed(missing.chunks, plans);
    hide ArtifactJobs, ChunkJobs, IsListedChunk;
  }

  lemma {:induction false} LivenessChunkJobsListed(missing: seq<MissingChunks>, plan: Plan)
    ensures forall j <- LivenessChunkJobs(missing, plan) ::
              && j.plan == plan && 0 <= j.start < |plan.chunks|
              && exists m <- missing :: m.kind == 8 && j.start in m.chunkIndices
  {
    hide IndexJobs, Sorted;
    if missing != [] {
      LivenessChunkJobsListed(missing[1..], plan);
      assert missing[0] in missing && forall m <- missing[1..] :: m in missing;
      SortedListed(missing[0], plan);
    }
  }

  lemma LivenessJobsListed(missing: seq<MissingChunks>, plan: Plan)
    ensures forall j <- LivenessJobs(missing, plan) ::
              && j.plan == plan
              && if missing == [] then j.start == 0
                 else 0 <= j.start < |plan.chunks| && exists m <- missing :: m.kind == 8 && j.start in m.chunkIndices
  {
    LivenessChunkJobsListed(missing, plan);
  }

  /** The jobs one after another on the same connection, up to the first that does not return normally. */
  function RunJobs(jobs: seq<Job>, window: nat, turns: seq<Turn>): (r: RunResult)
    ensures r.used <= |turns|
  {
    if jobs == [] then RunResult(Delivered, 0)
    else
      var first := Upload(jobs[0].plan, jobs[0].start, window, turns);
      if first.outcome != Delivered then first
      else Shift(RunJobs(jobs[1..], window, turns[first.used..]), first.used)
  }

  function Shift(r: RunResult, used: nat): RunResult {
    RunResult(r.outcome, used + r.used)
  }

  // ---- The loops ----

  method ResendIndices(indices: seq<int>, plan: Plan, window: nat, turns: seq<Turn>, ghost later: seq<Job>)
    returns (outcome: Outcome, used: nat)
    ensures used <= |turns|
    ensures var all := RunJobs(IndexJobs(indices, plan) + later, window, turns);
            all == if outcome == Delivered then Shift(RunJobs(later, window, turns[used..]), used)
                   else RunResult(outcome, used)
  {
    hide Upload, ArtifactPlan, AreWindows, VerdictOf;
    used := 0;
    ghost var all := RunJobs(IndexJobs(indices, plan) + later, window, turns);
    assert turns[0..] == turns && indices[0..] == indices;
    for i := 0 to |indices|
      invariant used <= |turns|
      invariant all == Shift(RunJobs(IndexJobs(indices[i..], plan) + later, window, turns[used..]), used)
    {
      assert indices[i..][0] == indices[i] && indices[i..][1..] == indices[i + 1..];
      if 0 <= indices[i] < |plan.chunks| {
        ghost var rest := IndexJobs(indices[i + 1..], plan) + later;
        assert IndexJobs(indices[i..], plan) + later == [Job(plan, indices[i])] + rest;
        var n, sent;
        outcome, n, sent := UploadDataPlan(plan, indices[i], window, turns[used..]);
        assert turns[used..][n..] == turns[used + n..];
        used := used + n;
        if outcome != Delivered {
          return;
        }
      }
    }
    assert IndexJobs(indices[|indices|..], plan) + later == later;
    outcome := Delivered;
  }

  method ResendArtifacts(artifacts: seq<string>, plans: seq<Plan>, window: nat, turns: seq<Turn>, ghost later: seq<Job>)
    returns (outcome: Outcome, used: nat)
    ensures used <= |turns|
    ensures var all := RunJobs(ArtifactJobs(artifacts, plans) + later, window, turns);
            all == if outcome == Delivered then Shift(RunJobs(later, window, turns[used..]), used)
                   else RunResult(outcome, used)
  {
    hide Upload, ArtifactPlan, AreWindows, VerdictOf;
    used := 0;
    ghost var all := RunJobs(ArtifactJobs(artifacts, plans) + later, window, turns);
    assert turns[0..] == turns && artifacts[0..] == artifacts;
    for i := 0 to |artifacts|
      invariant used <= |turns|
      invariant all == Shift(RunJobs(ArtifactJobs(artifacts[i..], plans) + later, window, turns[used..]), used)
    {
      var plan := ArtifactPlan(artifacts[i], plans);
      assert artifacts[i..][0] == artifacts[i] && artifacts[i..][1..] == artifacts[i + 1..];
      if plan.Some? {
        ghost var rest := ArtifactJobs(artifacts[i + 1..], plans) + later;
        assert ArtifactJobs(artifacts[i..], plans) + later == [Job(plan.value, 0)] + rest;
        var n, sent;
        outcome, n, sent := UploadDataPlan(plan.value, 0, window, turns[used..]);
        assert turns[used..][n..] == turns[used + n..];
        used := used + n;
        if outcome != Delivered {
          return;
        }
      }
    }
    assert ArtifactJobs(artifacts[|artifacts|..], plans) + later == later;
    outcome := Delivered;
  }

  method ResendChunks(missing: seq<MissingChunks>, plans: seq<Plan>, window: nat, turns: seq<Turn>)
    returns (outcome: Outcome, used: nat)
    ensures RunResult(outcome, used) == RunJobs(ChunkJobs(missing, plans), window, turns)
  {
    hide Upload, PlanOfKind, Sorted, IndexJobs, Insert, RunJobs;
    used := 0;
    ghost var whole := RunJobs(ChunkJobs(missing, plans), window, turns);
    assert turns[0..] == turns && missing[0..] == missing;
    for i := 0 to |missing|
      invariant used <= |turns|
      invariant whole == Shift(RunJobs(ChunkJobs(missing[i..], plans), window, turns[used..]), used)
    {
      ghost var rest := ChunkJobs(missing[i + 1..], plans);
      assert missing[i..][0] == missing[i] && missing[i..][1..] == missing[i + 1..];
      var plan := PlanOfKind(plans, missing[i].kind);
      if plan.Some? {
        var n;
        outcome, n := ResendIndices(Sorted(missing[i].chunkIndices), plan.value, window, turns[used..], rest);
        assert turns[used..][n..] == turns[used + n..];
        used := used + n;
        if outcome != Delivered {
          return;
        }
      }
    }
    NoJobs(window, turns[used..]);
    outcome := Delivered;
  }

  method ResendMissingNfcData(missing: MissingNfcData, plans: seq<Plan>, window: nat, turns: seq<Turn>)
    returns (outcome: Outcome, used: nat)
    requires DistinctKinds(plans)
    ensures RunResult(outcome, used) == RunJobs(NfcJobs(missing, plans), window, turns)
  {
    outcome, used := ResendArtifacts(missing.artifacts, plans, window, turns, ChunkJobs(missing.chunks, plans));
    if outcome == Delivered {
      var n;
      outcome, n := ResendChunks(missing.chunks, plans, window, turns[used..]);
      used := used + n;
    }
  }

  method ResendLivenessChunks(missing: seq<MissingChunks>, plan: Plan, window: nat, turns: seq<Turn>)
    returns (outcome: Outcome, used: nat)
    ensures RunResult(outcome, used) == RunJobs(LivenessChunkJobs(missing, plan), window, turns)
  {
    hide Upload, Sorted, IndexJobs, Insert, RunJobs;
    used := 0;
    ghost var whole := RunJobs(LivenessChunkJobs(missing, plan), window, turns);
    assert turns[0..] == turns && missing[0..] == missing;
    for i := 0 to |missing|
      invariant used <= |turns|
      invariant whole == Shift(RunJobs(LivenessChunkJobs(missing[i..], plan), window, turns[used..]), used)
    {
      ghost var rest := LivenessChunkJobs(missing[i + 1..], plan);
      assert missing[i..][0] == missing[i] && missing[i..][1..] == missing[i + 1..];
      if missing[i].kind == LIVENESS_KIND {
        var n;
        outcome, n := ResendIndices(Sorted(missing[i].chunkIndices), plan, window, turns[used..], rest);
        assert turns[used..][n..] == turns[used + n..];
        used := used + n;
        if outcome != Delivered {
          return;
        }
      }
    }
    NoJobs(window, turns[used..]);
    outcome := Delivered;
  }

  lemma NoJobs(window: nat, turns: seq<Turn>)
    ensures RunJobs([], window, turns) == RunResult(Delivered, 0)
  {
  }

  method ResendMissingLivenessData(missing: seq<MissingChunks>, plan: Plan, window: nat, turns: seq<Turn>)
    returns (outcome: Outcome, used: nat)
    ensures RunResult(outcome, used) == RunJobs(LivenessJobs(missing, plan), window, turns)
  {
    if missing == [] {
      var sent;
      outcome, used, sent := UploadDataPlan(plan, 0, window, turns);
    } else {
      outcome, used := ResendLivenessChunks(missing, plan, window, turns);
    }
  }

  // ---- What a normal return means ----

  lemma {:induction false} HonestSuffix(plan: Plan, turns: seq<Turn>, stores: seq<Store>, lo: int, from: nat)
    requires Honest(plan, turns, stores, lo) && from <= |turns|
    ensures Honest(plan, turns[from..], stores[from..], lo)
    decreases from
  {
    hide Honest;
    if from == 0 {
      assert turns[0..] == turns && stores[0..] == stores;
    } else {
      SameLength(plan, turns, stores, lo);
      HonestTail(plan, turns, stores, lo);
      HonestSuffix(plan, turns[1..], stores[1..], lo, from - 1);
      assert turns[1..][from - 1..] == turns[from..] && stores[1..][from - 1..] == stores[from..];
    }
  }

  lemma SameLength(plan: Plan, turns: seq<Turn>, stores: seq<Store>, lo: int)
    requires Honest(plan, turns, stores, lo)
    ensures |stores| == |turns| + 1 && NeverForgets(stores)
  {
  }

  lemma {:induction false} StaysStored(plan: Plan, stores: seq<Store>, to: nat, lo: int, hi: nat)
    requires NeverForgets(stores) && to < |stores|
    requires HasRange(plan, stores[0], lo, hi)
    ensures HasRange(plan, stores[to], lo, hi)
  {
    if to > 0 {
      StaysStored(plan, stores, to - 1, lo, hi);
      assert Keeps(stores[to - 1], stores[to]);
      KeepsRange(plan, stores[to - 1], stores[to], lo, hi);
    }
  }

  /** After a normal return of all jobs, each job's plan is stored from the job's start on. */
  lemma {:induction false} JobsDeliver(jobs: seq<Job>, job: Job, window: nat, turns: seq<Turn>, stores: seq<Store>)
    requires |stores| == |turns| + 1 && forall j <- jobs :: Honest(j.plan, turns, stores, j.start)
    requires job in jobs && 0 <= job.start < |job.plan.chunks|
    ensures var r := RunJobs(jobs, window, turns);
            r.outcome == Delivered ==> HasRange(job.plan, stores[r.used], job.start, |job.plan.chunks|)
  {
    hide Honest, HasRange;
    assert jobs[0] in jobs;
    var first := Upload(jobs[0].plan, jobs[0].start, window, turns);
    if first.outcome == Delivered {
      var t, s := turns[first.used..], stores[first.used..];
      forall j <- jobs ensures Honest(j.plan, t, s, j.start) {
        HonestSuffix(j.plan, turns, stores, j.start, first.used);
      }
      var rest := RunJobs(jobs[1..], window, t);
      if job == jobs[0] {
        UploadDelivers(job.plan, job.start, window, turns, stores);
        SameLength(job.plan, t, s, job.start);
        StaysStored(job.plan, s, rest.used, job.start, |job.plan.chunks|);
      } else {
        JobsDeliver(jobs[1..], job, window, t, s);
      }
    }
  }

  lemma {:induction false} IndexJobsCover(indices: seq<int>, plan: Plan, c: int)
    requires c in indices && 0 <= c < |plan.chunks|
    ensures Job(plan, c) in IndexJobs(indices, plan)
  {
    if indices[0] != c {
      IndexJobsCover(indices[1..], plan, c);
    }
  }

  lemma SortedCover(plan: Plan, indices: seq<int>, c: int)
    requires c in indices && 0 <= c < |plan.chunks|
    ensures Job(plan, c) in IndexJobs(Sorted(indices), plan)
  {
    assert c in multiset(indices);
    assert c in multiset(Sorted(indices));
    IndexJobsCover(Sorted(indices), plan, c);
  }

  lemma {:induction false} ChunkJobsCover(
    missing: seq<MissingChunks>, plans: seq<Plan>, m: MissingChunks, plan: Plan, c: int)
    requires m in missing && PlanOfKind(plans, m.kind) == Some(plan)
    requires c in m.chunkIndices && 0 <= c < |plan.chunks|
    ensures Job(plan, c) in ChunkJobs(missing, plans)
  {
    if missing[0] == m {
      SortedCover(plan, m.chunkIndices, c);
    } else {
      ChunkJobsCover(missing[1..], plans, m, plan, c);
    }
  }

  lemma {:induction false} ArtifactJobsCover(artifacts: seq<string>, plans: seq<Plan>, artifact: string)
    requires artifact in artifacts
    ensures var plan := ArtifactPlan(artifact, plans);
            plan.Some? ==> Job(plan.value, 0) in ArtifactJobs(artifacts, plans)
  {
    if artifacts[0] != artifact {
      ArtifactJobsCover(artifacts[1..], plans, artifact);
    }
  }

  lemma {:induction false} LivenessJobsCover(missing: seq<MissingChunks>, plan: Plan, m: MissingChunks, c: int)
    requires m in missing && m.kind == LIVENESS_KIND
    requires c in m.chunkIndices && 0 <= c < |plan.chunks|
    ensures Job(plan, c) in LivenessChunkJobs(missing, plan)
  {
    if missing[0] == m {
      SortedCover(plan, m.chunkIndices, c);
    } else {
      LivenessJobsCover(missing[1..], plan, m, c);
    }
  }

  /**
  After a normal return of the NFC resend, the server stores every chunk it had listed as missing
  (and all later ones of that artifact), and all of every artifact it had named.
  */
  lemma NfcResendDelivers(missing: MissingNfcData, plans: seq<Plan>, window: nat, turns: seq<Turn>, stores: seq<Store>)
    requires DistinctKinds(plans) && |stores| == |turns| + 1
    requires forall p <- plans :: p.chunks != []
    requires forall j <- NfcJobs(missing, plans) :: Honest(j.plan, turns, stores, j.start)
    ensures var r := RunJobs(NfcJobs(missing, plans), window, turns);
            r.outcome == Delivered ==>
              && (forall m <- missing.chunks, p <- plans, c <- m.chunkIndices |
                    m.kind == p.kind && 0 <= c < |p.chunks| :: HasRange(p, stores[r.used], c, |p.chunks|))
              && (forall a <- missing.artifacts, p <- plans | ArtifactKind(a) == Some(p.kind) ::
                    HasRange(p, stores[r.used], 0, |p.chunks|))
  {
    hide Honest, HasRange, RunJobs;
    var jobs := NfcJobs(missing, plans);
    var r := RunJobs(jobs, window, turns);
    if r.outcome == Delivered {
      forall m <- missing.chunks, p <- plans, c <- m.chunkIndices | m.kind == p.kind && 0 <= c < |p.chunks|
        ensures HasRange(p, stores[r.used], c, |p.chunks|)
      {
        OnlyPlanOfKind(plans, p);
        ChunkJobsCover(missing.chunks, plans, m, p, c);
        JobsDeliver(jobs, Job(p, c), window, turns, stores);
      }
      forall a <- missing.artifacts, p <- plans | ArtifactKind(a) == Some(p.kind)
        ensures HasRange(p, stores[r.used], 0, |p.chunks|)
      {
        OnlyPlanOfKind(plans, p);
        ArtifactJobsCover(missing.artifacts, plans, a);
        JobsDeliver(jobs, Job(p, 0), window, turns, stores);
      }
    }
  }

  lemma OnlyPlanOfKind(plans: seq<Plan>, p: Plan)
    requires DistinctKinds(plans) && p in plans
    ensures PlanOfKind(plans, p.kind) == Some(p)
  {
    var q := PlanOfKind(plans, p.kind).value;
    var i :| 0 <= i < |plans| && plans[i] == p;
    var j :| 0 <= j < |plans| && plans[j] == q;
  }

  /** The same for the liveness video, where an empty list asks for the whole video. */
  lemma LivenessResendDelivers(
    missing: seq<MissingChunks>, plan: Plan, window: nat, turns: seq<Turn>, stores: seq<Store>)
    requires plan.chunks != [] && |stores| == |turns| + 1
    requires forall j <- LivenessJobs(missing, plan) :: Honest(j.plan, turns, stores, j.start)
    ensures var r := RunJobs(LivenessJobs(missing, plan), window, turns);
            r.outcome == Delivered ==>
              && (missing == [] ==> HasRange(plan, stores[r.used], 0, |plan.chunks|))
              && (forall m <- missing, c <- m.chunkIndices |
                    m.kind == LIVENESS_KIND && 0 <= c < |plan.chunks| ::
                    HasRange(plan, stores[r.used], c, |plan.chunks|))
  {
    hide Honest, HasRange, RunJobs;
    var jobs := LivenessJobs(missing, plan);
    var r := RunJobs(jobs, window, turns);
    if r.outcome == Delivered {
      if missing == [] {
        JobsDeliver(jobs, Job(plan, 0), window, turns, stores);
      }
      forall m <- missing, c <- m.chunkIndices | m.kind == LIVENESS_KIND && 0 <= c < |plan.chunks|
        ensures HasRange(plan, stores[r.used], c, |plan.chunks|)
      {
        LivenessJobsCover(missing, plan, m, c);
        JobsDeliver(jobs, Job(plan, c), window, turns, stores);
      }
    }
  }
}
