/**
The restream of the NFC artifacts, which the liveness phase falls back on when the server has lost them,
for example with the connection they were sent over.
*/
module NfcRestream {
  import opened Wrappers
  import opened ChunkedUpload
  import opened TransferServer
  import opened TransferStatus
  import opened UploadResend
  import opened UploadCompletion
  import opened UploadWindows
  import opened UploadLedger
  import opened UploadBlocks
  import opened NfcPhase

  // ---- Whole uploads ----

  function WholeBlocks(plans: seq<Plan>): (blocks: seq<Block>)
    ensures |blocks| == |plans|
    ensures forall i | 0 <= i < |plans| :: blocks[i] == Block(plans[i], [0])
  {
    if plans == [] then [] else [Block(plans[0], [0])] + WholeBlocks(plans[1..])
  }

  lemma {:induction false} WholeJobsAreBlocks(plans: seq<Plan>)
    requires forall p <- plans :: p.chunks != []
    ensures WholeJobs(plans) == BlockJobs(WholeBlocks(plans))
  {
    hide IndexJobs, BlockJobs;
    if plans == [] {
      NoWholeBlocks();
    } else {
      var p, rest := plans[0], plans[1..];
      assert p in plans && forall q <- rest :: q in plans;
      WholeJobsAreBlocks(rest);
      BlockJobsCons(Block(p, [0]), WholeBlocks(rest));
      OneWhole(p);
    }
  }

  lemma NoWholeBlocks()
    ensures BlockJobs([]) == []
  {
  }

  lemma OneWhole(plan: Plan)
    requires plan.chunks != []
    ensures IndexJobs([0], plan) == [Job(plan, 0)]
  {
    assert [0][1..] == [] && IndexJobs([0], plan) == [Job(plan, 0)] + IndexJobs([], plan);
  }

  lemma WholeBlocksShape(plans: seq<Plan>)
    requires DistinctKinds(plans)
    ensures var blocks := WholeBlocks(plans);
            && KindsDiffer(blocks)
            && (forall b <- blocks :: b.plan in plans && b == Block(b.plan, [0]))
            && (forall p <- plans :: Block(p, [0]) in blocks)
  {
    var blocks := WholeBlocks(plans);
    forall p | p in plans ensures Block(p, [0]) in blocks {
      var i :| 0 <= i < |plans| && plans[i] == p;
      assert blocks[i] in blocks;
    }
  }

  /** Nothing of the plans is left, and each is stored. */
  ghost predicate AllStoredWhole(t: Transfer, plans: seq<Plan>) {
    forall p <- plans :: KeyOf(p) !in t.chunks && p.kind in t.artifacts && t.artifacts[p.kind] == Concat(p.chunks)
  }

  ghost predicate SomeLast(t: Transfer, plans: seq<Plan>) {
    exists p <- plans :: LastHeld(t, p)
  }

  /**
  Some of the plans sent whole: it fails if the last chunk of one is there, and stores all of them
  otherwise.
  */
  lemma Restream(plans: seq<Plan>, all: seq<Plan>, size: nat, window: nat, t: Transfer, fuel: nat)
    requires Sendable(all, size, window, fuel) && AllSound(t, all)
    requires DistinctKinds(plans) && forall p <- plans :: p in all
    ensures var (outcome, t') := JobsSession(WholeJobs(plans), window, t, fuel);
            if outcome == TOO_LARGE then t.bytesReceived + (2 * |plans| + 1) * size > MAX_TOTAL_TRANSFER_BYTES
            else if SomeLast(t, plans) then outcome == Stopped(UnexpectedServerResponse)
            else
              && outcome == Delivered && AllStoredWhole(t', plans)
              && Kept(t, t', all, KindsOf(WholeBlocks(plans)))
              && t'.bytesReceived <= t.bytesReceived + 2 * |plans| * size
  {
    hide Sound, WholeJobs, WholeBlocks, EffectOf, Ready, JobsSession, LastHeld, Concat, Kept, InRange, KeyOf;
    hide Ledger, Sent;
    hide Sendable, DistinctKinds, KindsDiffer, BlockJobs;
    var blocks := WholeBlocks(plans);
    WholeBlocksShape(plans);
    forall p | p in plans ensures WholeReady(t, p, all, size) {
      SendableSize(all, size, window, fuel, p);
      WholeBlock(t, p, all, size);
      ReadyInRange(t, Block(p, [0]), all, size);
    }
    forall p | p in plans ensures p.chunks != [] {
      SendableSize(all, size, window, fuel, p);
    }
    WholeJobsAreBlocks(plans);
    WholeFailures(t, plans, all, size);
    BlocksSent(blocks, all, size, window, t, fuel);
    var (outcome, t') := JobsSession(WholeJobs(plans), window, t, fuel);
    if outcome != TOO_LARGE && !SomeLast(t, plans) {
      forall p | p in plans
        ensures KeyOf(p) !in t'.chunks && p.kind in t'.artifacts && t'.artifacts[p.kind] == Concat(p.chunks)
      {
        assert Sent(t, Block(p, [0]), t') && WholeReady(t, p, all, size);
        WholeSent(t, t', p);
      }
    }
  }

  /** The plan can be sent whole, which fails exactly if its last chunk is there. */
  ghost predicate WholeReady(t: Transfer, p: Plan, all: seq<Plan>, size: nat) {
    && Ready(t, Block(p, [0]), all, size) && InRange(p, [0])
    && EffectOf(t, Block(p, [0])) == if LastHeld(t, p) then Fails else Leaves(None)
  }

  lemma SendableSize(all: seq<Plan>, size: nat, window: nat, fuel: nat, p: Plan)
    requires Sendable(all, size, window, fuel) && p in all
    ensures p.chunks != [] && |Concat(p.chunks)| <= size
  {
  }

  lemma WholeFailures(t: Transfer, plans: seq<Plan>, all: seq<Plan>, size: nat)
    requires DistinctKinds(plans) && forall p <- plans :: WholeReady(t, p, all, size)
    ensures AllReady(t, WholeBlocks(plans), all, size)
    ensures SomeFails(t, WholeBlocks(plans)) <==> SomeLast(t, plans)
  {
    hide WholeBlocks, EffectOf, Ready, LastHeld, InRange, KindsDiffer, DistinctKinds;
    var blocks := WholeBlocks(plans);
    WholeBlocksShape(plans);
    forall b | b in blocks ensures WholeReady(t, b.plan, all, size) && b == Block(b.plan, [0]) {
      assert b.plan in plans;
    }
    if SomeLast(t, plans) {
      var p :| p in plans && LastHeld(t, p);
      var b := Block(p, [0]);
      assert b in blocks && EffectOf(t, b) == Fails;
    }
  }

  lemma WholeSent(t: Transfer, t': Transfer, p: Plan)
    requires Sent(t, Block(p, [0]), t') && InRange(p, [0]) && EffectOf(t, Block(p, [0])) == Leaves(None)
    ensures KeyOf(p) !in t'.chunks && p.kind in t'.artifacts && t'.artifacts[p.kind] == Concat(p.chunks)
  {
    hide EffectOf, InRange, Concat;
    NoLedger(t', p);
  }

  // ---- What is missing after it ----

  /** Nothing of the NFC phase is missing, so the server looks at the video. */
  ghost predicate NfcDone(t: Transfer, order: seq<Key>)
    requires WalksEntries(order, t)
  {
    IsComplete(NfcStatus(t, order))
  }

  lemma DoneIffHasAll(t: Transfer, order: seq<Key>)
    requires WalksEntries(order, t)
    ensures NfcDone(t, order) <==> HasAll(t, false)
  {
    hide MissingTransferChunks, HasAll;
    NoMessageIff(t, order, false);
  }

  /** The plan of a required artifact that the server lacks. */
  lemma PlanOfMissing(t: Transfer, plans: seq<Plan>, kind: nat)
    requires kind <= 2 && kind !in t.artifacts && NamesPlans(MissingNfcArtifacts(t), plans)
    ensures exists p <- plans :: p.kind == kind
  {
    hide MissingNfcArtifacts, PlanOfKind;
    NamesOfKinds(t, kind);
    var name := if kind == 0 then "dg1" else if kind == 1 then "dg2" else "sod";
    var p := ArtifactPlan(name, plans).value;
    assert p in plans && p.kind == kind;
  }

  lemma RestreamCompletes(t: Transfer, t': Transfer, plans: seq<Plan>, all: seq<Plan>, kinds: set<int>)
    requires NfcReady(t, plans) && AllStoredWhole(t', plans) && Kept(t, t', all, kinds)
    requires forall p <- all | p !in plans :: !IsNfcKind(p.kind)
    ensures HasAll(t', false)
  {
    hide Sound, Ledger, Parts, AllSound, MissingNfcArtifacts, ArtifactKind, PlanOfKind, AllPresent;
    forall kind: nat | kind <= 2 ensures kind in t'.artifacts {
      if kind !in t.artifacts {
        PlanOfMissing(t, plans, kind);
      }
    }
    forall key: Key | IsNfcKind(key.0) ensures key !in t'.chunks {
      assert (forall p <- all :: KeyOf(p) != key) ==> (key in t'.chunks <==> key in t.chunks);
    }
  }
}
