/**
Resends of several plans, a block of consecutive ones for each, and their effects together.
*/
module UploadBlocks {
  import opened Wrappers
  import opened ChunkedUpload
  import opened TransferServer
  import opened UploadResend
  import opened UploadWindows
  import opened UploadLedger

  // ---- Several plans ----

  /** Plans of different kinds, none larger than `size`, and turns enough to send each. */
  ghost predicate Sendable(plans: seq<Plan>, size: nat, window: nat, fuel: nat) {
    && DistinctKinds(plans) && window >= 1
    && forall p <- plans :: p.index == 0 && 1 <= |p.chunks| <= fuel && |Concat(p.chunks)| <= size
  }

  ghost predicate AllSound(t: Transfer, plans: seq<Plan>) {
    forall p <- plans :: Sound(t, p)
  }

  /** The final chunk of an incomplete artifact is there. */
  ghost predicate LastHeld(t: Transfer, plan: Plan) {
    |plan.chunks| - 1 in Held(t, plan)
  }

  /** What resends of plans of the given kinds leave alone. */
  ghost predicate Kept(t: Transfer, t': Transfer, plans: seq<Plan>, kinds: set<int>) {
    && AllSound(t', plans)
    && (forall p <- plans | p.kind !in kinds ::
          && Ledger(t', p) == Ledger(t, p) && Parts(t', p) == Parts(t, p)
          && (p.kind in t'.artifacts <==> p.kind in t.artifacts)
          && (p.kind in t.artifacts && p.kind in t'.artifacts ==> t'.artifacts[p.kind] == t.artifacts[p.kind]))
    && (forall key: Key | (forall p <- plans :: KeyOf(p) != key) :: key in t'.chunks <==> key in t.chunks)
    && (forall kind <- t.artifacts :: kind in t'.artifacts)
  }

  lemma KeptTwice(t: Transfer, t': Transfer, t'': Transfer, plans: seq<Plan>, a: set<int>, b: set<int>)
    requires Kept(t, t', plans, a) && Kept(t', t'', plans, b)
    ensures Kept(t, t'', plans, a + b)
  {
    hide Ledger, Parts, AllSound, KeyOf;
  }

  lemma KeptBySelf(t: Transfer, plans: seq<Plan>)
    requires AllSound(t, plans)
    ensures Kept(t, t, plans, {})
  {
  }

  lemma {:induction false} SameKind(plans: seq<Plan>, p: Plan, q: Plan)
    requires DistinctKinds(plans) && p in plans && q in plans && p.kind == q.kind
    ensures p == q
  {
    var i :| 0 <= i < |plans| && plans[i] == p;
    var j :| 0 <= j < |plans| && plans[j] == q;
  }

  /** A change to one plan keeps the others. */
  lemma KeptByOne(t: Transfer, t': Transfer, plans: seq<Plan>, plan: Plan)
    requires DistinctKinds(plans) && plan in plans && AllSound(t, plans)
    requires SameElsewhere(t, t', plan) && Sound(t', plan) && (plan.kind in t.artifacts ==> plan.kind in t'.artifacts)
    ensures Kept(t, t', plans, {plan.kind})
  {
    hide Sound;
    forall p | p in plans && p.kind != plan.kind
      ensures Ledger(t', p) == Ledger(t, p) && Parts(t', p) == Parts(t, p) && Sound(t', p)
    {
      assert KeyOf(p) != KeyOf(plan);
      OtherPlan(t, t', plan, p);
    }
    forall p | p in plans ensures Sound(t', p) {
      if p.kind == plan.kind {
        SameKind(plans, p, plan);
      }
    }
  }

  lemma OtherPlan(t: Transfer, t': Transfer, plan: Plan, p: Plan)
    requires SameElsewhere(t, t', plan) && KeyOf(p) != KeyOf(plan) && Sound(t, p)
    ensures Sound(t', p) && Ledger(t', p) == Ledger(t, p) && Parts(t', p) == Parts(t, p)
  {
    hide Acceptable;
  }

  // ---- Resends of several plans ----

  // Consecutive resends of one plan.
  datatype Block = Block(plan: Plan, starts: seq<int>)

  function BlockJobs(blocks: seq<Block>): seq<Job> {
    if blocks == [] then [] else IndexJobs(blocks[0].starts, blocks[0].plan) + BlockJobs(blocks[1..])
  }

  ghost function KindsOf(blocks: seq<Block>): (kinds: set<int>)
    ensures forall b <- blocks :: b.plan.kind in kinds
    ensures forall k <- kinds :: exists b :: b in blocks && b.plan.kind == k
  {
    if blocks == [] then {}
    else
      assert blocks == [blocks[0]] + blocks[1..];
      {blocks[0].plan.kind} + KindsOf(blocks[1..])
  }

  ghost predicate KindsDiffer(blocks: seq<Block>) {
    forall i, j | 0 <= i < j < |blocks| :: blocks[i].plan.kind != blocks[j].plan.kind
  }

  /** A block that can be sent, and does not cost more than its artifact twice. */
  ghost predicate Ready(t: Transfer, b: Block, plans: seq<Plan>, size: nat) {
    && b.plan in plans && b.starts != [] && InRange(b.plan, b.starts)
    && BlockCost(b.plan, Ledger(t, b.plan), b.starts) <= 2 * size
  }

  ghost predicate AllReady(t: Transfer, blocks: seq<Block>, plans: seq<Plan>, size: nat) {
    forall b <- blocks :: Ready(t, b, plans, size)
  }

  ghost function EffectOf(t: Transfer, b: Block): Effect
    requires InRange(b.plan, b.starts)
  {
    BlockEffect(b.plan, Ledger(t, b.plan), b.starts)
  }

  ghost predicate SomeFails(t: Transfer, blocks: seq<Block>) {
    exists b :: b in blocks && InRange(b.plan, b.starts) && EffectOf(t, b) == Fails
  }

  /** The block has had its effect; an artifact it completed is stored. */
  ghost predicate Sent(t: Transfer, b: Block, t': Transfer) {
    && InRange(b.plan, b.starts) && EffectOf(t, b) == Leaves(Ledger(t', b.plan))
    && (Ledger(t', b.plan) == None ==>
          b.plan.kind in t'.artifacts && t'.artifacts[b.plan.kind] == Concat(b.plan.chunks))
  }

  ghost predicate AllSent(t: Transfer, blocks: seq<Block>, t': Transfer) {
    forall b <- blocks :: Sent(t, b, t')
  }

  /** A block of another plan is as ready, and will have the same effect. */
  lemma BlockKept(t: Transfer, t': Transfer, plans: seq<Plan>, kinds: set<int>, b: Block, size: nat)
    requires Kept(t, t', plans, kinds) && Ready(t, b, plans, size) && b.plan.kind !in kinds
    ensures Ready(t', b, plans, size) && EffectOf(t', b) == EffectOf(t, b) && Ledger(t', b.plan) == Ledger(t, b.plan)
  {
    hide Ledger, Parts, AllSound, KeyOf, BlockEffect, BlockCost;
  }

  lemma SentKept(t: Transfer, t1: Transfer, t': Transfer, plans: seq<Plan>, kinds: set<int>, b: Block)
    requires Kept(t1, t', plans, kinds) && b.plan in plans && b.plan.kind !in kinds && Sent(t, b, t1)
    ensures Sent(t, b, t')
  {
    hide Ledger, Parts, AllSound, KeyOf, BlockEffect;
  }

  lemma SentLater(t: Transfer, t1: Transfer, t': Transfer, b: Block)
    requires Sent(t1, b, t') && EffectOf(t1, b) == EffectOf(t, b)
    ensures Sent(t, b, t')
  {
    hide Ledger, BlockEffect;
  }

  /** One block among several plans. */
  lemma BlockSent(b: Block, plans: seq<Plan>, size: nat, window: nat, t: Transfer, fuel: nat)
    requires Sendable(plans, size, window, fuel) && AllSound(t, plans) && Ready(t, b, plans, size)
    ensures var (outcome, t') := JobsSession(IndexJobs(b.starts, b.plan), window, t, fuel);
            if outcome == TOO_LARGE then !RoomFor(t, 3 * size)
            else
              match EffectOf(t, b)
              case Fails => outcome == Stopped(UnexpectedServerResponse)
              case Leaves(_) =>
                && outcome == Delivered && Sent(t, b, t') && Kept(t, t', plans, {b.plan.kind})
                && t'.bytesReceived <= t.bytesReceived + 2 * size
  {
    hide JobsSession, IndexJobs, Ledger, Sound, BlockEffect, BlockCost, InRange, Concat, Kept, SameElsewhere;
    var (outcome, t') := JobsSession(IndexJobs(b.starts, b.plan), window, t, fuel);
    OneBlock(b.plan, b.starts, window, t, fuel);
    if outcome != TOO_LARGE && EffectOf(t, b).Leaves? {
      KeptByOne(t, t', plans, b.plan);
    }
  }

  /** After one block, those of other plans are as ready, and will have the same effects. */
  lemma RestReady(b: Block, rest: seq<Block>, plans: seq<Plan>, size: nat, t: Transfer, t1: Transfer)
    requires AllReady(t, rest, plans, size) && Kept(t, t1, plans, {b.plan.kind})
    requires forall c <- rest :: c.plan.kind != b.plan.kind
    ensures AllReady(t1, rest, plans, size)
    ensures forall c <- rest :: InRange(c.plan, c.starts) && EffectOf(t1, c) == EffectOf(t, c)
  {
    hide Ready, Kept, EffectOf, InRange;
    forall c | c in rest
      ensures Ready(t1, c, plans, size) && InRange(c.plan, c.starts) && EffectOf(t1, c) == EffectOf(t, c)
    {
      BlockKept(t, t1, plans, {b.plan.kind}, c, size);
      ReadyInRange(t, c, plans, size);
    }
  }

  lemma FailsLater(b: Block, rest: seq<Block>, t: Transfer, t1: Transfer)
    requires InRange(b.plan, b.starts)
    requires forall c <- rest :: InRange(c.plan, c.starts) && EffectOf(t1, c) == EffectOf(t, c)
    ensures SomeFails(t, [b] + rest) <==> EffectOf(t, b) == Fails || SomeFails(t1, rest)
  {
    hide EffectOf, InRange;
    assert b in [b] + rest && forall c <- rest :: c in [b] + rest;
  }

  lemma SentTogether(b: Block, rest: seq<Block>, plans: seq<Plan>, t: Transfer, t1: Transfer, t': Transfer)
    requires b.plan in plans && b.plan.kind !in KindsOf(rest) && Sent(t, b, t1) && Kept(t, t1, plans, {b.plan.kind})
    requires forall c <- rest :: InRange(c.plan, c.starts) && EffectOf(t1, c) == EffectOf(t, c)
    requires AllSent(t1, rest, t') && Kept(t1, t', plans, KindsOf(rest))
    ensures AllSent(t, [b] + rest, t') && Kept(t, t', plans, KindsOf([b] + rest))
  {
    hide EffectOf, InRange, Sent, Kept;
    SentKept(t, t1, t', plans, KindsOf(rest), b);
    forall c | c in rest ensures Sent(t, c, t') {
      SentLater(t, t1, t', c);
    }
    KeptTwice(t, t1, t', plans, {b.plan.kind}, KindsOf(rest));
    assert ([b] + rest)[1..] == rest;
  }

  lemma DifferFromFirst(b: Block, rest: seq<Block>)
    requires KindsDiffer([b] + rest)
    ensures KindsDiffer(rest) && (forall c <- rest :: c.plan.kind != b.plan.kind) && b.plan.kind !in KindsOf(rest)
  {
    var blocks := [b] + rest;
    forall c | c in rest ensures c.plan.kind != b.plan.kind {
      var i :| 0 <= i < |rest| && rest[i] == c;
      assert blocks[0] == b && blocks[i + 1] == c;
    }
    forall i, j | 0 <= i < j < |rest| ensures rest[i].plan.kind != rest[j].plan.kind {
      assert blocks[i + 1] == rest[i] && blocks[j + 1] == rest[j];
    }
  }

  lemma BlockJobsCons(b: Block, rest: seq<Block>)
    ensures BlockJobs([b] + rest) == IndexJobs(b.starts, b.plan) + BlockJobs(rest)
  {
    assert ([b] + rest)[1..] == rest;
  }

  lemma NoBlocksSent(plans: seq<Plan>, window: nat, t: Transfer, fuel: nat)
    requires AllSound(t, plans)
    ensures JobsSession(BlockJobs([]), window, t, fuel) == (Delivered, t)
    ensures !SomeFails(t, []) && AllSent(t, [], t) && Kept(t, t, plans, KindsOf([]))
  {
    KeptBySelf(t, plans);
  }

  /**
  Blocks of different plans, one after the other, as far as there is room: if one of them fails, so
  does the phase; otherwise each has its effect and nothing else changes.
  */
  lemma {:induction false} BlocksSent(
    blocks: seq<Block>, plans: seq<Plan>, size: nat, window: nat, t: Transfer, fuel: nat)
    requires Sendable(plans, size, window, fuel) && AllSound(t, plans)
    requires AllReady(t, blocks, plans, size) && KindsDiffer(blocks)
    ensures var (outcome, t') := JobsSession(BlockJobs(blocks), window, t, fuel);
            if outcome == TOO_LARGE then t.bytesReceived + (2 * |blocks| + 1) * size > MAX_TOTAL_TRANSFER_BYTES
            else if SomeFails(t, blocks) then outcome == Stopped(UnexpectedServerResponse)
            else
              && outcome == Delivered && AllSent(t, blocks, t') && Kept(t, t', plans, KindsOf(blocks))
              && t'.bytesReceived <= t.bytesReceived + 2 * |blocks| * size
    decreases |blocks|
  {
    hide Sendable, Ready, Sent, Kept, EffectOf, AllSound, InRange, JobsSession, BlockJobs, IndexJobs, KindsOf;
    hide KindsDiffer, SomeFails, AllSent;
    if blocks == [] {
      NoBlocksSent(plans, window, t, fuel);
    } else {
      var b, rest := blocks[0], blocks[1..];
      assert blocks == [b] + rest && b in blocks;
      Multiples(|blocks|, size);
      BlockJobsCons(b, rest);
      DifferFromFirst(b, rest);
      JobsSplit(IndexJobs(b.starts, b.plan), BlockJobs(rest), window, t, fuel);
      ReadyInRange(t, b, plans, size);
      ReadyPlan(t, b, plans, size);
      BlockSent(b, plans, size, window, t, fuel);
      if JobsSession(IndexJobs(b.starts, b.plan), window, t, fuel).0 == TOO_LARGE {
        // The blocks behind it are not sent.
      } else if EffectOf(t, b) == Fails {
        FailsFirst(b, rest, t);
      } else {
        var t1 := JobsSession(IndexJobs(b.starts, b.plan), window, t, fuel).1;
        KeptSound(t, t1, plans, {b.plan.kind});
        RestReady(b, rest, plans, size, t, t1);
        BlocksSent(rest, plans, size, window, t1, fuel);
        FailsLater(b, rest, t, t1);
        if JobsSession(BlockJobs(rest), window, t1, fuel).0 != TOO_LARGE && !SomeFails(t1, rest) {
          SentTogether(b, rest, plans, t, t1, JobsSession(BlockJobs(rest), window, t1, fuel).1);
        }
      }
    }
  }

  lemma FailsFirst(b: Block, rest: seq<Block>, t: Transfer)
    requires InRange(b.plan, b.starts) && EffectOf(t, b) == Fails
    ensures SomeFails(t, [b] + rest)
  {
    assert b in [b] + rest;
  }

  lemma Multiples(n: nat, size: nat)
    requires n > 0
    ensures (2 * n + 1) * size == 3 * size + 2 * (n - 1) * size
    ensures (2 * n + 1) * size == 2 * size + (2 * (n - 1) + 1) * size
    ensures 2 * n * size == 2 * size + 2 * (n - 1) * size
    ensures 2 * (n - 1) * size >= 0
  {
  }

  lemma ReadyInRange(t: Transfer, b: Block, plans: seq<Plan>, size: nat)
    requires Ready(t, b, plans, size)
    ensures InRange(b.plan, b.starts)
  {
  }

  lemma ReadyPlan(t: Transfer, b: Block, plans: seq<Plan>, size: nat)
    requires Ready(t, b, plans, size)
    ensures b.plan in plans
  {
  }

  lemma KeptSound(t: Transfer, t': Transfer, plans: seq<Plan>, kinds: set<int>)
    requires Kept(t, t', plans, kinds)
    ensures AllSound(t', plans)
  {
  }
}
