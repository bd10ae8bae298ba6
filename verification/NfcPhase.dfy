/**
How the NFC phase ends against the repository's own server, from any state of what it has received.
*/
module NfcPhase {
  import opened Wrappers
  import opened ChunkedUpload
  import opened TransferServer
  import opened TransferStatus
  import opened UploadResend
  import opened UploadCompletion
  import opened UploadWindows
  import opened UploadEndToEnd
  import opened UploadLedger
  import opened UploadPhases
  import opened UploadBlocks

  // ---- What the server asks for ----

  /** The whole uploads that a list of artifact names asks for. */
  function NameBlocks(names: seq<string>, plans: seq<Plan>): seq<Block> {
    if names == [] then []
    else
      match ArtifactPlan(names[0], plans)
      case None => NameBlocks(names[1..], plans)
      case Some(plan) => [Block(plan, [0])] + NameBlocks(names[1..], plans)
  }

  lemma {:induction false} NameJobs(names: seq<string>, plans: seq<Plan>)
    requires forall p <- plans :: p.chunks != []
    ensures ArtifactJobs(names, plans) == BlockJobs(NameBlocks(names, plans))
    ensures |NameBlocks(names, plans)| <= |names|
  {
    hide PlanOfKind;
    if names != [] {
      NameJobs(names[1..], plans);
      var rest := NameBlocks(names[1..], plans);
      match ArtifactPlan(names[0], plans)
      case None =>
      case Some(plan) =>
        var blocks := [Block(plan, [0])] + rest;
        assert blocks[1..] == rest && [0][1..] == [];
        assert IndexJobs([0], plan) == [Job(plan, 0)] + IndexJobs([], plan);
    }
  }

  /** The resends that a list of missing chunks asks for. */
  function ItemBlocks(items: seq<MissingChunks>, plans: seq<Plan>): seq<Block> {
    if items == [] then []
    else
      match PlanOfKind(plans, items[0].kind)
      case None => ItemBlocks(items[1..], plans)
      case Some(plan) => [Block(plan, Sorted(items[0].chunkIndices))] + ItemBlocks(items[1..], plans)
  }

  lemma {:induction false} ItemJobs(items: seq<MissingChunks>, plans: seq<Plan>)
    ensures ChunkJobs(items, plans) == BlockJobs(ItemBlocks(items, plans))
    ensures |ItemBlocks(items, plans)| <= |items|
  {
    hide PlanOfKind, IndexJobs, Sorted;
    if items != [] {
      ItemJobs(items[1..], plans);
    }
  }

  // ---- The NFC phase ----

  /** The state's NFC entries are of the plans in hand, and the plans include what it requires. */
  ghost predicate NfcReady(t: Transfer, plans: seq<Plan>) {
    && AllSound(t, plans) && (forall p <- plans :: IsNfcKind(p.kind))
    && (forall key <- t.chunks | IsNfcKind(key.0) :: exists p <- plans :: KeyOf(p) == key)
    && NamesPlans(MissingNfcArtifacts(t), plans)
  }

  ghost predicate NamesPlans(names: seq<string>, plans: seq<Plan>) {
    forall a <- names :: ArtifactPlan(a, plans).Some?
  }

  /** The artifact is one that the server requires and does not have. */
  predicate Listed(t: Transfer, plan: Plan) {
    plan.kind <= 2 && plan.kind !in t.artifacts
  }

  lemma NamesOfKinds(t: Transfer, kind: nat)
    requires kind <= 2
    ensures var name := if kind == 0 then "dg1" else if kind == 1 then "dg2" else "sod";
            ArtifactKind(name) == Some(kind) && (kind !in t.artifacts <==> name in MissingNfcArtifacts(t))
  {
  }

  lemma ListedNames(t: Transfer)
    ensures Distinct(MissingNfcArtifacts(t))
    ensures forall a <- MissingNfcArtifacts(t) ::
              ArtifactKind(a).Some? && ArtifactKind(a).value <= 2 && ArtifactKind(a).value !in t.artifacts
    ensures forall a <- MissingNfcArtifacts(t), b <- MissingNfcArtifacts(t) | a != b ::
              ArtifactKind(a) != ArtifactKind(b)
  {
  }

  lemma {:induction false} NameBlocksExactly(names: seq<string>, plans: seq<Plan>)
    requires DistinctKinds(plans)
    ensures forall b <- NameBlocks(names, plans) ::
              b.plan in plans && b.starts == [0] && exists a :: a in names && ArtifactKind(a) == Some(b.plan.kind)
    ensures forall p <- plans, a <- names | ArtifactKind(a) == Some(p.kind) :: Block(p, [0]) in NameBlocks(names, plans)
  {
    hide ArtifactKind, PlanOfKind, DistinctKinds;
    if names != [] {
      assert names == [names[0]] + names[1..];
      NameBlocksExactly(names[1..], plans);
      forall p | p in plans && ArtifactKind(names[0]) == Some(p.kind) ensures ArtifactPlan(names[0], plans) == Some(p) {
        OnlyPlanOfKind(plans, p);
      }
    }
  }

  lemma {:induction false} NameBlocksDiffer(names: seq<string>, plans: seq<Plan>)
    requires DistinctKinds(plans) && Distinct(names)
    requires forall a <- names, b <- names | a != b :: ArtifactKind(a) != ArtifactKind(b)
    ensures KindsDiffer(NameBlocks(names, plans))
  {
    hide ArtifactKind, PlanOfKind, DistinctKinds, KindsDiffer;
    if names == [] {
      NoBlocks();
    } else {
      var rest := names[1..];
      assert names == [names[0]] + rest && names[0] !in rest;
      assert forall a <- rest :: a in names;
      NameBlocksDiffer(rest, plans);
      NameBlocksExactly(rest, plans);
      var plan := ArtifactPlan(names[0], plans);
      if plan.Some? {
        forall b | b in NameBlocks(rest, plans) ensures b.plan.kind != plan.value.kind {
          var a :| a in rest && ArtifactKind(a) == Some(b.plan.kind);
          assert a in names;
        }
        KindsDifferCons(Block(plan.value, [0]), NameBlocks(rest, plans));
      }
    }
  }

  lemma NoBlocks()
    ensures KindsDiffer([])
  {
  }

  lemma KindsDifferCons(b: Block, blocks: seq<Block>)
    requires KindsDiffer(blocks) && forall c <- blocks :: c.plan.kind != b.plan.kind
    ensures KindsDiffer([b] + blocks)
  {
    assert forall i | 0 <= i < |blocks| :: blocks[i] in blocks;
  }

  lemma {:induction false} ItemBlocksExactly(items: seq<MissingChunks>, plans: seq<Plan>)
    ensures forall b <- ItemBlocks(items, plans) ::
              exists m :: m in items && PlanOfKind(plans, m.kind) == Some(b.plan) && b.starts == Sorted(m.chunkIndices)
    ensures forall m <- items | PlanOfKind(plans, m.kind).Some? ::
              Block(PlanOfKind(plans, m.kind).value, Sorted(m.chunkIndices)) in ItemBlocks(items, plans)
  {
    hide PlanOfKind, Sorted;
    if items != [] {
      assert items == [items[0]] + items[1..];
      ItemBlocksExactly(items[1..], plans);
    }
  }

  ghost predicate ItemKindsDiffer(items: seq<MissingChunks>) {
    forall i, j | 0 <= i < j < |items| :: items[i].kind != items[j].kind
  }

  lemma {:induction false} ItemBlocksDiffer(items: seq<MissingChunks>, plans: seq<Plan>)
    requires ItemKindsDiffer(items)
    ensures KindsDiffer(ItemBlocks(items, plans))
  {
    hide PlanOfKind, Sorted, KindsDiffer;
    if items == [] {
      NoBlocks();
    } else {
      var rest := items[1..];
      assert forall m <- rest :: m.kind != items[0].kind;
      ItemBlocksDiffer(rest, plans);
      ItemBlocksExactly(rest, plans);
      var plan := PlanOfKind(plans, items[0].kind);
      if plan.Some? {
        KindsDifferCons(Block(plan.value, Sorted(items[0].chunkIndices)), ItemBlocks(rest, plans));
      }
    }
  }

  lemma {:induction false} SortedRising(s: seq<int>)
    requires Rising(s)
    ensures Sorted(s) == s
  {
    if s != [] {
      var rest := s[1..];
      SortedRising(rest);
      assert s == [s[0]] + rest;
      assert rest != [] ==> s[0] <= rest[0];
    }
  }

  lemma EntryItem(t: Transfer, plan: Plan)
    requires Sound(t, plan) && IsNfcKind(plan.kind) && KeyOf(plan) in t.chunks
    ensures MissingOf(KeyOf(plan), t.chunks[KeyOf(plan)], true)
         == [MissingChunks(plan.kind, 0, Gaps(plan, Parts(t, plan)))]
    ensures |plan.chunks| >= 2 && Rising(Gaps(plan, Parts(t, plan)))
  {
    GapsShape(plan, Parts(t, plan));
  }

  lemma ItemOfState(t: Transfer, order: seq<Key>, plans: seq<Plan>, m: MissingChunks) returns (plan: Plan)
    requires WalksEntries(order, t) && NfcReady(t, plans) && m in MissingTransferChunks(t, order, true)
    ensures plan in plans && KeyOf(plan) in t.chunks && m == MissingChunks(plan.kind, 0, Gaps(plan, Parts(t, plan)))
  {
    hide MissingTransferChunks, Sound, Gaps, NamesPlans;
    ListedExactly(t, order, true);
    var key :| key in order && MissingOf(key, t.chunks[key], true) == [m];
    plan :| plan in plans && KeyOf(plan) == key;
    EntryItem(t, plan);
    assert [m][0] == m;
  }

  lemma ItemOfPlan(t: Transfer, order: seq<Key>, plans: seq<Plan>, p: Plan)
    requires WalksEntries(order, t) && NfcReady(t, plans) && p in plans && KeyOf(p) in t.chunks
    ensures MissingChunks(p.kind, 0, Gaps(p, Parts(t, p))) in MissingTransferChunks(t, order, true)
  {
    hide MissingTransferChunks, Sound, Gaps, NamesPlans;
    ListedExactly(t, order, true);
    EntryItem(t, p);
    assert KeyOf(p) in order;
    assert MissingChunks(p.kind, 0, Gaps(p, Parts(t, p))) in MissingOf(KeyOf(p), t.chunks[KeyOf(p)], true);
  }

  lemma ItemsOfKinds(t: Transfer, order: seq<Key>, plans: seq<Plan>)
    requires WalksEntries(order, t) && NfcReady(t, plans)
    ensures ItemKindsDiffer(MissingTransferChunks(t, order, true))
  {
    hide MissingTransferChunks, NfcReady, Gaps;
    ListedOnce(t, order, true);
    var items := MissingTransferChunks(t, order, true);
    forall m | m in items ensures m.index == 0 {
      var p := ItemOfState(t, order, plans, m);
    }
    forall i, j | 0 <= i < j < |items| ensures items[i].kind != items[j].kind {
      assert items[i] in items && items[j] in items;
    }
  }

  /** The resends asked for are those of the gaps of the plans' entries. */
  lemma ItemBlocksOfState(t: Transfer, order: seq<Key>, plans: seq<Plan>)
    requires WalksEntries(order, t) && NfcReady(t, plans) && DistinctKinds(plans)
    ensures var blocks := ItemBlocks(MissingTransferChunks(t, order, true), plans);
            && KindsDiffer(blocks)
            && (forall b <- blocks ::
                  b.plan in plans && KeyOf(b.plan) in t.chunks && b.starts == Gaps(b.plan, Parts(t, b.plan)))
            && (forall p <- plans | KeyOf(p) in t.chunks :: Block(p, Gaps(p, Parts(t, p))) in blocks)
  {
    hide MissingTransferChunks, NfcReady, Gaps, ItemBlocks, KindsDiffer, DistinctKinds, PlanOfKind, Sorted;
    hide Rising;
    var items := MissingTransferChunks(t, order, true);
    var blocks := ItemBlocks(items, plans);
    ItemsOfKinds(t, order, plans);
    ItemBlocksDiffer(items, plans);
    ItemBlocksExactly(items, plans);
    forall b | b in blocks
      ensures b.plan in plans && KeyOf(b.plan) in t.chunks && b.starts == Gaps(b.plan, Parts(t, b.plan))
    {
      var m :| m in items && PlanOfKind(plans, m.kind) == Some(b.plan) && b.starts == Sorted(m.chunkIndices);
      var p := ItemOfState(t, order, plans, m);
      PlanGaps(t, plans, p);
      OnlyPlanOfKind(plans, p);
    }
    forall p | p in plans && KeyOf(p) in t.chunks ensures Block(p, Gaps(p, Parts(t, p))) in blocks {
      ItemOfPlan(t, order, plans, p);
      PlanGaps(t, plans, p);
      OnlyPlanOfKind(plans, p);
    }
  }

  lemma PlanGaps(t: Transfer, plans: seq<Plan>, p: Plan)
    requires NfcReady(t, plans) && p in plans && KeyOf(p) in t.chunks
    ensures Sorted(Gaps(p, Parts(t, p))) == Gaps(p, Parts(t, p))
  {
    hide Sound, Gaps, Sorted, NamesPlans;
    EntryItem(t, p);
    SortedRising(Gaps(p, Parts(t, p)));
  }

  // ---- The first round ----

  /** Nothing of the artifact is left to ask for a second time. */
  ghost predicate Clean(t: Transfer, plan: Plan) {
    KeyOf(plan) in t.chunks ==> !Listed(t, plan) && Gaps(plan, Parts(t, plan)) == [|plan.chunks| - 1]
  }

  lemma WholeBlock(t: Transfer, plan: Plan, plans: seq<Plan>, size: nat)
    requires plan in plans && Sound(t, plan) && |Concat(plan.chunks)| <= size
    ensures var b := Block(plan, [0]);
            && Ready(t, b, plans, size) && EffectOf(t, b) == if LastHeld(t, plan) then Fails else Leaves(None)
  {
    hide Sound, Concat, Range;
    SoundPlan(t, plan);
    HeldWithoutEntry(t, plan);
    assert GapsFrom(plan, Held(t, plan), 0);
    assert [0][1..] == [];
  }

  lemma SoundPlan(t: Transfer, plan: Plan)
    requires Sound(t, plan)
    ensures |plan.chunks| >= 1 && !Full(plan, Held(t, plan))
    ensures KeyOf(plan) in t.chunks ==> |plan.chunks| >= 2
    ensures KeyOf(plan) !in t.chunks ==> Ledger(t, plan) == None && Held(t, plan) == {}
    ensures KeyOf(plan) in t.chunks ==> Ledger(t, plan) == Some(Parts(t, plan).Keys)
  {
  }

  /** The resend of an entry's gaps, before and after its artifact was sent whole. */
  lemma EntryBlock(t: Transfer, plan: Plan, plans: seq<Plan>, size: nat)
    requires plan in plans && Sound(t, plan) && KeyOf(plan) in t.chunks && |Concat(plan.chunks)| <= size
    ensures var gaps := Gaps(plan, Parts(t, plan));
            var b := Block(plan, gaps);
            && Ready(t, b, plans, size)
            && match EffectOf(t, b)
               case Fails => LastHeld(t, plan)
               case Leaves(held) =>
                 !LastHeld(t, plan) && if gaps == [|plan.chunks| - 1] then held == None else IsStuck(plan, held)
  {
    hide Sound, Concat, Range, Gaps, BlockEffect, BlockCost, InRange, IsStuck;
    SoundPlan(t, plan);
    GapsShape(plan, Parts(t, plan));
    GapBlock(plan, Parts(t, plan));
  }

  lemma EntryBlockAfterWhole(t: Transfer, t1: Transfer, plan: Plan, plans: seq<Plan>, size: nat)
    requires plan in plans && Sound(t, plan) && KeyOf(plan) in t.chunks && !LastHeld(t, plan)
    requires Ledger(t1, plan) == None && |Concat(plan.chunks)| <= size
    ensures var b := Block(plan, Gaps(plan, Parts(t, plan)));
            && Ready(t1, b, plans, size)
            && match EffectOf(t1, b)
               case Fails => false
               case Leaves(held) => IsStuck(plan, held)
  {
    hide Sound, Concat, Range, Gaps, BlockEffect, BlockCost, InRange, IsStuck;
    SoundPlan(t, plan);
    GapsShape(plan, Parts(t, plan));
    GapBlockAfterWhole(plan, Gaps(plan, Parts(t, plan)));
  }

  lemma ListedBlocks(t: Transfer, plans: seq<Plan>)
    requires DistinctKinds(plans)
    ensures var blocks := NameBlocks(MissingNfcArtifacts(t), plans);
            && KindsDiffer(blocks)
            && (forall b <- blocks :: b.plan in plans && b == Block(b.plan, [0]) && Listed(t, b.plan))
            && (forall p <- plans | Listed(t, p) :: Block(p, [0]) in blocks)
  {
    hide ArtifactKind, MissingNfcArtifacts, NameBlocks, KindsDiffer, DistinctKinds;
    var names := MissingNfcArtifacts(t);
    ListedNames(t);
    NameBlocksExactly(names, plans);
    NameBlocksDiffer(names, plans);
    forall p | p in plans && Listed(t, p) ensures Block(p, [0]) in NameBlocks(names, plans) {
      NamesOfKinds(t, p.kind);
    }
  }

  /** The uploads of listed artifacts. */
  lemma ArtifactRound(t: Transfer, plans: seq<Plan>, size: nat, window: nat, fuel: nat)
    requires AllSound(t, plans) && Sendable(plans, size, window, fuel)
    ensures var names := MissingNfcArtifacts(t);
            var (outcome, t1) := JobsSession(ArtifactJobs(names, plans), window, t, fuel);
            if outcome == TOO_LARGE then t.bytesReceived + (2 * |names| + 1) * size > MAX_TOTAL_TRANSFER_BYTES
            else if exists p <- plans :: Listed(t, p) && LastHeld(t, p)
            then outcome == Stopped(UnexpectedServerResponse)
            else
              && outcome == Delivered
              && t1.bytesReceived <= t.bytesReceived + 2 * |names| * size
              && (forall p <- plans | Listed(t, p) ::
                    Ledger(t1, p) == None && p.kind in t1.artifacts && t1.artifacts[p.kind] == Concat(p.chunks))
              && Kept(t, t1, plans, KindsOf(NameBlocks(names, plans)))
  {
    hide Ledger, Sound, Listed, MissingNfcArtifacts, NameBlocks, EffectOf, Ready, KindsDiffer, JobsSession;
    hide LastHeld, Concat, Kept, InRange;
    var names := MissingNfcArtifacts(t);
    var blocks := NameBlocks(names, plans);
    ListedBlocks(t, plans);
    NameJobs(names, plans);
    forall p | p in plans ensures Ready(t, Block(p, [0]), plans, size) && InRange(p, [0])
      && EffectOf(t, Block(p, [0])) == (if LastHeld(t, p) then Fails else Leaves(None))
    {
      WholeBlock(t, p, plans, size);
      ReadyInRange(t, Block(p, [0]), plans, size);
    }
    Fewer(|blocks|, |names|, size);
    BlocksSent(blocks, plans, size, window, t, fuel);
    assert SomeFails(t, blocks) <==> exists p <- plans :: Listed(t, p) && LastHeld(t, p);
    var (outcome, t1) := JobsSession(ArtifactJobs(names, plans), window, t, fuel);
    if outcome != TOO_LARGE && !SomeFails(t, blocks) {
      forall p | p in plans && Listed(t, p)
        ensures Ledger(t1, p) == None && p.kind in t1.artifacts && t1.artifacts[p.kind] == Concat(p.chunks)
      {
        assert Sent(t, Block(p, [0]), t1);
      }
    }
  }

  lemma Fewer(a: nat, b: nat, size: nat)
    requires a <= b
    ensures 2 * a * size <= 2 * b * size && (2 * a + 1) * size <= (2 * b + 1) * size
  {
  }

  lemma NfcSound(t: Transfer, plans: seq<Plan>)
    requires NfcReady(t, plans)
    ensures AllSound(t, plans)
  {
  }

  /** The resends of listed gaps, after the listed artifacts were sent. */
  lemma GapRound(t: Transfer, t1: Transfer, order: seq<Key>, plans: seq<Plan>, size: nat, window: nat, fuel: nat)
    requires WalksEntries(order, t) && NfcReady(t, plans) && Sendable(plans, size, window, fuel)
    requires Kept(t, t1, plans, KindsOf(NameBlocks(MissingNfcArtifacts(t), plans)))
    requires forall p <- plans | Listed(t, p) :: Ledger(t1, p) == None && !LastHeld(t, p)
    ensures var items := MissingTransferChunks(t, order, true);
            var (outcome, t2) := JobsSession(ChunkJobs(items, plans), window, t1, fuel);
            if outcome == TOO_LARGE then t1.bytesReceived + (2 * |items| + 1) * size > MAX_TOTAL_TRANSFER_BYTES
            else if exists p <- plans :: KeyOf(p) in t.chunks && LastHeld(t, p)
            then outcome == Stopped(UnexpectedServerResponse)
            else
              && outcome == Delivered
              && t2.bytesReceived <= t1.bytesReceived + 2 * |items| * size
              && (forall p <- plans | KeyOf(p) in t.chunks ::
                    if Clean(t, p)
                    then Ledger(t2, p) == None && p.kind in t2.artifacts && t2.artifacts[p.kind] == Concat(p.chunks)
                    else IsStuck(p, Ledger(t2, p)))
              && Kept(t1, t2, plans, KindsOf(ItemBlocks(items, plans)))
  {
    hide Ledger, Sound, Listed, MissingNfcArtifacts, MissingTransferChunks, NameBlocks, EffectOf, Ready;
    hide KindsDiffer, JobsSession, Concat, Kept, InRange, KeyOf, Gaps, Parts, ItemBlocks, IsStuck, NfcReady;
    hide Clean, GapEffect, LastHeld, SomeFails, AllSent, ChunkJobs, KindsOf;
    var items := MissingTransferChunks(t, order, true);
    var blocks := ItemBlocks(items, plans);
    ItemBlocksOfState(t, order, plans);
    ItemJobs(items, plans);
    KeptSound(t, t1, plans, KindsOf(NameBlocks(MissingNfcArtifacts(t), plans)));
    NfcSound(t, plans);
    forall p | p in plans && KeyOf(p) in t.chunks
      ensures Ready(t1, GapBlockOf(t, p), plans, size) && GapEffect(t, t1, p)
    {
      OneGapBlock(t, t1, plans, p, size, window, fuel);
    }
    forall b | b in blocks ensures Ready(t1, b, plans, size) {
      assert b == GapBlockOf(t, b.plan);
    }
    Fewer(|blocks|, |items|, size);
    BlocksSent(blocks, plans, size, window, t1, fuel);
    GapFailures(t, t1, blocks, plans);
    var (outcome, t2) := JobsSession(ChunkJobs(items, plans), window, t1, fuel);
    if outcome != TOO_LARGE && !SomeFails(t1, blocks) {
      GapsSent(t, t1, t2, blocks, plans);
    }
  }

  function GapBlockOf(t: Transfer, p: Plan): Block {
    Block(p, Gaps(p, Parts(t, p)))
  }

  /** The blocks are those of the plans with an entry, and do what they are to do. */
  ghost predicate AreGapBlocks(t: Transfer, t1: Transfer, blocks: seq<Block>, plans: seq<Plan>) {
    && (forall b <- blocks ::
          b.plan in plans && KeyOf(b.plan) in t.chunks && b.starts == Gaps(b.plan, Parts(t, b.plan)))
    && (forall p <- plans | KeyOf(p) in t.chunks :: Block(p, Gaps(p, Parts(t, p))) in blocks && GapEffect(t, t1, p))
  }

  lemma GapFailures(t: Transfer, t1: Transfer, blocks: seq<Block>, plans: seq<Plan>)
    requires AreGapBlocks(t, t1, blocks, plans)
    ensures SomeFails(t1, blocks) <==> exists p <- plans :: KeyOf(p) in t.chunks && LastHeld(t, p)
  {
    hide EffectOf, InRange, KeyOf, Gaps, Parts, LastHeld, IsStuck, Clean;
    if SomeFails(t1, blocks) {
      var b :| b in blocks && InRange(b.plan, b.starts) && EffectOf(t1, b) == Fails;
      assert b == Block(b.plan, Gaps(b.plan, Parts(t, b.plan))) && GapEffect(t, t1, b.plan);
    }
    forall p | p in plans && KeyOf(p) in t.chunks && LastHeld(t, p) ensures SomeFails(t1, blocks) {
      var b := Block(p, Gaps(p, Parts(t, p)));
      assert b in blocks && GapEffect(t, t1, p);
    }
  }

  lemma GapsSent(t: Transfer, t1: Transfer, t2: Transfer, blocks: seq<Block>, plans: seq<Plan>)
    requires AreGapBlocks(t, t1, blocks, plans) && AllSent(t1, blocks, t2)
    ensures forall p <- plans | KeyOf(p) in t.chunks ::
              if Clean(t, p)
              then Ledger(t2, p) == None && p.kind in t2.artifacts && t2.artifacts[p.kind] == Concat(p.chunks)
              else IsStuck(p, Ledger(t2, p))
  {
    hide EffectOf, InRange, KeyOf, Gaps, Parts, LastHeld, IsStuck, Clean, Ledger, Concat;
    forall p | p in plans && KeyOf(p) in t.chunks
      ensures if Clean(t, p)
              then Ledger(t2, p) == None && p.kind in t2.artifacts && t2.artifacts[p.kind] == Concat(p.chunks)
              else IsStuck(p, Ledger(t2, p))
    {
      var b := Block(p, Gaps(p, Parts(t, p)));
      assert b in blocks && GapEffect(t, t1, p) && Sent(t1, b, t2);
    }
  }

  /** What resending the gaps that state `t` has does in state `t1`. */
  ghost predicate GapEffect(t: Transfer, t1: Transfer, p: Plan) {
    var b := Block(p, Gaps(p, Parts(t, p)));
    && InRange(b.plan, b.starts)
    && match EffectOf(t1, b)
       case Fails => LastHeld(t, p)
       case Leaves(held) => !LastHeld(t, p) && if Clean(t, p) then held == None else IsStuck(p, held)
  }

  lemma OneGapBlock(t: Transfer, t1: Transfer, plans: seq<Plan>, p: Plan, size: nat, window: nat, fuel: nat)
    requires AllSound(t, plans) && Sendable(plans, size, window, fuel)
    requires p in plans && KeyOf(p) in t.chunks
    requires Kept(t, t1, plans, KindsOf(NameBlocks(MissingNfcArtifacts(t), plans)))
    requires Listed(t, p) ==> Ledger(t1, p) == None && !LastHeld(t, p)
    ensures Ready(t1, Block(p, Gaps(p, Parts(t, p))), plans, size) && GapEffect(t, t1, p)
  {
    hide Ledger, Sound, Listed, MissingNfcArtifacts, NameBlocks, BlockEffect, BlockCost, Ready, LastHeld;
    hide Concat, KeyOf, Gaps, Parts, IsStuck;
    if Listed(t, p) {
      EntryBlockAfterWhole(t, t1, p, plans, size);
    } else {
      EntryBlock(t, p, plans, size);
      ListedBlocks(t, plans);
      UnlistedKind(t, plans, p);
      BlockKept(t, t1, plans, KindsOf(NameBlocks(MissingNfcArtifacts(t), plans)), Block(p, Gaps(p, Parts(t, p))), size);
    }
    ReadyInRange(t1, Block(p, Gaps(p, Parts(t, p))), plans, size);
  }

  lemma UnlistedKind(t: Transfer, plans: seq<Plan>, p: Plan)
    requires DistinctKinds(plans) && p in plans && !Listed(t, p)
    ensures p.kind !in KindsOf(NameBlocks(MissingNfcArtifacts(t), plans))
  {
    hide Listed, MissingNfcArtifacts, NameBlocks;
    ListedBlocks(t, plans);
    var blocks := NameBlocks(MissingNfcArtifacts(t), plans);
    forall b | b in blocks ensures b.plan.kind != p.kind {
      if b.plan.kind == p.kind {
        SameKind(plans, b.plan, p);
      }
    }
  }

  ghost predicate SomeLastHeld(t: Transfer, plans: seq<Plan>) {
    exists p <- plans :: KeyOf(p) in t.chunks && LastHeld(t, p)
  }

  /** The state after a first round that was not broken off. */
  ghost predicate AfterFirst(t: Transfer, t2: Transfer, plans: seq<Plan>) {
    && NfcReady(t2, plans) && MissingNfcArtifacts(t2) == []
    && (forall p <- plans | !Clean(t, p) :: IsStuck(p, Ledger(t2, p)))
    && (forall p <- plans | Clean(t, p) :: Ledger(t2, p) == None)
    && (forall p <- plans | Clean(t, p) && (Listed(t, p) || KeyOf(p) in t.chunks) ::
          p.kind in t2.artifacts && t2.artifacts[p.kind] == Concat(p.chunks))
  }

  /** What is resent of a list, and once more, at most. */
  function Cost(list: MissingNfcData, size: nat): nat {
    (2 * (|list.artifacts| + |list.chunks|) + 1) * size
  }

  /** The messages of the first round. */
  lemma FirstRound(t: Transfer, order: seq<Key>, plans: seq<Plan>, size: nat, window: nat, fuel: nat)
    requires WalksEntries(order, t) && NfcReady(t, plans) && Sendable(plans, size, window, fuel)
    ensures var list := NfcStatus(t, order);
            var (outcome, t2) := JobsSession(NfcJobs(list, plans), window, t, fuel);
            if outcome == TOO_LARGE then t.bytesReceived + Cost(list, size) > MAX_TOTAL_TRANSFER_BYTES
            else if SomeLastHeld(t, plans) then outcome == Stopped(UnexpectedServerResponse)
            else
              && outcome == Delivered && AfterFirst(t, t2, plans)
              && t2.bytesReceived + size <= t.bytesReceived + Cost(list, size)
  {
    hide Ledger, Sound, Listed, MissingNfcArtifacts, MissingTransferChunks, NameBlocks, JobsSession, LastHeld;
    hide Concat, Kept, KeyOf, Gaps, Parts, ItemBlocks, IsStuck, NfcReady, ArtifactJobs, ChunkJobs, Clean;
    hide AfterFirst;
    var names, items := MissingNfcArtifacts(t), MissingTransferChunks(t, order, true);
    NfcSound(t, plans);
    TwoLists(|names|, |items|, size);
    JobsSplit(ArtifactJobs(names, plans), ChunkJobs(items, plans), window, t, fuel);
    ArtifactRound(t, plans, size, window, fuel);
    var (artifacts, t1) := JobsSession(ArtifactJobs(names, plans), window, t, fuel);
    forall p | p in plans && LastHeld(t, p) ensures KeyOf(p) in t.chunks {
      HeldHasEntry(t, p);
    }
    if artifacts != TOO_LARGE && !exists p <- plans :: Listed(t, p) && LastHeld(t, p) {
      GapRound(t, t1, order, plans, size, window, fuel);
      var (gaps, t2) := JobsSession(ChunkJobs(items, plans), window, t1, fuel);
      if gaps != TOO_LARGE && !SomeLastHeld(t, plans) {
        BothRounds(t, t1, t2, order, plans);
      }
    }
  }

  lemma HeldHasEntry(t: Transfer, p: Plan)
    requires LastHeld(t, p)
    ensures KeyOf(p) in t.chunks
  {
  }

  lemma TwoLists(a: nat, b: nat, size: nat)
    ensures (2 * (a + b) + 1) * size == 2 * a * size + 2 * b * size + size
    ensures (2 * a + 1) * size == 2 * a * size + size && (2 * b + 1) * size == 2 * b * size + size
    ensures 2 * a * size >= 0 && 2 * b * size >= 0
  {
  }

  lemma KeptPlan(t: Transfer, t': Transfer, plans: seq<Plan>, kinds: set<int>, p: Plan)
    requires Kept(t, t', plans, kinds) && p in plans
    ensures p.kind in t.artifacts ==> p.kind in t'.artifacts
    ensures p.kind !in kinds ==>
              && Ledger(t', p) == Ledger(t, p) && (p.kind in t'.artifacts <==> p.kind in t.artifacts)
              && (p.kind in t.artifacts ==> t'.artifacts[p.kind] == t.artifacts[p.kind])
  {
    hide Ledger, Parts, AllSound;
  }

  /** A plan that had no entry has none after either round, and is stored if it was listed. */
  lemma BothRoundsWithoutEntry(t: Transfer, t1: Transfer, t2: Transfer, order: seq<Key>, plans: seq<Plan>, p: Plan)
    requires WalksEntries(order, t) && NfcReady(t, plans) && DistinctKinds(plans)
    requires Kept(t, t1, plans, KindsOf(NameBlocks(MissingNfcArtifacts(t), plans)))
    requires Kept(t1, t2, plans, KindsOf(ItemBlocks(MissingTransferChunks(t, order, true), plans)))
    requires p in plans && KeyOf(p) !in t.chunks
    requires Listed(t, p) ==>
               Ledger(t1, p) == None && p.kind in t1.artifacts && t1.artifacts[p.kind] == Concat(p.chunks)
    ensures Ledger(t2, p) == None
    ensures Listed(t, p) ==> p.kind in t2.artifacts && t2.artifacts[p.kind] == Concat(p.chunks)
  {
    hide NfcReady, DistinctKinds, Kept, Listed, KeyOf, Ledger, MissingNfcArtifacts, MissingTransferChunks;
    hide NameBlocks, ItemBlocks, Concat;
    WithoutEntry(t, order, plans, p);
    KeptPlan(t1, t2, plans, KindsOf(ItemBlocks(MissingTransferChunks(t, order, true), plans)), p);
    if !Listed(t, p) {
      UnlistedKind(t, plans, p);
      KeptPlan(t, t1, plans, KindsOf(NameBlocks(MissingNfcArtifacts(t), plans)), p);
      NoLedger(t, p);
    }
  }

  lemma NoLedger(t: Transfer, p: Plan)
    ensures Ledger(t, p) == None <==> KeyOf(p) !in t.chunks
  {
  }

  /** Both rounds keep the state ready, and nothing required is missing after them. */
  lemma StillReady(t: Transfer, t1: Transfer, t2: Transfer, plans: seq<Plan>, a: set<int>, b: set<int>)
    requires NfcReady(t, plans) && Kept(t, t1, plans, a) && Kept(t1, t2, plans, b)
    requires forall p <- plans | Listed(t, p) :: p.kind in t1.artifacts
    ensures NfcReady(t2, plans) && MissingNfcArtifacts(t2) == []
  {
    hide Ledger, Parts, AllSound, MissingNfcArtifacts, KeyOf, ArtifactKind, PlanOfKind;
    KeptTwice(t, t1, t2, plans, a, b);
    forall kind: nat | kind <= 2 ensures kind in t2.artifacts {
      NamesOfKinds(t, kind);
    }
    NoNames(t2);
    forall key | key in t2.chunks && IsNfcKind(key.0) ensures exists p <- plans :: KeyOf(p) == key {
      assert (forall p <- plans :: KeyOf(p) != key) ==> key in t.chunks;
    }
  }

  lemma BothRounds(t: Transfer, t1: Transfer, t2: Transfer, order: seq<Key>, plans: seq<Plan>)
    requires WalksEntries(order, t) && NfcReady(t, plans) && DistinctKinds(plans)
    requires Kept(t, t1, plans, KindsOf(NameBlocks(MissingNfcArtifacts(t), plans)))
    requires Kept(t1, t2, plans, KindsOf(ItemBlocks(MissingTransferChunks(t, order, true), plans)))
    requires forall p <- plans | Listed(t, p) ::
               Ledger(t1, p) == None && p.kind in t1.artifacts && t1.artifacts[p.kind] == Concat(p.chunks)
    requires forall p <- plans | KeyOf(p) in t.chunks ::
               if Clean(t, p)
               then Ledger(t2, p) == None && p.kind in t2.artifacts && t2.artifacts[p.kind] == Concat(p.chunks)
               else IsStuck(p, Ledger(t2, p))
    ensures AfterFirst(t, t2, plans)
  {
    hide NfcReady, DistinctKinds, Kept, Listed, KeyOf, Ledger, MissingNfcArtifacts, MissingTransferChunks;
    hide NameBlocks, ItemBlocks, Concat, IsStuck, Gaps, Parts;
    StillReady(t, t1, t2, plans, KindsOf(NameBlocks(MissingNfcArtifacts(t), plans)),
               KindsOf(ItemBlocks(MissingTransferChunks(t, order, true), plans)));
    forall p | p in plans && KeyOf(p) !in t.chunks
      ensures Ledger(t2, p) == None
      ensures Listed(t, p) ==> p.kind in t2.artifacts && t2.artifacts[p.kind] == Concat(p.chunks)
    {
      BothRoundsWithoutEntry(t, t1, t2, order, plans, p);
    }
  }

  lemma NoNames(t: Transfer)
    requires forall kind: nat | kind <= 2 :: kind in t.artifacts
    ensures MissingNfcArtifacts(t) == []
  {
    assert 0 in t.artifacts && 1 in t.artifacts && 2 in t.artifacts;
  }

  lemma WithoutEntry(t: Transfer, order: seq<Key>, plans: seq<Plan>, p: Plan)
    requires WalksEntries(order, t) && NfcReady(t, plans) && DistinctKinds(plans) && p in plans && KeyOf(p) !in t.chunks
    ensures p.kind !in KindsOf(ItemBlocks(MissingTransferChunks(t, order, true), plans))
  {
    hide NfcReady, MissingTransferChunks, ItemBlocks, Gaps, Parts;
    ItemBlocksOfState(t, order, plans);
    var blocks := ItemBlocks(MissingTransferChunks(t, order, true), plans);
    forall b | b in blocks ensures b.plan.kind != p.kind {
      if b.plan.kind == p.kind {
        SameKind(plans, b.plan, p);
      }
    }
  }

  // ---- The outcome of the NFC phase ----

  lemma NothingMissing(t: Transfer, order: seq<Key>, plans: seq<Plan>)
    requires WalksEntries(order, t) && NfcReady(t, plans)
    ensures MissingTransferChunks(t, order, true) == [] <==> forall p <- plans :: KeyOf(p) !in t.chunks
  {
    hide NfcReady, MissingTransferChunks, Gaps, Parts;
    var items := MissingTransferChunks(t, order, true);
    if items != [] {
      var p := ItemOfState(t, order, plans, items[0]);
    }
    forall p | p in plans && KeyOf(p) in t.chunks ensures items != [] {
      ItemOfPlan(t, order, plans, p);
    }
  }

  /** The state does not have a gap or a required artifact missing. */
  ghost predicate NfcComplete(t: Transfer, plans: seq<Plan>) {
    MissingNfcArtifacts(t) == [] && forall p <- plans :: KeyOf(p) !in t.chunks
  }

  lemma NfcRound(plans: seq<Plan>, window: nat, t: Transfer, order: Walk, verdict: PhaseAnswer, fuel: nat, rounds: nat)
    requires WalksAll(order) && NfcReady(t, plans) && rounds > 0 && IsVerdict(verdict)
    ensures PhaseSession(Nfc(plans), window, t, order, verdict, fuel, rounds)
         == if NfcComplete(t, plans) then (Closing(Nfc(plans), verdict), 1, t)
            else
              var (outcome, t') := JobsSession(NfcJobs(NfcStatus(t, order(t)), plans), window, t, fuel);
              if outcome != Delivered then (UploadEnded(outcome), 1, t')
              else
                var (later, count, t'') := PhaseSession(Nfc(plans), window, t', order, verdict, fuel, rounds - 1);
                (later, count + 1, t'')
  {
    hide NfcReady, PhaseSession, JobsSession, NfcJobs, MissingTransferChunks, MissingNfcArtifacts;
    PhaseStep(Nfc(plans), window, t, order, verdict, fuel, rounds);
    assert WalksEntries(order(t), t);
    NothingMissing(t, order(t), plans);
  }

  lemma StuckBlock(t: Transfer, plan: Plan, window: nat, fuel: nat)
    requires Sound(t, plan) && KeyOf(plan) in t.chunks && IsStuck(plan, Ledger(t, plan)) && window >= 1
    requires fuel >= |plan.chunks|
    ensures var (outcome, t') := JobsSession(IndexJobs(Gaps(plan, Parts(t, plan)), plan), window, t, fuel);
            if outcome == TOO_LARGE then !RoomFor(t, |Concat(plan.chunks)|)
            else outcome == Stopped(UnexpectedServerResponse) && SameElsewhere(t, t', plan)
  {
    hide Sound, JobsSession, Parts, KeyOf, BlockEffect, BlockCost, Concat, Gaps, InRange;
    SoundPlan(t, plan);
    StuckFails(plan, Parts(t, plan));
    GapsShape(plan, Parts(t, plan));
    OneBlock(plan, Gaps(plan, Parts(t, plan)), window, t, fuel);
  }

  lemma OnlyChunks(list: MissingNfcData, plans: seq<Plan>)
    requires list.artifacts == []
    ensures NfcJobs(list, plans) == BlockJobs(ItemBlocks(list.chunks, plans))
  {
    ItemJobs(list.chunks, plans);
    assert [] + ChunkJobs(list.chunks, plans) == ChunkJobs(list.chunks, plans);
  }

  /** A stuck artifact breaks off the round that is to fill its gaps. */
  lemma StuckRound(t: Transfer, order: seq<Key>, plans: seq<Plan>, size: nat, window: nat, fuel: nat)
    requires WalksEntries(order, t) && NfcReady(t, plans) && Sendable(plans, size, window, fuel)
    requires MissingNfcArtifacts(t) == []
    requires forall p <- plans | KeyOf(p) in t.chunks :: IsStuck(p, Ledger(t, p))
    requires exists p <- plans :: KeyOf(p) in t.chunks
    ensures var outcome := JobsSession(NfcJobs(NfcStatus(t, order), plans), window, t, fuel).0;
            if outcome == TOO_LARGE then !RoomFor(t, size) else outcome == Stopped(UnexpectedServerResponse)
  {
    hide NfcReady, MissingTransferChunks, MissingNfcArtifacts, ItemBlocks, Gaps, Parts, IsStuck, Ledger;
    hide JobsSession, KeyOf, Concat, NfcJobs, Sound;
    var blocks := ItemBlocks(MissingTransferChunks(t, order, true), plans);
    ItemBlocksOfState(t, order, plans);
    OnlyChunks(NfcStatus(t, order), plans);
    NfcSound(t, plans);
    var b := blocks[0];
    assert b in blocks;
    JobsSplit(IndexJobs(b.starts, b.plan), BlockJobs(blocks[1..]), window, t, fuel);
    StuckBlock(t, b.plan, window, fuel);
  }

  /**
  The NFC phase closes if and only if every partly received artifact lacks its last chunk only and
  is not one that is listed as missing besides.  Otherwise the client stops with an error: in the
  first round if the last chunk of some incomplete artifact is there, and in the second if not.
  When the phase closes, everything that was asked for is stored.
  */
  lemma NfcPhaseOutcome(
    plans: seq<Plan>, size: nat, window: nat, t: Transfer, order: Walk, verdict: PhaseAnswer, fuel: nat, rounds: nat)
    requires WalksAll(order) && NfcReady(t, plans) && Sendable(plans, size, window, fuel)
    requires IsVerdict(verdict) && rounds >= 2
    ensures var (outcome, count, t') := PhaseSession(Nfc(plans), window, t, order, verdict, fuel, rounds);
            if outcome == UploadEnded(TOO_LARGE)
            then t.bytesReceived + Cost(NfcStatus(t, order(t)), size) > MAX_TOTAL_TRANSFER_BYTES
            else
              && count == (if NfcComplete(t, plans) || SomeLastHeld(t, plans) then 1 else 2)
              && if forall p <- plans :: Clean(t, p) then
                   && outcome == Closing(Nfc(plans), verdict) && NfcComplete(t', plans)
                   && forall p <- plans | Listed(t, p) || KeyOf(p) in t.chunks ::
                        p.kind in t'.artifacts && t'.artifacts[p.kind] == Concat(p.chunks)
                 else outcome == UploadEnded(Stopped(UnexpectedServerResponse))
  {
    hide NfcReady, MissingTransferChunks, MissingNfcArtifacts, Gaps, Parts, IsStuck, Ledger, JobsSession;
    hide Concat, PhaseSession, NfcJobs, LastHeld;
    NfcRound(plans, window, t, order, verdict, fuel, rounds);
    assert WalksEntries(order(t), t);
    if NfcComplete(t, plans) {
      CompleteListsNothing(t, plans);
    } else {
      FirstRound(t, order(t), plans, size, window, fuel);
      var (first, t2) := JobsSession(NfcJobs(NfcStatus(t, order(t)), plans), window, t, fuel);
      if SomeLastHeld(t, plans) {
        LastHeldNotClean(t, plans);
      } else if first != TOO_LARGE {
        NfcRound(plans, window, t2, order, verdict, fuel, rounds - 1);
        assert WalksEntries(order(t2), t2);
        forall p | p in plans ensures Ledger(t2, p) == None <==> KeyOf(p) !in t2.chunks {
          NoLedger(t2, p);
        }
        forall p | p in plans && IsStuck(p, Ledger(t2, p)) ensures Ledger(t2, p) != None {
          StuckIsSome(p, Ledger(t2, p));
        }
        if exists p <- plans :: !Clean(t, p) {
          StuckRound(t2, order(t2), plans, size, window, fuel);
        }
      }
    }
  }

  lemma StuckIsSome(p: Plan, held: Option<set<nat>>)
    requires IsStuck(p, held)
    ensures held != None
  {
  }

  lemma CompleteListsNothing(t: Transfer, plans: seq<Plan>)
    requires NfcComplete(t, plans)
    ensures forall p <- plans :: Clean(t, p) && !Listed(t, p) && KeyOf(p) !in t.chunks
  {
    forall p | p in plans ensures !Listed(t, p) {
      if p.kind <= 2 {
        NamesOfKinds(t, p.kind);
      }
    }
  }

  lemma LastHeldNotClean(t: Transfer, plans: seq<Plan>)
    requires NfcReady(t, plans) && SomeLastHeld(t, plans)
    ensures exists p <- plans :: !Clean(t, p)
  {
    hide NfcReady, Sound, Gaps;
    NfcSound(t, plans);
    var p :| p in plans && KeyOf(p) in t.chunks && LastHeld(t, p);
    SoundPlan(t, p);
    GapsShape(p, Parts(t, p));
    assert !Clean(t, p);
  }
}
