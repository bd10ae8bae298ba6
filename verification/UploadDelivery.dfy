/**
A normal return of the upload loop means delivery, whatever the network does, as long as the server
acknowledges only what it stores, never forgets a stored chunk and never asks for a retry beyond its
first gap from the start index of the call on.
*/
module UploadDelivery {
  import opened Wrappers
  import opened ChunkedUpload

  datatype ChunkKey = ChunkKey(kind: nat, index: nat, chunkIndex: nat)

  // The chunks a server has stored, over all artifacts.
  type Store = map<ChunkKey, Bytes>

  ghost predicate Has(plan: Plan, store: Store, c: nat) {
    var key := ChunkKey(plan.kind, plan.index, c);
    c < |plan.chunks| && key in store && store[key] == plan.chunks[c]
  }

  ghost predicate HasRange(plan: Plan, store: Store, lo: int, hi: nat) {
    forall c: nat | lo <= c < hi :: Has(plan, store, c)
  }

  /** Nothing stored is lost or overwritten. */
  ghost predicate Keeps(before: Store, after: Store) {
    forall key | key in before :: key in after && after[key] == before[key]
  }

  ghost predicate HonestError(plan: Plan, code: string, body: Option<RetryBody>, store: Store, lo: int) {
    var retry := RetryIndex(code, body, plan);
    retry.Some? ==> HasRange(plan, store, lo, retry.value)
  }

  ghost predicate HonestResponse(plan: Plan, r: Response, store: Store, lo: int) {
    match r.errorCode
    case Some(code) => HonestError(plan, code, r.errorBody, store, lo)
    case None =>
      && (forall c: nat | c < |plan.chunks| && r.ackMessage == Some(ChunkAck(plan.kind, plan.index, c)) ::
            Has(plan, store, c))
      && (r.ackMessage == Some(FinalAck(plan.kind, plan.index)) ==> HasRange(plan, store, 0, |plan.chunks|))
  }

  ghost predicate HonestResult(plan: Plan, result: WindowResult, store: Store, lo: int) {
    match result
    case Responses(responses) => forall r <- responses :: HonestResponse(plan, r, store, lo)
    case Failed(error) => error.ServerError? ==> HonestError(plan, error.code, error.body, store, lo)
  }

  /** An assumption on the server that `NfcPhase` shows not to hold of the repository's own. */
  ghost predicate NeverForgets(stores: seq<Store>) {
    forall k, next | 0 <= k && next == k + 1 < |stores| :: Keeps(stores[k], stores[next])
  }

  /**
  `stores[k]` is what the server holds before turn `k`; turn `k` tells the truth about
  `stores[k + 1]`, as far as a call from `lo` is concerned.
  */
  ghost predicate Honest(plan: Plan, turns: seq<Turn>, stores: seq<Store>, lo: int) {
    && |stores| == |turns| + 1 && NeverForgets(stores)
    && (forall k | 0 <= k < |turns| :: HonestResult(plan, turns[k].result, stores[k + 1], lo))
  }

  lemma AckIsEvidence(plan: Plan, r: Response, c: nat, store: Store, lo: int)
    requires HonestResponse(plan, r, store, lo) && r.errorCode.None?
    requires c < |plan.chunks| && IsExpectedAck(r.ackMessage, plan, c)
    ensures Has(plan, store, c)
  {
  }

  /** As many distinct acknowledged chunks as requested ones means every requested one. */
  lemma {:induction false} Pigeonhole(acked: set<nat>, lo: nat, hi: nat)
    requires lo <= hi && |acked| == hi - lo
    requires forall c <- acked :: lo <= c < hi
    ensures forall c: nat | lo <= c < hi :: c in acked
    decreases hi - lo
  {
    if lo < hi {
      if hi - 1 in acked {
        var fewer := acked - {hi - 1};
        Pigeonhole(fewer, lo, hi - 1);
        forall c: nat | lo <= c < hi ensures c in acked {
          assert c < hi - 1 ==> c in fewer;
        }
      } else {
        NotTooMany(acked, lo, hi - 1);
      }
    }
  }

  lemma {:induction false} NotTooMany(acked: set<nat>, lo: nat, hi: nat)
    requires lo <= hi && forall c <- acked :: lo <= c < hi
    ensures |acked| <= hi - lo
    decreases hi - lo
  {
    if lo == hi {
      assert acked == {};
    } else {
      NotTooMany(acked - {hi - 1}, lo, hi - 1);
    }
  }

  lemma {:induction false} JudgeIsSound(
    plan: Plan, next: nat, end: nat, rs: seq<Response>, acked: set<nat>, store: Store, lo: int)
    requires next <= end <= |plan.chunks|
    requires forall r <- rs :: HonestResponse(plan, r, store, lo)
    requires forall c <- acked :: next <= c < end && Has(plan, store, c)
    ensures var v := Judge(plan, next, end, rs, acked);
            && (v.Advance? ==> HasRange(plan, store, next, end))
            && (v.RetryAt? ==> HasRange(plan, store, lo, v.chunkIndex))
    decreases |rs|
  {
    if rs == [] {
      if |acked| == end - next {
        Pigeonhole(acked, next, end);
      }
    } else if rs[0].errorCode.None? {
      assert HonestResponse(plan, rs[0], store, lo);
      var m := FirstMatch(plan, rs[0].ackMessage, next, end);
      if m.Some? {
        AckIsEvidence(plan, rs[0], m.value, store, lo);
        JudgeIsSound(plan, next, end, rs[1..], acked + {m.value}, store, lo);
      }
    } else {
      assert HonestResponse(plan, rs[0], store, lo);
    }
  }

  lemma KeepsRange(plan: Plan, before: Store, after: Store, lo: int, hi: nat)
    requires Keeps(before, after) && HasRange(plan, before, lo, hi)
    ensures HasRange(plan, after, lo, hi)
  {
    forall c: nat | lo <= c < hi ensures Has(plan, after, c) {
      assert Has(plan, before, c);
    }
  }

  lemma HonestTail(plan: Plan, turns: seq<Turn>, stores: seq<Store>, lo: int)
    requires Honest(plan, turns, stores, lo) && turns != []
    ensures Honest(plan, turns[1..], stores[1..], lo)
  {
    hide HonestResult, Keeps;
    var t, s := turns[1..], stores[1..];
    forall k, next | 0 <= k && next == k + 1 < |s| ensures Keeps(s[k], s[next]) {
      assert Keeps(stores[k + 1], stores[next + 1]);
    }
    forall k | 0 <= k < |t| ensures HonestResult(plan, t[k].result, s[k + 1], lo) {
      assert HonestResult(plan, turns[k + 1].result, stores[k + 1 + 1], lo);
    }
  }

  lemma {:induction false} RunDelivers(
    plan: Plan, lo: int, next: nat, window: nat, turns: seq<Turn>, stores: seq<Store>)
    requires Honest(plan, turns, stores, lo) && next <= |plan.chunks|
    requires HasRange(plan, stores[0], lo, next)
    ensures var r := Run(plan, next, window, turns);
            r.outcome == Delivered ==> HasRange(plan, stores[r.used], lo, |plan.chunks|)
    decreases |turns|
  {
    if next < |plan.chunks| && turns != [] && !turns[0].cancelled {
      var end := WindowEnd(plan, next, window);
      var result := turns[0].result;
      assert Keeps(stores[0], stores[1]) && HonestResult(plan, result, stores[0 + 1], lo);
      KeepsRange(plan, stores[0], stores[1], lo, next);
      if result.Responses? {
        JudgeIsSound(plan, next, end, result.responses, {}, stores[1], lo);
      }
      HonestTail(plan, turns, stores, lo);
      match JudgeTurn(plan, next, end, result)
      case Advance => RunDelivers(plan, lo, end, window, turns[1..], stores[1..]);
      case RetryAt(c) => RunDelivers(plan, lo, c, 1, turns[1..], stores[1..]);
      case Fail(_) =>
    }
  }

  /**
  The main theorem: when the call returns normally, every chunk from the start index on is stored,
  for every script of acknowledgements, retries and failures of an honest server.
  */
  lemma UploadDelivers(plan: Plan, start: nat, window: nat, turns: seq<Turn>, stores: seq<Store>)
    requires Honest(plan, turns, stores, start) && start < |plan.chunks|
    ensures var r := Upload(plan, start, window, turns);
            r.outcome == Delivered ==> HasRange(plan, stores[r.used], start, |plan.chunks|)
  {
    RunDelivers(plan, start, start, window, turns, stores);
  }

  /** The store's chunks of a plan, in order. */
  ghost function Reassembled(plan: Plan, store: Store): seq<Bytes>
    requires HasRange(plan, store, 0, |plan.chunks|)
  {
    seq(|plan.chunks|, c requires 0 <= c < |plan.chunks| =>
      assert Has(plan, store, c); store[ChunkKey(plan.kind, plan.index, c)])
  }

  /** From index 0, with the chunks cut from `raw`: what the server reassembles is `raw`. */
  lemma UploadDeliversRaw(plan: Plan, raw: Bytes, window: nat, turns: seq<Turn>, stores: seq<Store>)
    requires Honest(plan, turns, stores, 0) && plan.chunks != [] && Concat(plan.chunks) == raw
    ensures var r := Upload(plan, 0, window, turns);
            r.outcome == Delivered ==>
              && HasRange(plan, stores[r.used], 0, |plan.chunks|)
              && Concat(Reassembled(plan, stores[r.used])) == raw
  {
    UploadDelivers(plan, 0, window, turns, stores);
    var r := Upload(plan, 0, window, turns);
    if r.outcome == Delivered {
      var parts := Reassembled(plan, stores[r.used]);
      forall c: nat | c < |plan.chunks| ensures parts[c] == plan.chunks[c] {
        assert Has(plan, stores[r.used], c);
      }
      assert parts == plan.chunks;
    }
  }
}
