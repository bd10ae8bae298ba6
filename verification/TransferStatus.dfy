/**
What the server says is missing: `getNfcTransferStatus` and `getLivenessTransferStatus`
(`apps/api/src/v1/verify/data-payload-status.ts`) and `buildMissingDataMessage`
(`socket-missing-data.ts`).  The order in which the map of entries is walked is a parameter.
*/
module TransferStatus {
  import opened Wrappers
  import opened ChunkedUpload
  import opened TransferServer
  import opened UploadResend

  // What one of the two messages lists.
  datatype MissingData = NfcMissing(list: MissingNfcData) | LivenessMissing(chunks: seq<MissingChunks>)

  /** The indices below `n` that `parts` lacks, in ascending order. */
  function MissingBelow(parts: map<nat, Bytes>, n: nat): (r: seq<int>)
    ensures forall i | 0 <= i < |r| :: 0 <= r[i] < n
  {
    if n == 0 then [] else MissingBelow(parts, n - 1) + if n - 1 in parts then [] else [n - 1]
  }

  method GetMissingChunkIndices(entry: Entry) returns (missing: seq<int>)
    ensures missing == MissingBelow(entry.parts, entry.chunkTotal)
  {
    missing := [];
    for index := 0 to entry.chunkTotal
      invariant missing == MissingBelow(entry.parts, index)
    {
      if index !in entry.parts {
        missing := missing + [index];
      }
    }
  }

  /** Exactly the missing indices. */
  lemma {:induction false} MissingExactly(parts: map<nat, Bytes>, n: nat)
    ensures forall c: int :: c in MissingBelow(parts, n) <==> 0 <= c < n && c !in parts
  {
    if n > 0 {
      MissingExactly(parts, n - 1);
    }
  }

  /** In ascending order. */
  lemma {:induction false} MissingRises(parts: map<nat, Bytes>, n: nat)
    ensures Rising(MissingBelow(parts, n))
  {
    if n > 0 {
      MissingRises(parts, n - 1);
    }
  }

  lemma NothingBelow(entry: Entry)
    ensures MissingBelow(entry.parts, entry.chunkTotal) == [] <==> AllPresent(entry)
  {
    MissingExactly(entry.parts, entry.chunkTotal);
    var missing := MissingBelow(entry.parts, entry.chunkTotal);
    if missing != [] {
      assert missing[0] in missing;
    }
    forall i: nat | i < entry.chunkTotal && i !in entry.parts ensures missing != [] {
      assert i in missing;
    }
  }

  predicate IsOfPhase(key: Key, nfc: bool) {
    if nfc then IsNfcKind(key.0) else key.0 == LIVENESS_KIND
  }

  /** What one entry adds to the list. */
  function MissingOf(key: Key, entry: Entry, nfc: bool): seq<MissingChunks> {
    var indices := MissingBelow(entry.parts, entry.chunkTotal);
    if IsOfPhase(key, nfc) && indices != [] then [MissingChunks(key.0, key.1, indices)] else []
  }

  function MissingTransferChunks(t: Transfer, order: seq<Key>, nfc: bool): seq<MissingChunks>
    requires forall key <- order :: key in t.chunks
  {
    if order == [] then []
    else
      var n := |order| - 1;
      MissingTransferChunks(t, order[..n], nfc) + MissingOf(order[n], t.chunks[order[n]], nfc)
  }

  /** The keys of the entries, each once. */
  ghost predicate WalksEntries(order: seq<Key>, t: Transfer) {
    (forall key :: key in order <==> key in t.chunks) && Distinct(order)
  }

  method GetMissingTransferChunks(t: Transfer, order: seq<Key>, nfc: bool) returns (missing: seq<MissingChunks>)
    requires forall key <- order :: key in t.chunks
    ensures missing == MissingTransferChunks(t, order, nfc)
  {
    hide MissingBelow;
    missing := [];
    for i := 0 to |order|
      invariant missing == MissingTransferChunks(t, order[..i], nfc)
    {
      var key := order[i];
      assert order[..i + 1][..i] == order[..i];
      if IsOfPhase(key, nfc) {
        var indices := GetMissingChunkIndices(t.chunks[key]);
        if |indices| > 0 {
          missing := missing + [MissingChunks(key.0, key.1, indices)];
        }
      }
    }
    assert order[..|order|] == order;
  }

  function MissingNfcArtifacts(t: Transfer): seq<string> {
    Unless(0 in t.artifacts, "dg1") + Unless(1 in t.artifacts, "dg2") + Unless(2 in t.artifacts, "sod")
  }

  function Unless(present: bool, artifact: string): seq<string> {
    if present then [] else [artifact]
  }

  function NfcStatus(t: Transfer, order: seq<Key>): MissingNfcData
    requires forall key <- order :: key in t.chunks
  {
    MissingNfcData(MissingNfcArtifacts(t), MissingTransferChunks(t, order, true))
  }

  predicate IsComplete(status: MissingNfcData) {
    status.artifacts == [] && status.chunks == []
  }

  /** The message a phase is answered with, or none if nothing is missing. */
  function MissingDataMessage(t: Transfer, order: seq<Key>, liveness: bool): Option<MissingData>
    requires forall key <- order :: key in t.chunks
  {
    var nfc := NfcStatus(t, order);
    if !IsComplete(nfc) then Some(NfcMissing(nfc))
    else if !liveness then None
    else
      var chunks := MissingTransferChunks(t, order, false);
      if LIVENESS_KIND in t.artifacts && chunks == [] then None else Some(LivenessMissing(chunks))
  }

  /** The artifacts the phase requires are stored, and no entry of it lacks a part. */
  ghost predicate HasAll(t: Transfer, liveness: bool) {
    && (forall kind: nat | kind <= 2 :: kind in t.artifacts)
    && (forall key <- t.chunks | IsOfPhase(key, true) :: AllPresent(t.chunks[key]))
    && (liveness ==>
          && LIVENESS_KIND in t.artifacts
          && forall key <- t.chunks | IsOfPhase(key, false) :: AllPresent(t.chunks[key]))
  }

  lemma NoneMissing(t: Transfer, order: seq<Key>, nfc: bool)
    requires WalksEntries(order, t)
    ensures MissingTransferChunks(t, order, nfc) == []
       <==> forall key <- t.chunks | IsOfPhase(key, nfc) :: AllPresent(t.chunks[key])
  {
    hide MissingTransferChunks;
    ListedExactly(t, order, nfc);
    var items := MissingTransferChunks(t, order, nfc);
    forall key | key in t.chunks && IsOfPhase(key, nfc)
      ensures AllPresent(t.chunks[key]) <==> MissingOf(key, t.chunks[key], nfc) == []
    {
      NothingBelow(t.chunks[key]);
    }
    if items != [] {
      assert items[0] in items;
      var key :| key in order && MissingOf(key, t.chunks[key], nfc) == [items[0]];
      assert !AllPresent(t.chunks[key]);
    }
    forall key | key in t.chunks && IsOfPhase(key, nfc) && !AllPresent(t.chunks[key]) ensures items != [] {
      var list := MissingOf(key, t.chunks[key], nfc);
      assert key in order && list[0] in list;
    }
  }

  /** There is a message if and only if something is missing. */
  lemma NoMessageIff(t: Transfer, order: seq<Key>, liveness: bool)
    requires WalksEntries(order, t)
    ensures MissingDataMessage(t, order, liveness) == None <==> HasAll(t, liveness)
  {
    hide MissingTransferChunks, AllPresent;
    NoneMissing(t, order, true);
    NoneMissing(t, order, false);
    if MissingNfcArtifacts(t) == [] {
      assert 0 in t.artifacts && 1 in t.artifacts && 2 in t.artifacts;
    }
  }

  method BuildMissingDataMessage(t: Transfer, order: seq<Key>, liveness: bool) returns (message: Option<MissingData>)
    requires WalksEntries(order, t)
    ensures message == MissingDataMessage(t, order, liveness)
    ensures message == None <==> HasAll(t, liveness)
  {
    NoMessageIff(t, order, liveness);
    var artifacts: seq<string> := [];
    if 0 !in t.artifacts {
      artifacts := artifacts + ["dg1"];
    }
    if 1 !in t.artifacts {
      artifacts := artifacts + ["dg2"];
    }
    if 2 !in t.artifacts {
      artifacts := artifacts + ["sod"];
    }
    var nfcChunks := GetMissingTransferChunks(t, order, true);
    assert artifacts == MissingNfcArtifacts(t);
    if artifacts != [] || nfcChunks != [] {
      return Some(NfcMissing(MissingNfcData(artifacts, nfcChunks)));
    }
    if !liveness {
      return None;
    }
    var chunks := GetMissingTransferChunks(t, order, false);
    message := if LIVENESS_KIND in t.artifacts && chunks == [] then None else Some(LivenessMissing(chunks));
  }

  /** The list has an item for each entry of the phase that lacks something, and no other. */
  lemma {:induction false} ListedExactly(t: Transfer, order: seq<Key>, nfc: bool)
    requires forall key <- order :: key in t.chunks
    ensures forall m <- MissingTransferChunks(t, order, nfc) ::
              exists key :: key in order && MissingOf(key, t.chunks[key], nfc) == [m]
    ensures forall key <- order :: forall m <- MissingOf(key, t.chunks[key], nfc) ::
              m in MissingTransferChunks(t, order, nfc)
  {
    hide MissingBelow;
    if order != [] {
      var n := |order| - 1;
      assert order == order[..n] + [order[n]];
      ListedExactly(t, order[..n], nfc);
    }
  }

  /** The items are of different entries. */
  ghost predicate ItemsDiffer(missing: seq<MissingChunks>) {
    forall i, j | 0 <= i < j < |missing| :: missing[i].kind != missing[j].kind || missing[i].index != missing[j].index
  }

  lemma ItemsDifferSnoc(missing: seq<MissingChunks>, last: MissingChunks)
    requires ItemsDiffer(missing) && forall m <- missing :: m.kind != last.kind || m.index != last.index
    ensures ItemsDiffer(missing + [last])
  {
    assert forall i | 0 <= i < |missing| :: missing[i] in missing;
  }

  /** No entry is listed twice. */
  lemma {:induction false} ListedOnce(t: Transfer, order: seq<Key>, nfc: bool)
    requires (forall key <- order :: key in t.chunks) && Distinct(order)
    ensures ItemsDiffer(MissingTransferChunks(t, order, nfc))
  {
    hide MissingBelow, ItemsDiffer;
    if order == [] {
      NoItems();
    } else {
      var n := |order| - 1;
      assert order == order[..n] + [order[n]];
      ListedOnce(t, order[..n], nfc);
      ListedExactly(t, order[..n], nfc);
      var before := MissingTransferChunks(t, order[..n], nfc);
      var last := MissingOf(order[n], t.chunks[order[n]], nfc);
      if last == [] {
        assert before + [] == before;
      } else {
        forall m | m in before ensures m.kind != last[0].kind || m.index != last[0].index {
          var key :| key in order[..n] && MissingOf(key, t.chunks[key], nfc) == [m];
          assert m == MissingOf(key, t.chunks[key], nfc)[0] && key != order[n];
        }
        ItemsDifferSnoc(before, last[0]);
        assert last == [last[0]];
      }
    }
  }

  lemma NoItems()
    ensures ItemsDiffer([])
  {
  }
}
