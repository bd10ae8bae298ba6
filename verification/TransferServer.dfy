/**
The server's side of the chunked transfer: `processDataPayload` with its validation, chunk
assembly and storage (`apps/api/src/v1/verify/data-payload*.ts`).
*/
module TransferServer {
  import opened Wrappers
  import opened ChunkedUpload

  const MAX_FRAME_BYTES: nat := 256 * 1024
  const MAX_CHUNKS_PER_KEY: nat := 256
  const MAX_KIND_BYTES: nat := 16 * 1024 * 1024
  const MAX_TOTAL_TRANSFER_BYTES: nat := 48 * 1024 * 1024
  const LEGACY_SELFIE_KIND: nat := 3
  const ACTIVE_AUTH_KIND: nat := 6
  const ACTIVE_AUTH_CHALLENGE_BYTES: nat := 8

  datatype Entry = Entry(chunkTotal: nat, parts: map<nat, Bytes>)

  type Key = (nat, nat)

  // `artifacts` holds the complete data of each kind; the active-auth challenge and signature,
  // two fields in the source, are the first 8 bytes and the rest of theirs.
  datatype Transfer = Transfer(chunks: map<Key, Entry>, artifacts: map<nat, Bytes>, bytesReceived: nat)

  function Retry(r: Request): Response {
    Response(Some("DATA_CHUNK_RETRY"), Some(RetryBody(r.kind, r.index, r.chunkIndex)), None)
  }

  function Refuse(code: string): Response {
    Response(Some(code), None, None)
  }

  function Acknowledge(text: string): Response {
    Response(None, None, Some(text))
  }

  predicate IsNfcKind(kind: nat) {
    kind <= 7 && kind != LEGACY_SELFIE_KIND
  }

  /** A chunk total of zero, which a message without one has, counts as one. */
  function Normalize(r: Request): Request {
    if r.chunkTotal == 0 then r.(chunkTotal := 1) else r
  }

  /** The error a normalized request is refused with, in the order of the source's checks. */
  function Validate(t: Transfer, r: Request): Option<Response> {
    var key := (r.kind, r.index);
    if |r.raw| > MAX_FRAME_BYTES then Some(Refuse("FRAME_TOO_LARGE"))
    else if r.kind == LEGACY_SELFIE_KIND then Some(Refuse("LEGACY_SELFIE_KIND_UNSUPPORTED"))
    else if r.kind > LIVENESS_KIND then Some(Refuse("UNKNOWN_DATA_KIND"))
    else if t.bytesReceived + |r.raw| > MAX_TOTAL_TRANSFER_BYTES then Some(Refuse("TRANSFER_TOO_LARGE"))
    else if IsNfcKind(r.kind) && r.index != 0 then Some(Retry(r))
    else if r.kind == LIVENESS_KIND && (r.total != 1 || r.index != 0) then Some(Retry(r))
    else if r.chunkIndex >= r.chunkTotal then Some(Retry(r))
    else if r.chunkTotal > MAX_CHUNKS_PER_KEY then Some(Refuse("CHUNK_TOTAL_TOO_LARGE"))
    else if key in t.chunks && t.chunks[key].chunkTotal != r.chunkTotal then Some(Retry(r))
    else None
  }

  predicate AllPresent(entry: Entry) {
    forall i: nat | i < entry.chunkTotal :: i in entry.parts
  }

  function Merged(entry: Entry): Bytes
    requires AllPresent(entry)
  {
    Concat(seq(entry.chunkTotal, i requires 0 <= i < entry.chunkTotal => entry.parts[i]))
  }

  function EntryFor(t: Transfer, r: Request): Entry {
    var key := (r.kind, r.index);
    if key in t.chunks then t.chunks[key] else Entry(r.chunkTotal, map[])
  }

  /** The data that `r` completes, if any, and the transfer after taking `r` in. */
  function Assemble(t: Transfer, r: Request): (Option<Bytes>, Transfer) {
    if r.chunkTotal <= 1 then (Some(r.raw), t.(bytesReceived := t.bytesReceived + |r.raw|))
    else
      var key := (r.kind, r.index);
      var held := EntryFor(t, r);
      var entry := held.(parts := held.parts[r.chunkIndex := r.raw]);
      var received := t.bytesReceived + if r.chunkIndex in held.parts then 0 else |r.raw|;
      if AllPresent(entry)
      then (Some(Merged(entry)), t.(chunks := t.chunks - {key}, bytesReceived := received))
      else (None, t.(chunks := t.chunks[key := entry], bytesReceived := received))
  }

  /** The error a complete artifact is refused with when it is to be stored. */
  function StorageError(kind: nat, data: Bytes): Option<string> {
    if |data| > MAX_KIND_BYTES then Some("ARTIFACT_TOO_LARGE")
    else if kind == ACTIVE_AUTH_KIND && |data| <= ACTIVE_AUTH_CHALLENGE_BYTES then Some("ACTIVE_AUTH_PAYLOAD_INVALID")
    else None
  }

  /** The answer to the request that completes an artifact. */
  function Completion(kind: nat, index: nat, data: Bytes): Response {
    match StorageError(kind, data)
    case Some(code) => Refuse(code)
    case None => Acknowledge(FinalAck(kind, index))
  }

  function Stored(artifacts: map<nat, Bytes>, kind: nat, data: Bytes): map<nat, Bytes> {
    if StorageError(kind, data).Some? then artifacts else artifacts[kind := data]
  }

  /** A normalized data message: the answer, and the transfer state after it. */
  function Take(t: Transfer, r: Request): (Response, Transfer) {
    var refusal := Validate(t, r);
    if refusal.Some? then (refusal.value, t)
    else
      var (complete, t') := Assemble(t, r);
      match complete
      case None => (Acknowledge(ChunkAck(r.kind, r.index, r.chunkIndex)), t')
      case Some(data) => (Completion(r.kind, r.index, data), t'.(artifacts := Stored(t'.artifacts, r.kind, data)))
  }

  /** One data message. */
  function Process(t: Transfer, r: Request): (Response, Transfer) {
    Take(t, Normalize(r))
  }

  /**
  What every state of the server satisfies: entries are of supported kinds at index 0, expect at
  least two chunks and are not complete.
  */
  ghost predicate WellFormed(t: Transfer) {
    forall key <- t.chunks ::
      && key.0 <= LIVENESS_KIND && key.0 != LEGACY_SELFIE_KIND && key.1 == 0
      && t.chunks[key].chunkTotal >= 2 && !AllPresent(t.chunks[key])
  }

  /** Every message keeps it. */
  lemma ProcessKeepsWellFormed(t: Transfer, r: Request)
    requires WellFormed(t)
    ensures WellFormed(Process(t, r).1)
  {
    hide AllPresent, Merged;
    var n := Normalize(r);
    if Validate(t, n).None? {
      assert IsNfcKind(n.kind) || n.kind == LIVENESS_KIND;
    }
  }

  /** Having every index of `[0, n)` takes at least `n` entries. */
  lemma {:induction false} PresentCount(parts: map<nat, Bytes>, n: nat)
    requires forall i: nat | i < n :: i in parts
    ensures |parts| >= n
  {
    if n > 0 {
      var fewer := parts - {n - 1};
      PresentCount(fewer, n - 1);
      assert fewer.Keys == parts.Keys - {n - 1};
      assert |fewer.Keys| == |parts.Keys| - 1;
    }
  }

  class TransferState {
    var chunks: map<Key, Entry>
    var artifacts: map<nat, Bytes>
    var bytesReceived: nat

    constructor ()
      ensures State() == Transfer(map[], map[], 0)
    {
      chunks, artifacts, bytesReceived := map[], map[], 0;
    }

    ghost function State(): Transfer
      reads this
    {
      Transfer(chunks, artifacts, bytesReceived)
    }

    static method CollectChunks(entry: Entry) returns (buffers: Option<seq<Bytes>>)
      ensures buffers.Some? <==> AllPresent(entry)
      ensures buffers.Some? ==> Concat(buffers.value) == Merged(entry)
    {
      var collected: seq<Bytes> := [];
      for index := 0 to entry.chunkTotal
        invariant forall i: nat | i < index :: i in entry.parts
        invariant |collected| == index && forall i: nat | i < index :: collected[i] == entry.parts[i]
      {
        if index !in entry.parts {
          return None;
        }
        collected := collected + [entry.parts[index]];
      }
      assert collected == seq(entry.chunkTotal, i requires 0 <= i < entry.chunkTotal => entry.parts[i]);
      buffers := Some(collected);
    }

    static method MergeChunks(parts: seq<Bytes>) returns (merged: Bytes)
      ensures merged == Concat(parts)
    {
      merged := [];
      for i := 0 to |parts|
        invariant merged == Concat(parts[..i])
      {
        ConcatAppend(parts[..i], parts[i]);
        assert parts[..i + 1] == parts[..i] + [parts[i]];
        merged := merged + parts[i];
      }
      assert parts[..|parts|] == parts;
    }

    method AssembleChunk(r: Request) returns (data: Option<Bytes>)
      modifies this`chunks, this`bytesReceived
      ensures (data, State()) == Assemble(old(State()), r)
    {
      if r.chunkTotal <= 1 {
        bytesReceived := bytesReceived + |r.raw|;
        return Some(r.raw);
      }
      var key := (r.kind, r.index);
      var entry := if key in chunks then chunks[key] else Entry(r.chunkTotal, map[]);
      var isNewPart := r.chunkIndex !in entry.parts;
      entry := entry.(parts := entry.parts[r.chunkIndex := r.raw]);
      chunks := chunks[key := entry];
      if isNewPart {
        bytesReceived := bytesReceived + |r.raw|;
      }
      if |entry.parts| < entry.chunkTotal {
        if AllPresent(entry) {
          PresentCount(entry.parts, entry.chunkTotal);
        }
        return None;
      }
      var buffers := CollectChunks(entry);
      if buffers.None? {
        return None;
      }
      var merged := MergeChunks(buffers.value);
      chunks := chunks - {key};
      assert chunks == old(chunks) - {key};
      data := Some(merged);
    }

    method ProcessDataPayload(payload: Request) returns (response: Response)
      modifies this
      ensures (response, State()) == Process(old(State()), payload)
    {
      var r := Normalize(payload);
      var refusal := Validate(Transfer(chunks, artifacts, bytesReceived), r);
      if refusal.Some? {
        return refusal.value;
      }
      var assembled := AssembleChunk(r);
      if assembled.None? {
        return Acknowledge(ChunkAck(r.kind, r.index, r.chunkIndex));
      }
      var data := assembled.value;
      var error := StorageError(r.kind, data);
      if error.Some? {
        return Refuse(error.value);
      }
      artifacts := artifacts[r.kind := data];
      response := Acknowledge(FinalAck(r.kind, r.index));
    }
  }
}
