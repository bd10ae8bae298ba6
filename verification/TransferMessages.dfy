/**
Which data messages the server of `TransferServer` refuses, with which error, what it takes in of the
others, and the bounds its state keeps.
*/
module TransferMessages {
  import opened Wrappers
  import Decimal
  import opened ChunkedUpload
  import opened TransferServer

  /** How many chunks the message says there are; one if it says nothing. */
  function Total(r: Request): nat {
    if r.chunkTotal == 0 then 1 else r.chunkTotal
  }

  /** The message keeps to every limit of the server. */
  ghost predicate InLimits(t: Transfer, r: Request) {
    && |r.raw| <= 262144 && t.bytesReceived + |r.raw| <= 50331648
    && r.kind <= 8 && r.kind != 3 && r.index == 0 && (r.kind == 8 ==> r.total == 1)
    && r.chunkIndex < Total(r) <= 256
    && ((r.kind, r.index) in t.chunks ==> t.chunks[(r.kind, r.index)].chunkTotal == Total(r))
  }

  lemma PassesIff(t: Transfer, r: Request)
    ensures Validate(t, Normalize(r)).None? <==> InLimits(t, r)
  {
  }

  /** The errors of the others, in the order of the checks; a retry names the chunk to send again. */
  lemma RefusedMessages(t: Transfer, r: Request)
    requires !InLimits(t, r)
    ensures var code := if |r.raw| > 262144 then "FRAME_TOO_LARGE"
                        else if r.kind == 3 then "LEGACY_SELFIE_KIND_UNSUPPORTED"
                        else if r.kind > 8 then "UNKNOWN_DATA_KIND"
                        else if t.bytesReceived + |r.raw| > 50331648 then "TRANSFER_TOO_LARGE"
                        else if r.index != 0 || (r.kind == 8 && r.total != 1) || r.chunkIndex >= Total(r)
                        then "DATA_CHUNK_RETRY"
                        else if Total(r) > 256 then "CHUNK_TOTAL_TOO_LARGE"
                        else "DATA_CHUNK_RETRY";
            var body := if code == "DATA_CHUNK_RETRY" then Some(RetryBody(r.kind, r.index, r.chunkIndex)) else None;
            Process(t, r) == (Response(Some(code), body, None), t)
  {
    PassesIff(t, r);
  }

  /** The parts of an artifact after the message. */
  function PartsWith(t: Transfer, r: Request): map<nat, Bytes> {
    var key := (r.kind, r.index);
    (if key in t.chunks then t.chunks[key].parts else map[])[r.chunkIndex := r.raw]
  }

  /** The bytes are counted, unless the part was there; other artifacts' parts stay as they were. */
  lemma PassedBytes(t: Transfer, r: Request)
    requires InLimits(t, r)
    ensures var t' := Process(t, r).1;
            var key := (r.kind, r.index);
            var again := Total(r) > 1 && key in t.chunks && r.chunkIndex in t.chunks[key].parts;
            && t'.bytesReceived == t.bytesReceived + (if again then 0 else |r.raw|)
            && t'.chunks - {key} == t.chunks - {key}
  {
    hide Validate, AllPresent, Merged, ChunkAck, FinalAck, StorageError;
    PassesIff(t, r);
  }

  /** While a part is missing the message's part is kept, and acknowledged by its index. */
  lemma PassedPart(t: Transfer, r: Request, i: nat)
    requires InLimits(t, r) && i < Total(r) && i !in PartsWith(t, r)
    ensures var (response, t') := Process(t, r);
            && t'.artifacts == t.artifacts
            && t'.chunks == t.chunks[(r.kind, r.index) := Entry(Total(r), PartsWith(t, r))]
            && response == Response(None, None, Some("data_chunk_ok_" + Decimal.Text(r.kind) + "_"
                                                     + Decimal.Text(r.index) + "_" + Decimal.Text(r.chunkIndex)))
  {
    hide Validate, Merged, FinalAck, StorageError;
    PassesIff(t, r);
  }

  /** Once none is, the parts put together are the artifact, and none of them is kept. */
  lemma PassedLast(t: Transfer, r: Request, parts: seq<Bytes>)
    requires InLimits(t, r) && |parts| == Total(r)
    requires forall i: nat | i < Total(r) :: i in PartsWith(t, r) && PartsWith(t, r)[i] == parts[i]
    ensures var (response, t') := Process(t, r);
            var data := Concat(parts);
            && t'.chunks == (if Total(r) > 1 then t.chunks - {(r.kind, r.index)} else t.chunks)
            && if |data| > 16777216 || (r.kind == 6 && |data| <= 8) then
                 && t'.artifacts == t.artifacts
                 && response == Response(Some(if |data| > 16777216 then "ARTIFACT_TOO_LARGE"
                                              else "ACTIVE_AUTH_PAYLOAD_INVALID"), None, None)
               else
                 && t'.artifacts == t.artifacts[r.kind := data]
                 && response == Response(None, None, Some("data_ok_" + Decimal.Text(r.kind) + "_"
                                                          + Decimal.Text(r.index)))
  {
    hide Validate, ChunkAck;
    PassesIff(t, r);
    if Total(r) == 1 {
      assert parts == [r.raw] && parts[1..] == [];
      assert Concat(parts) == r.raw + Concat(parts[1..]) == r.raw;
    } else {
      assert parts == seq(Total(r), i requires 0 <= i < Total(r) => PartsWith(t, r)[i]);
      assert Merged(Entry(Total(r), PartsWith(t, r))) == Concat(parts);
    }
  }

  // ---- Bounds ----

  /** What the server's state is bounded by. */
  ghost predicate Bounded(t: Transfer) {
    && t.bytesReceived <= 50331648
    && (forall key <- t.chunks :: t.chunks[key].chunkTotal <= 256)
    && (forall key <- t.chunks, i <- t.chunks[key].parts ::
          i < t.chunks[key].chunkTotal && |t.chunks[key].parts[i]| <= 262144)
    && (forall kind <- t.artifacts :: |t.artifacts[kind]| <= 16777216)
  }

  /** No message takes it beyond that. */
  lemma ProcessKeepsBounds(t: Transfer, r: Request)
    requires Bounded(t)
    ensures Bounded(Process(t, r).1)
  {
    hide Process, Decimal.Text;
    if !InLimits(t, r) {
      RefusedMessages(t, r);
    } else {
      var t' := Process(t, r).1;
      PassedBytes(t, r);
      if i: nat :| i < Total(r) && i !in PartsWith(t, r) {
        PassedPart(t, r, i);
      } else {
        var parts := seq(Total(r), i requires 0 <= i < Total(r) => PartsWith(t, r)[i]);
        PassedLast(t, r, parts);
      }
    }
  }
}
