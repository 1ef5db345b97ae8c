/**
 * How a verified database and a witness must relate, and what recovery makes of the witness.
 *
 * Main result: `RecoveryExactly` - recovery succeeds exactly on the two-phase states of one
 * history, and then always leaves the witness committed at the database checkpoint.
 */
module AncestryRecovery {
  import opened Wrappers
  import opened AncestryRecords
  import opened WitnessCodec

  function Committed(cp: Checkpoint): Witness {
    Witness(cp, None)
  }

  function Prepared(before: Checkpoint, after: Checkpoint): Witness {
    Witness(before, Some(Pending(before, after)))
  }

  function PriorHead(records: seq<Record>): Digest {
    if |records| <= 1 then Zero else HeadOf(records[..|records| - 1])
  }

  /** The witness that recovery leaves behind; `None` is an integrity failure. */
  function Recover(id: Identity, cp: Checkpoint, priorHead: Digest, w: Witness): Option<Witness> {
    if w.committed.context != id.context || w.committed.rootDigest != id.rootDigest then None
    else match w.pending
      case None => if cp == w.committed then Some(w) else None
      case Some(Pending(before, after)) =>
        if before != w.committed || after.context != id.context || after.rootDigest != id.rootDigest
           || after.version != VERSION || after.sequence != before.sequence + 1 then None
        else if cp == after && (before.sequence + 1 != cp.sequence || before.eventHead != priorHead) then None
        else if cp == before then Some(Committed(before))
        else if cp == after then Some(Committed(after))
        else None
  }

  /** A checkpoint that could follow the history, whatever its event head. */
  predicate NextCheckpoint(id: Identity, h: seq<Record>, after: Checkpoint) {
    && after.context == id.context && after.rootDigest == id.rootDigest
    && after.version == VERSION && after.sequence == |h| + 1
  }

  /** Committed at the history; prepared from it; or prepared and already inserted. */
  predicate AgreesWith(id: Identity, h: seq<Record>, w: Witness) {
    || w == Committed(CheckpointOf(id, h))
    || (w.pending.Some? && NextCheckpoint(id, h, w.pending.value.after)
        && w == Prepared(CheckpointOf(id, h), w.pending.value.after))
    || (|h| >= 2 && w == Prepared(CheckpointOf(id, h[..|h| - 1]), CheckpointOf(id, h)))
  }

  lemma RecoveryExactly(id: Identity, h: seq<Record>, w: Witness)
    requires ReadableWitness(w) && h != []
    ensures Recover(id, CheckpointOf(id, h), PriorHead(h), w).Some? <==> AgreesWith(id, h, w)
    ensures Recover(id, CheckpointOf(id, h), PriorHead(h), w).Some? ==>
              Recover(id, CheckpointOf(id, h), PriorHead(h), w).value == Committed(CheckpointOf(id, h))
  {
  }

  /** Checkpoints of a valid history survive the trip through the witness file. */
  lemma HistoryIsReadable(id: Identity, h: seq<Record>)
    requires ValidHistory(id, h)
    ensures Readable(CheckpointOf(id, h))
  {
    assert MayFollow(id, h[..0], h[0]);
  }
}
