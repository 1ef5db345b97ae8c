/**
 * The store itself: a committed database and a witness file, updated step by step.
 *
 * Every storage step may fail or be the last one the process performs, before or after
 * taking effect; an interrupted operation leaves what was durable at that moment.
 */
module AncestryStore {
  import opened Wrappers
  import opened AncestryRecords
  import opened WitnessCodec
  import opened AncestryDatabase
  import opened AncestryRecovery
  import opened AncestryCandidate

  datatype Fault = NoFault | FailsBefore | FailsAfter

  datatype Failure = Conflict | Rejected | Integrity | Interrupted

  /** Where one operation is interrupted, if anywhere. */
  datatype Faults = Faults(open: bool, recover: Fault, prepare: Fault, insert: bool, commit: Fault,
                           verify: bool, finalize: Fault, close: bool)

  const NO_FAULTS := Faults(false, NoFault, NoFault, false, NoFault, false, NoFault, false)

  /** Everything append demands of a record that is to follow these records. */
  ghost predicate Appendable(id: Identity, h: seq<Record>, r: Record) {
    h != [] && |h| < MAX_RECORDS && MayFollow(id, h, r)
  }

  /** The record fits behind this history: a known context, a new identifier, room, and parents whose scopes contain its own. */
  ghost predicate Fits(id: Identity, h: seq<Record>, r: Record) {
    && r.context == id.context && r.parents != [] && |h| < 4096
    && (forall j :: 0 <= j < |h| ==> h[j].id != r.id)
    && (forall p :: p in r.parents ==>
          exists j :: 0 <= j < |h| && h[j].id == p && forall l :: l in r.scope ==> l in h[j].scope)
  }

  lemma AppendableMeans(id: Identity, h: seq<Record>, r: Record)
    requires h != [] && r.Valid()
    ensures Appendable(id, h, r) <==> Fits(id, h, r)
  {
    MayFollowMeans(id, h, r);
  }

  /** The witness file is the text of a readable witness that agrees with the history. */
  ghost predicate WitnessAgrees(id: Identity, h: seq<Record>, t: Text) {
    ReadWitness(t).Some? && AgreesWith(id, h, ReadWitness(t).value)
  }

  /** Database and witness file agree on some history. */
  ghost predicate Recoverable(id: Identity, db: Database, t: Text) {
    exists h :: Holds(id, db, h) && WitnessAgrees(id, h, t)
  }

  /** The head of the last event but one, as recovery looks it up. */
  function StoredPriorHead(db: Database): Digest {
    if |db.events| <= 1 then Zero else db.events[|db.events| - 2].head
  }

  /** Given the verified history, the recovery decision is exactly recoverability. */
  lemma RecoveryDecides(id: Identity, db: Database, h: seq<Record>, t: Text)
    requires Holds(id, db, h)
    ensures Recoverable(id, db, t) <==> WitnessAgrees(id, h, t)
    ensures ReadWitness(t).Some? ==>
              var next := Recover(id, CheckpointOf(id, h), StoredPriorHead(db), ReadWitness(t).value);
              && (next.Some? <==> WitnessAgrees(id, h, t))
              && (next.Some? ==> next.value == Committed(CheckpointOf(id, h)))
    ensures TextLength(WitnessText(Committed(CheckpointOf(id, h)))) <= MAX_WITNESS
    ensures WitnessAgrees(id, h, WitnessText(Committed(CheckpointOf(id, h))))
  {
    forall x | Holds(id, db, x) ensures x == h { DatabaseBindsHistory(id, x, h); }
    HistoryIsReadable(id, h);
    var done := Committed(CheckpointOf(id, h));
    WitnessFits(done);
    ReadIsInverseOfWrite(WitnessText(done), done);
    StoredPriorHeadIsPriorHead(id, h);
    if ReadWitness(t).Some? {
      ReadIsInverseOfWrite(t, ReadWitness(t).value);
      RecoveryExactly(id, h, ReadWitness(t).value);
    }
  }

  lemma StoredPriorHeadIsPriorHead(id: Identity, h: seq<Record>)
    ensures StoredPriorHead(DatabaseOf(id, h)) == PriorHead(h)
  {
    var n := |h|;
    if n >= 2 {
      RowAt(h, n - 2);
      assert h[..n - 1][..n - 2] == h[..n - 2];
    }
  }

  /** What a completed creation leaves behind holds the root alone, and agrees. */
  lemma CreatedAgrees(context: string, root: Record)
    requires IsLabel(context) && root.Valid() && root.context == context && root.parents == []
    ensures var id := Identity(context, OfRecord(root));
      var cp := Checkpoint(context, OfRecord(root), VERSION, 1, OfHead(1, Zero, OfRecord(root)));
      && cp == CheckpointOf(id, [root])
      && Holds(id, Insert(Database(id, VERSION, [], []), 1, Zero, root), [root])
      && WitnessAgrees(id, [root], WitnessText(Committed(cp)))
  {
    hide WitnessText, ReadWitness, TextLength, IsLabel, MayFollow, RowOf, EventFor;
    var id := Identity(context, OfRecord(root));
    InsertExtends(id, [], root);
    RootAlone(root);
    assert [] + [root] == [root];
    HistoryIsReadable(id, [root]);
    var done := Committed(CheckpointOf(id, [root]));
    ReadIsInverseOfWrite(WitnessText(done), done);
  }

  class Store {
    const id: Identity
    var db: Database
    var witnessFile: Text
    ghost var history: seq<Record>

    ghost predicate Valid()
      reads this
    {
      Holds(id, db, history) && WitnessAgrees(id, history, witnessFile)
    }

    /** A completed creation. */
    constructor (context: string, root: Record)
      requires IsLabel(context) && root.Valid() && root.context == context && root.parents == []
      ensures Valid() && id == Identity(context, OfRecord(root)) && history == [root]
      ensures witnessFile == WitnessText(Committed(CheckpointOf(id, history)))
    {
      id := Identity(context, OfRecord(root));
      db := Insert(Database(Identity(context, OfRecord(root)), VERSION, [], []), 1, Zero, root);
      witnessFile := WitnessText(Committed(Checkpoint(context, OfRecord(root), VERSION, 1, OfHead(1, Zero, OfRecord(root)))));
      history := [root];
      new;
      CreatedAgrees(context, root);
    }

    /** Atomically replaces the witness file, unless the text is too large. */
    method WriteWitness(w: Witness, fault: Fault) returns (r: Result<(), Failure>)
      modifies `witnessFile
      ensures r.Ok? ==> witnessFile == WitnessText(w)
      ensures r.Err? ==> witnessFile == old(witnessFile) || (witnessFile == WitnessText(w) && r == Err(Interrupted))
      ensures r == Err(Integrity) <==> TextLength(WitnessText(w)) > MAX_WITNESS
      ensures r.Err? ==> r.error.Integrity? || r.error.Interrupted?
      ensures r.Ok? <==> fault.NoFault? && TextLength(WitnessText(w)) <= MAX_WITNESS
    {
      var data := WitnessText(w);
      if TextLength(data) > MAX_WITNESS { return Err(Integrity); }
      if fault.FailsBefore? { return Err(Interrupted); }
      witnessFile := data;
      if fault.FailsAfter? { return Err(Interrupted); }
      return Ok(());
    }

    /**
     * Verifies the database, reads the witness and finishes a pending write. Without a
     * fault it succeeds exactly when database and witness agree on some history.
     */
    method LockedState(fault: Fault) returns (r: Result<Verified, Failure>)
      modifies `witnessFile
      ensures r.Ok? ==> Holds(id, db, r.value.records) && WitnessAgrees(id, r.value.records, old(witnessFile))
      ensures r.Ok? ==> r.value.checkpoint == CheckpointOf(id, r.value.records)
      ensures r.Ok? ==> WitnessAgrees(id, r.value.records, witnessFile)
      ensures r.Ok? ==> ReadWitness(witnessFile) == Some(Committed(r.value.checkpoint))
      ensures r.Err? ==> r.error.Integrity? || r.error.Interrupted?
      ensures r == Err(Integrity) <==> !Recoverable(id, db, old(witnessFile))
      ensures r == Err(Integrity) ==> witnessFile == old(witnessFile)
      ensures r == Err(Interrupted) ==> !fault.NoFault?
      ensures r == Err(Interrupted) ==> Recoverable(id, db, witnessFile)
    {
      var verified := VerifyDb(id, db);
      if verified.None? { return Err(Integrity); }
      var Verified(cp, records) := verified.value;
      RecoveryDecides(id, db, records, witnessFile);
      var w := ReadWitness(witnessFile);
      if w.None? { return Err(Integrity); }
      var next := Recover(id, cp, StoredPriorHead(db), w.value);
      if next.None? { return Err(Integrity); }
      if w.value.pending.Some? {
        var written := WriteWitness(next.value, fault);
        RecoveryDecides(id, db, records, witnessFile);
        if written.Err? { return Err(Interrupted); }
        HistoryIsReadable(id, records);
        ReadIsInverseOfWrite(witnessFile, next.value);
      }
      return Ok(verified.value);
    }

    /** On a valid store recovery never reports an integrity failure. */
    method State(faults: Faults) returns (r: Result<Verified, Failure>)
      requires Valid()
      modifies `witnessFile
      ensures Valid()
      ensures r.Ok? ==> r.value == Verified(CheckpointOf(id, history), history)
      ensures r.Ok? ==> ReadWitness(witnessFile) == Some(Committed(CheckpointOf(id, history)))
      ensures r.Err? ==> r.error.Interrupted? && faults != NO_FAULTS
    {
      if faults.open { return Err(Interrupted); }
      RecoveryDecides(id, db, history, witnessFile);
      r := LockedState(faults.recover);
      RecoveryDecides(id, db, history, witnessFile);
      if r.Ok? {
        DatabaseBindsHistory(id, r.value.records, history);
        if faults.close { return Err(Interrupted); }
      }
    }

    /** The records, but only under exactly the expected checkpoint. */
    method Snapshot(expected: Checkpoint, faults: Faults) returns (r: Result<seq<Record>, Failure>)
      requires Valid()
      modifies `witnessFile
      ensures Valid()
      ensures r.Ok? ==> r.value == history && expected == CheckpointOf(id, history)
      ensures r == Err(Conflict) ==> expected != CheckpointOf(id, history)
      ensures r.Err? ==> r.error.Conflict? || r.error.Interrupted?
      ensures faults == NO_FAULTS ==> (r.Ok? <==> expected == CheckpointOf(id, history))
    {
      var state := State(faults);
      match state {
        case Err(e) => return Err(e);
        case Ok(Verified(cp, records)) =>
          if cp != expected { return Err(Conflict); }
          return Ok(records);
      }
    }

    /** Accepts exactly the ordered ancestor closure of a retained target. */
    method VerifyCandidate(target: string, candidate: seq<Record>, expected: Checkpoint, faults: Faults)
      returns (r: Result<bool, Failure>)
      requires Valid()
      modifies `witnessFile
      ensures Valid()
      ensures r.Ok? ==> expected == CheckpointOf(id, history)
      ensures r.Ok? ==> (r.value <==> target in Ids(history) && IsClosure(history, target, candidate))
      ensures r == Err(Rejected) <==> !IsLabel(target)
      ensures faults == NO_FAULTS && IsLabel(target) ==> (r.Ok? <==> expected == CheckpointOf(id, history))
    {
      if !IsLabel(target) { return Err(Rejected); }
      var snapshot := Snapshot(expected, faults);
      if snapshot.Err? { return Err(snapshot.error); }
      var records := snapshot.value;
      if target !in Ids(records) { return Ok(false); }
      var exact := Closure(records, target, id);
      ClosureIsUnique(id, records, target);
      return Ok(candidate == exact);
    }

    /** The admission checks of append, in order, against the verified records. */
    method CheckAppend(records: seq<Record>, r: Record) returns (ok: bool)
      requires ValidHistory(id, records) && r.Valid() && r.context == id.context && r.parents != []
      ensures ok <==> Appendable(id, records, r)
    {
      IdsDistinct(id, records);
      if |records| >= MAX_RECORDS { return false; }
      if r.id in Ids(records) { return false; }
      forall j | 0 <= j < |records| ensures records[j].id in Ids(records) { assert records[j] in records; }
      var known := map x | x in Ids(records) :: records[IndexOf(records, x)];
      ok := CheckParents(known, records, r);
    }

    /**
     * Compare-and-swap append: prepare the witness, insert, commit, verify every row
     * again, finalize the witness.
     */
    method Append(record: Record, expected: Checkpoint, faults: Faults) returns (r: Result<Checkpoint, Failure>)
      requires Valid() && record.Valid()
      modifies this
      ensures Valid()
      ensures history == old(history) || history == old(history) + [record]
      ensures history != old(history) ==> expected == CheckpointOf(id, old(history)) && Appendable(id, old(history), record)
      ensures r.Ok? ==> history == old(history) + [record] && r.value == CheckpointOf(id, history)
      ensures r.Ok? ==> ReadWitness(witnessFile) == Some(Committed(r.value))
      ensures r.Err? && !r.error.Interrupted? ==> history == old(history)
      ensures r.Err? ==> !r.error.Integrity?
      ensures r == Err(Conflict) ==> expected != CheckpointOf(id, old(history))
      ensures r == Err(Rejected) ==> !Appendable(id, old(history), record)
      ensures faults == NO_FAULTS ==>
                (r.Ok? <==> expected == CheckpointOf(id, old(history)) && Appendable(id, old(history), record))
      ensures faults == NO_FAULTS && expected == CheckpointOf(id, old(history)) ==>
                (r.Ok? <==> Fits(id, old(history), record))
    {
      hide Fits, Appendable, AgreesWith, WitnessText, TextLength, ReadWitness, DatabaseOf, Admitted, HeadOf, MayFollow;
      AppendableMeans(id, history, record);
      var before := Admit(record, expected, faults);
      if before.Err? { return Err(before.error); }
      NextCheckpointIs(id, history, record);
      var after := Checkpoint(id.context, id.rootDigest, VERSION, before.value.sequence + 1,
                              OfHead(before.value.sequence + 1, before.value.eventHead, OfRecord(record)));
      var prepared := Prepare(before.value, after, record, faults.prepare);
      if prepared.Err? { return Err(Interrupted); }
      r := Commit(before.value, after, record, faults);
    }

    /** The part of append before anything is written: recovery, compare, admission. */
    method Admit(record: Record, expected: Checkpoint, faults: Faults) returns (r: Result<Checkpoint, Failure>)
      requires Valid() && record.Valid()
      modifies `witnessFile
      ensures Valid()
      ensures r.Ok? ==> r.value == expected == CheckpointOf(id, history) && Appendable(id, history, record)
      ensures r.Err? ==> !r.error.Integrity? && (r.error.Interrupted? ==> faults != NO_FAULTS)
      ensures r == Err(Conflict) ==> expected != CheckpointOf(id, history)
      ensures r == Err(Rejected) ==> !Appendable(id, history, record)
    {
      if record.context != id.context || record.parents == [] { return Err(Rejected); }
      var state := State(faults.(close := false));
      if state.Err? { return Err(Interrupted); }
      var Verified(before, records) := state.value;
      if before != expected { return Err(Conflict); }
      var admissible := CheckAppend(records, record);
      if !admissible { return Err(Rejected); }
      return Ok(before);
    }

    /** Announces the transition; the committed database is still the old one. */
    method Prepare(before: Checkpoint, after: Checkpoint, ghost record: Record, fault: Fault) returns (r: Result<(), Failure>)
      requires Valid() && Appendable(id, history, record)
      requires before == CheckpointOf(id, history) && after == CheckpointOf(id, history + [record])
      modifies `witnessFile
      ensures Valid()
      ensures r.Ok? ==> WitnessAgrees(id, history + [record], witnessFile)
      ensures r.Ok? <==> fault.NoFault?
      ensures r.Err? ==> r.error.Interrupted?
    {
      hide AgreesWith, CheckpointOf, WitnessText, TextLength, ReadWitness, Appendable, DatabaseOf, Admitted;
      PreparedAgrees(id, history, record, before, after);
      r := WriteWitness(Prepared(before, after), fault);
    }

    /** Inserts both rows and commits them at once. */
    method Commit(before: Checkpoint, after: Checkpoint, record: Record, faults: Faults) returns (r: Result<Checkpoint, Failure>)
      requires Valid() && Appendable(id, history, record)
      requires before == CheckpointOf(id, history) && after == CheckpointOf(id, history + [record])
      requires WitnessAgrees(id, history + [record], witnessFile)
      modifies this
      ensures Valid()
      ensures history == old(history) || history == old(history) + [record]
      ensures r.Ok? ==> history == old(history) + [record] && r.value == after
      ensures r.Ok? ==> ReadWitness(witnessFile) == Some(Committed(after))
      ensures r.Err? ==> r.error.Interrupted? && faults != NO_FAULTS
    {
      NextHistory(id, history, record);
      var transaction := Insert(db, after.sequence, before.eventHead, record);
      if faults.insert || faults.commit.FailsBefore? { return Err(Interrupted); }
      db := transaction;
      history := history + [record];
      if faults.commit.FailsAfter? { return Err(Interrupted); }
      r := Finish(after, faults);
    }

    /** After the commit: full verification, then the witness is finalized. */
    method Finish(after: Checkpoint, faults: Faults) returns (r: Result<Checkpoint, Failure>)
      requires Valid() && after == CheckpointOf(id, history)
      modifies `witnessFile
      ensures Valid()
      ensures r.Ok? ==> r.value == after && ReadWitness(witnessFile) == Some(Committed(after))
      ensures r.Err? ==> r.error.Interrupted? && faults != NO_FAULTS
    {
      if faults.verify { return Err(Interrupted); }
      var verified := VerifyDb(id, db);
      if verified.Some? {
        DatabaseBindsHistory(id, verified.value.records, history);
      }
      if verified.None? || verified.value.checkpoint != after { return Err(Integrity); }
      CommittedAgrees(id, history);
      var finalized := WriteWitness(Committed(after), faults.finalize);
      if finalized.Err? || faults.close { return Err(Interrupted); }
      return Ok(after);
    }
  }

  lemma WrittenAgrees(id: Identity, h: seq<Record>, w: Witness)
    requires ReadableWitness(w) && AgreesWith(id, h, w)
    ensures WitnessAgrees(id, h, WitnessText(w)) && ReadWitness(WitnessText(w)) == Some(w)
    ensures TextLength(WitnessText(w)) <= MAX_WITNESS
  {
    WitnessFits(w);
    ReadIsInverseOfWrite(WitnessText(w), w);
  }

  lemma CommittedAgrees(id: Identity, h: seq<Record>)
    requires ValidHistory(id, h)
    ensures var done := Committed(CheckpointOf(id, h));
      && WitnessAgrees(id, h, WitnessText(done)) && ReadWitness(WitnessText(done)) == Some(done)
      && TextLength(WitnessText(done)) <= MAX_WITNESS
  {
    HistoryIsReadable(id, h);
    WrittenAgrees(id, h, Committed(CheckpointOf(id, h)));
  }

  lemma NextCheckpointIs(id: Identity, h: seq<Record>, r: Record)
    ensures CheckpointOf(id, h + [r]) == Checkpoint(id.context, id.rootDigest, VERSION, |h| + 1, OfHead(|h| + 1, HeadOf(h), OfRecord(r)))
  {
    assert (h + [r])[..|h|] == h;
  }

  /** Inserting an appendable record takes the database to the extended history. */
  lemma NextHistory(id: Identity, h: seq<Record>, r: Record)
    requires ValidHistory(id, h) && Appendable(id, h, r)
    ensures ValidHistory(id, h + [r])
    ensures Holds(id, Insert(DatabaseOf(id, h), |h| + 1, HeadOf(h), r), h + [r])
    ensures CheckpointOf(id, h + [r]) == Checkpoint(id.context, id.rootDigest, VERSION, |h| + 1, OfHead(|h| + 1, HeadOf(h), OfRecord(r)))
  {
    AdmittedExtends(id, h, r);
    InsertExtends(id, h, r);
  }

  /** The prepared witness agrees with the history before the commit and with the one after it. */
  lemma PreparedAgrees(id: Identity, h: seq<Record>, r: Record, before: Checkpoint, after: Checkpoint)
    requires ValidHistory(id, h) && Appendable(id, h, r)
    requires before == CheckpointOf(id, h) && after == CheckpointOf(id, h + [r])
    ensures WitnessAgrees(id, h, WitnessText(Prepared(before, after)))
    ensures WitnessAgrees(id, h + [r], WitnessText(Prepared(before, after)))
    ensures TextLength(WitnessText(Prepared(before, after))) <= MAX_WITNESS
  {
    NextHistory(id, h, r);
    HistoryIsReadable(id, h);
    HistoryIsReadable(id, h + [r]);
    PreparedStates(id, h, r);
    WrittenAgrees(id, h, Prepared(before, after));
    WrittenAgrees(id, h + [r], Prepared(before, after));
  }

  lemma PreparedStates(id: Identity, h: seq<Record>, r: Record)
    requires h != []
    ensures AgreesWith(id, h, Prepared(CheckpointOf(id, h), CheckpointOf(id, h + [r])))
    ensures AgreesWith(id, h + [r], Prepared(CheckpointOf(id, h), CheckpointOf(id, h + [r])))
  {
    assert (h + [r])[..|h + [r]| - 1] == h;
  }
}
