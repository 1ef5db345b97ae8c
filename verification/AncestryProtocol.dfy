/**
 * The two-store commit protocol as a step machine: any number of processes compete for
 * the lock, every storage effect is one atomic step, and the holder may crash between
 * any two steps, including in the middle of a recovery.
 */
module AncestryProtocol {
  import opened Wrappers
  import opened AncestryRecords
  import opened WitnessCodec
  import opened AncestryDatabase
  import opened AncestryRecovery
  import opened AncestryStore

  datatype Op = Read | Append(record: Record, expected: Checkpoint)

  /** Where a process stands inside an operation. */
  datatype Pc =
    | Idle
    | Entered(op: Op)
    | Loaded(op: Op, cp: Checkpoint, records: seq<Record>, next: Witness)
    | Ready(op: Op, cp: Checkpoint, records: seq<Record>)
    | Accepted(record: Record, before: Checkpoint, after: Checkpoint)
    | Announced(record: Record, before: Checkpoint, after: Checkpoint)
    | Inserted(record: Record, before: Checkpoint, after: Checkpoint)
    | Durable(record: Record, before: Checkpoint, after: Checkpoint)
    | Reverified(record: Record, before: Checkpoint, after: Checkpoint)
    | Finalized(record: Record, before: Checkpoint, after: Checkpoint)

  datatype Event =
    | Commit(record: Record, before: Checkpoint, after: Checkpoint)
    | Returned(record: Record, after: Checkpoint)
    | Snapshot(cp: Checkpoint, records: seq<Record>)
    | Refused(record: Record, expected: Checkpoint)
    | Raised

  /** `db` and `witnessFile` are durable; `open` is the uncommitted transaction; the log records outcomes. */
  datatype State = State(db: Database, open: Option<Database>, witnessFile: Witness,
                         lock: Option<nat>, pcs: map<nat, Pc>, log: seq<Event>)

  datatype Action = Acquire(op: Op) | Load | Repair | Decide | Announce | InsertRows | CommitDb | Reverify | Finalize | Return | Crash

  function PcOf(s: State, p: nat): Pc {
    if p in s.pcs then s.pcs[p] else Idle
  }

  function Goto(s: State, p: nat, pc: Pc): State {
    s.(pcs := s.pcs[p := pc])
  }

  /** Leaving the guard, normally or not: the lock is free and uncommitted work is gone. */
  function Release(s: State, p: nat): State {
    Goto(s, p, Idle).(lock := None, open := None)
  }

  function Log(s: State, e: Event): State {
    s.(log := s.log + [e])
  }

  function Raise(s: State, p: nat): State {
    Log(Release(s, p), Raised)
  }

  ghost function LoadStep(id: Identity, s: State, p: nat, op: Op): State {
    match Scan(id, s.db)
    case None => Raise(s, p)
    case Some(h) =>
      var cp := CheckpointOf(id, h);
      if !ReadableWitness(s.witnessFile) then Raise(s, p)
      else
        var next := Recover(id, cp, PriorHead(h), s.witnessFile);
        if next.None? then Raise(s, p) else Goto(s, p, Loaded(op, cp, h, next.value))
  }

  ghost function ReverifyStep(id: Identity, s: State, p: nat, r: Record, before: Checkpoint, after: Checkpoint): State {
    match Scan(id, s.db)
    case None => Raise(s, p)
    case Some(h) => if CheckpointOf(id, h) != after then Raise(s, p) else Goto(s, p, Reverified(r, before, after))
  }

  ghost function DecideStep(id: Identity, s: State, p: nat, op: Op, cp: Checkpoint, records: seq<Record>): State {
    match op
    case Read => Log(Release(s, p), Snapshot(cp, records))
    case Append(record, expected) =>
      if cp != expected || !Appendable(id, records, record) then Log(Release(s, p), Refused(record, expected))
      else
        var after := Checkpoint(id.context, id.rootDigest, VERSION, cp.sequence + 1,
                                OfHead(cp.sequence + 1, cp.eventHead, OfRecord(record)));
        Goto(s, p, Accepted(record, cp, after))
  }

  /** The effect of an action of process p, if it is enabled. */
  ghost function Next(id: Identity, s: State, p: nat, a: Action): Option<State> {
    match (a, PcOf(s, p))
    case (Acquire(op), Idle) =>
      if s.lock.None? && (op.Append? ==> op.record.Valid()) then Some(Goto(s, p, Entered(op)).(lock := Some(p))) else None
    case (Load, Entered(op)) => Some(LoadStep(id, s, p, op))
    case (Repair, Loaded(op, cp, records, next)) => Some(Goto(s, p, Ready(op, cp, records)).(witnessFile := next))
    case (Decide, Ready(op, cp, records)) => Some(DecideStep(id, s, p, op, cp, records))
    case (Announce, Accepted(r, before, after)) => Some(Goto(s, p, Announced(r, before, after)).(witnessFile := Prepared(before, after)))
    case (InsertRows, Announced(r, before, after)) =>
      Some(Goto(s, p, Inserted(r, before, after)).(open := Some(Insert(s.db, after.sequence, before.eventHead, r))))
    case (CommitDb, Inserted(r, before, after)) =>
      if s.open.None? then None
      else Some(CommitStep(s, p, r, before, after))
    case (Reverify, Durable(r, before, after)) => Some(ReverifyStep(id, s, p, r, before, after))
    case (Finalize, Reverified(r, before, after)) => Some(Goto(s, p, Finalized(r, before, after)).(witnessFile := Committed(after)))
    case (Return, Finalized(r, before, after)) => Some(Log(Release(s, p), Returned(r, after)))
    case (Crash, pc) => if pc.Idle? then None else Some(Release(s, p))
    case _ => None
  }

  // ------------------------------------------------------------- histories

  /** The root followed by exactly the records whose commits are in the log, in order. */
  function HistoryOf(root: Record, log: seq<Event>): (h: seq<Record>)
    ensures h != [] && h[0] == root
  {
    if log == [] then [root]
    else
      var n := |log| - 1;
      if log[n].Commit? then HistoryOf(root, log[..n]) + [log[n].record] else HistoryOf(root, log[..n])
  }

  /** Each outcome is right about the history at its moment. */
  ghost predicate EventRight(id: Identity, root: Record, log: seq<Event>, e: Event) {
    var h := HistoryOf(root, log);
    match e
    case Commit(r, before, after) =>
      Appendable(id, h, r) && before == CheckpointOf(id, h) && after == CheckpointOf(id, h + [r])
    case Returned(r, after) => |h| >= 2 && h[|h| - 1] == r && after == CheckpointOf(id, h)
    case Snapshot(cp, records) => records == h && cp == CheckpointOf(id, h)
    case Refused(r, expected) => expected != CheckpointOf(id, h) || !Appendable(id, h, r)
    case Raised => false
  }

  ghost predicate LogRight(id: Identity, root: Record, log: seq<Event>) {
    forall i :: 0 <= i < |log| ==> EventRight(id, root, log[..i], log[i])
  }

  // ------------------------------------------------------------- invariant

  /** What the lock holder knows; h is the history of the committed database. */
  ghost predicate HolderRight(id: Identity, h: seq<Record>, s: State, pc: Pc) {
    match pc
    case Idle => s.open.None?
    case Entered(op) => s.open.None? && (op.Append? ==> op.record.Valid())
    case Loaded(op, cp, records, next) =>
      s.open.None? && records == h && cp == CheckpointOf(id, h) && next == Committed(cp)
    case Ready(op, cp, records) =>
      s.open.None? && records == h && cp == CheckpointOf(id, h) && s.witnessFile == Committed(cp)
    case Accepted(r, before, after) =>
      s.open.None? && Extending(id, h, r, before, after) && s.witnessFile == Committed(before)
    case Announced(r, before, after) =>
      s.open.None? && Extending(id, h, r, before, after) && s.witnessFile == Prepared(before, after)
    case Inserted(r, before, after) =>
      && s.open == Some(DatabaseOf(id, h + [r]))
      && Extending(id, h, r, before, after) && s.witnessFile == Prepared(before, after)
    case Durable(r, before, after) => s.open.None? && Extended(id, h, r, before, after) && s.witnessFile == Prepared(before, after)
    case Reverified(r, before, after) => s.open.None? && Extended(id, h, r, before, after) && s.witnessFile == Prepared(before, after)
    case Finalized(r, before, after) => s.open.None? && Extended(id, h, r, before, after) && s.witnessFile == Committed(after)
  }

  ghost predicate Extending(id: Identity, h: seq<Record>, r: Record, before: Checkpoint, after: Checkpoint) {
    Appendable(id, h, r) && before == CheckpointOf(id, h) && after == CheckpointOf(id, h + [r])
  }

  ghost predicate Extended(id: Identity, h: seq<Record>, r: Record, before: Checkpoint, after: Checkpoint) {
    && |h| >= 2 && h[|h| - 1] == r
    && before == CheckpointOf(id, h[..|h| - 1]) && after == CheckpointOf(id, h)
  }

  ghost predicate Inv(id: Identity, root: Record, s: State) {
    var h := HistoryOf(root, s.log);
    && Holds(id, s.db, h)
    && ReadableWitness(s.witnessFile) && AgreesWith(id, h, s.witnessFile)
    && (forall p: nat :: !PcOf(s, p).Idle? ==> s.lock == Some(p))
    && (match s.lock case None => s.open.None? case Some(p) => HolderRight(id, h, s, PcOf(s, p)))
    && LogRight(id, root, s.log)
  }

  /** The state after a completed creation. */
  ghost predicate Initial(id: Identity, root: Record, s: State) {
    && root.Valid() && root.parents == [] && id == Identity(root.context, OfRecord(root))
    && s == State(DatabaseOf(id, [root]), None, Committed(CheckpointOf(id, [root])), None, map[], [])
  }

  lemma InitialInv(id: Identity, root: Record, s: State)
    requires Initial(id, root, s)
    ensures Inv(id, root, s)
  {
    RootAlone(root);
    HistoryIsReadable(id, [root]);
    assert HistoryOf(root, []) == [root];
  }

  lemma LogExtends(id: Identity, root: Record, log: seq<Event>, e: Event)
    requires LogRight(id, root, log) && EventRight(id, root, log, e)
    ensures LogRight(id, root, log + [e])
    ensures HistoryOf(root, log + [e]) == if e.Commit? then HistoryOf(root, log) + [e.record] else HistoryOf(root, log)
  {
    var longer := log + [e];
    assert longer[..|log|] == log;
    assert forall i :: 0 <= i < |log| ==> longer[..i] == log[..i];
  }

  // ---------------------------------------------------- every step keeps it

  ghost predicate Steps(id: Identity, s: State, p: nat, a: Action, s': State) {
    Next(id, s, p, a) == Some(s')
  }

  /** A step that logs nothing and leaves the database alone. */
  lemma QuietStep(id: Identity, root: Record, s: State, p: nat, s': State)
    requires Inv(id, root, s) && s'.log == s.log && s'.db == s.db
    requires s'.pcs == s.pcs[p := PcOf(s', p)] && s'.lock == Some(p) && (s.lock == Some(p) || s.lock.None?)
    requires ReadableWitness(s'.witnessFile) && AgreesWith(id, HistoryOf(root, s.log), s'.witnessFile)
    requires HolderRight(id, HistoryOf(root, s.log), s', PcOf(s', p))
    ensures Inv(id, root, s')
  {
    forall q: nat | !PcOf(s', q).Idle? ensures s'.lock == Some(q) {
      assert q != p ==> PcOf(s', q) == PcOf(s, q);
    }
  }

  /** Leaving the guard, whatever the outcome logged. */
  lemma LeavingStep(id: Identity, root: Record, s: State, p: nat, log: seq<Event>)
    requires Inv(id, root, s) && !PcOf(s, p).Idle?
    requires LogRight(id, root, log) && HistoryOf(root, log) == HistoryOf(root, s.log)
    ensures Inv(id, root, Release(s, p).(log := log))
  {
    var s' := Release(s, p).(log := log);
    forall q: nat ensures PcOf(s', q).Idle? {
      assert q != p ==> PcOf(s', q) == PcOf(s, q);
    }
  }

  lemma LoadKeeps(id: Identity, root: Record, s: State, p: nat, op: Op)
    requires Inv(id, root, s) && PcOf(s, p) == Entered(op)
    ensures Inv(id, root, LoadStep(id, s, p, op)) && PcOf(LoadStep(id, s, p, op), p).Loaded?
  {
    var h := HistoryOf(root, s.log);
    ScanFindsHistory(id, h);
    RecoveryExactly(id, h, s.witnessFile);
    QuietStep(id, root, s, p, LoadStep(id, s, p, op));
  }

  lemma RepairKeeps(id: Identity, root: Record, s: State, p: nat, op: Op, cp: Checkpoint, records: seq<Record>, next: Witness)
    requires Inv(id, root, s) && PcOf(s, p) == Loaded(op, cp, records, next)
    ensures Inv(id, root, Goto(s, p, Ready(op, cp, records)).(witnessFile := next))
  {
    HistoryIsReadable(id, HistoryOf(root, s.log));
    QuietStep(id, root, s, p, Goto(s, p, Ready(op, cp, records)).(witnessFile := next));
  }

  /** An operation that ends here, logging an outcome that is right about the history. */
  lemma EndingKeeps(id: Identity, root: Record, s: State, p: nat, e: Event)
    requires Inv(id, root, s) && !PcOf(s, p).Idle? && !e.Commit?
    requires EventRight(id, root, s.log, e)
    ensures Inv(id, root, Log(Release(s, p), e))
  {
    LogExtends(id, root, s.log, e);
    LeavingStep(id, root, s, p, s.log + [e]);
  }

  lemma AcceptKeeps(id: Identity, root: Record, s: State, p: nat, r: Record, expected: Checkpoint)
    requires Inv(id, root, s) && PcOf(s, p).Ready?
    requires PcOf(s, p).cp == expected && Appendable(id, PcOf(s, p).records, r)
    ensures Inv(id, root, DecideStep(id, s, p, Append(r, expected), PcOf(s, p).cp, PcOf(s, p).records))
  {
    NextCheckpointIs(id, PcOf(s, p).records, r);
    QuietStep(id, root, s, p, DecideStep(id, s, p, Append(r, expected), PcOf(s, p).cp, PcOf(s, p).records));
  }

  lemma DecideKeeps(id: Identity, root: Record, s: State, p: nat, op: Op)
    requires Inv(id, root, s) && PcOf(s, p).Ready?
    ensures Inv(id, root, DecideStep(id, s, p, op, PcOf(s, p).cp, PcOf(s, p).records))
  {
    var Ready(_, cp, records) := PcOf(s, p);
    match op
    case Read => EndingKeeps(id, root, s, p, Snapshot(cp, records));
    case Append(record, expected) =>
      if cp != expected || !Appendable(id, records, record) {
        EndingKeeps(id, root, s, p, Refused(record, expected));
      } else {
        AcceptKeeps(id, root, s, p, record, expected);
      }
  }

  lemma AnnounceKeeps(id: Identity, root: Record, s: State, p: nat, r: Record, before: Checkpoint, after: Checkpoint)
    requires Inv(id, root, s) && PcOf(s, p) == Accepted(r, before, after)
    ensures Inv(id, root, Goto(s, p, Announced(r, before, after)).(witnessFile := Prepared(before, after)))
  {
    var h := HistoryOf(root, s.log);
    PreparedIsReadable(id, h, r, before, after);
    QuietStep(id, root, s, p, Goto(s, p, Announced(r, before, after)).(witnessFile := Prepared(before, after)));
  }

  lemma PreparedIsReadable(id: Identity, h: seq<Record>, r: Record, before: Checkpoint, after: Checkpoint)
    requires ValidHistory(id, h) && Extending(id, h, r, before, after)
    ensures ReadableWitness(Prepared(before, after)) && AgreesWith(id, h, Prepared(before, after))
  {
    NextHistory(id, h, r);
    HistoryIsReadable(id, h);
    HistoryIsReadable(id, h + [r]);
    PreparedStates(id, h, r);
  }

  lemma InsertKeeps(id: Identity, root: Record, s: State, p: nat, r: Record, before: Checkpoint, after: Checkpoint)
    requires Inv(id, root, s) && PcOf(s, p) == Announced(r, before, after)
    ensures Inv(id, root, Goto(s, p, Inserted(r, before, after)).(open := Some(Insert(s.db, after.sequence, before.eventHead, r))))
  {
    InsertExtends(id, HistoryOf(root, s.log), r);
    NextCheckpointIs(id, HistoryOf(root, s.log), r);
    QuietStep(id, root, s, p, Goto(s, p, Inserted(r, before, after)).(open := Some(Insert(s.db, after.sequence, before.eventHead, r))));
  }

  function CommitStep(s: State, p: nat, r: Record, before: Checkpoint, after: Checkpoint): State
    requires s.open.Some?
  {
    Log(Goto(s, p, Durable(r, before, after)).(db := s.open.value, open := None), Commit(r, before, after))
  }

  /** Once the rows are committed the holder's record is the last of the history. */
  lemma ExtendingBecomesExtended(id: Identity, h: seq<Record>, r: Record, before: Checkpoint, after: Checkpoint)
    requires ValidHistory(id, h) && Extending(id, h, r, before, after)
    ensures Extended(id, h + [r], r, before, after)
    ensures Holds(id, DatabaseOf(id, h + [r]), h + [r])
    ensures AgreesWith(id, h + [r], Prepared(before, after))
  {
    assert (h + [r])[..|h + [r]| - 1] == h;
    NextHistory(id, h, r);
    PreparedStates(id, h, r);
  }

  /** The invariant right after a commit, from what is known about its parts. */
  lemma CommittedInv(id: Identity, root: Record, s: State, p: nat, h: seq<Record>, r: Record, before: Checkpoint, after: Checkpoint)
    requires HistoryOf(root, s.log) == h && LogRight(id, root, s.log)
    requires Holds(id, s.db, h) && s.open.None?
    requires s.witnessFile == Prepared(before, after) && ReadableWitness(s.witnessFile) && AgreesWith(id, h, s.witnessFile)
    requires s.lock == Some(p) && PcOf(s, p) == Durable(r, before, after) && Extended(id, h, r, before, after)
    requires forall q: nat :: !PcOf(s, q).Idle? ==> s.lock == Some(q)
    ensures Inv(id, root, s)
  {
  }

  lemma HoldsIsDatabase(id: Identity, db: Database, h: seq<Record>)
    requires Holds(id, db, h)
    ensures ValidHistory(id, h) && db == DatabaseOf(id, h)
  {
  }

  lemma CommitKeeps(id: Identity, root: Record, s: State, p: nat, r: Record, before: Checkpoint, after: Checkpoint)
    requires Inv(id, root, s) && PcOf(s, p) == Inserted(r, before, after)
    ensures s.open.Some? && Inv(id, root, CommitStep(s, p, r, before, after))
  {
    hide Holds, AgreesWith, ReadableWitness, LogRight, Appendable, CheckpointOf;
    var h := HistoryOf(root, s.log);
    HoldsIsDatabase(id, s.db, h);
    ExtendingBecomesExtended(id, h, r, before, after);
    LogExtends(id, root, s.log, Commit(r, before, after));
    OthersStayIdle(id, root, s, p, CommitStep(s, p, r, before, after));
    CommittedInv(id, root, CommitStep(s, p, r, before, after), p, h + [r], r, before, after);
  }

  lemma OthersStayIdle(id: Identity, root: Record, s: State, p: nat, s': State)
    requires Inv(id, root, s) && s.lock == Some(p) == s'.lock
    requires forall q: nat :: q != p ==> PcOf(s', q) == PcOf(s, q)
    ensures forall q: nat :: !PcOf(s', q).Idle? ==> s'.lock == Some(q)
  {
  }

  lemma ReverifyKeeps(id: Identity, root: Record, s: State, p: nat, r: Record, before: Checkpoint, after: Checkpoint)
    requires Inv(id, root, s) && PcOf(s, p) == Durable(r, before, after)
    ensures Inv(id, root, ReverifyStep(id, s, p, r, before, after))
    ensures PcOf(ReverifyStep(id, s, p, r, before, after), p).Reverified?
  {
    ScanFindsHistory(id, HistoryOf(root, s.log));
    QuietStep(id, root, s, p, ReverifyStep(id, s, p, r, before, after));
  }

  lemma FinalizeKeeps(id: Identity, root: Record, s: State, p: nat, r: Record, before: Checkpoint, after: Checkpoint)
    requires Inv(id, root, s) && PcOf(s, p) == Reverified(r, before, after)
    ensures Inv(id, root, Goto(s, p, Finalized(r, before, after)).(witnessFile := Committed(after)))
  {
    HistoryIsReadable(id, HistoryOf(root, s.log));
    QuietStep(id, root, s, p, Goto(s, p, Finalized(r, before, after)).(witnessFile := Committed(after)));
  }

  lemma ReturnKeeps(id: Identity, root: Record, s: State, p: nat, r: Record, before: Checkpoint, after: Checkpoint)
    requires Inv(id, root, s) && PcOf(s, p) == Finalized(r, before, after)
    ensures Inv(id, root, Log(Release(s, p), Returned(r, after)))
  {
    EndingKeeps(id, root, s, p, Returned(r, after));
  }

  /** Every step of every process, crashes included, keeps the invariant. */
  lemma StepKeepsInv(id: Identity, root: Record, s: State, p: nat, a: Action, s': State)
    requires Inv(id, root, s) && Steps(id, s, p, a, s')
    ensures Inv(id, root, s')
  {
    hide AgreesWith, Holds, ReadableWitness, LogRight, Scan, Recover, Appendable, Insert;
    var pc := PcOf(s, p);
    match a
    case Acquire(op) => QuietStep(id, root, s, p, s');
    case Load => LoadKeeps(id, root, s, p, pc.op);
    case Repair => RepairKeeps(id, root, s, p, pc.op, pc.cp, pc.records, pc.next);
    case Decide => DecideKeeps(id, root, s, p, pc.op);
    case Announce => AnnounceKeeps(id, root, s, p, pc.record, pc.before, pc.after);
    case InsertRows => InsertKeeps(id, root, s, p, pc.record, pc.before, pc.after);
    case CommitDb => CommitKeeps(id, root, s, p, pc.record, pc.before, pc.after);
    case Reverify => ReverifyKeeps(id, root, s, p, pc.record, pc.before, pc.after);
    case Finalize => FinalizeKeeps(id, root, s, p, pc.record, pc.before, pc.after);
    case Return => ReturnKeeps(id, root, s, p, pc.record, pc.before, pc.after);
    case Crash => LeavingStep(id, root, s, p, s.log);
  }

  // ----------------------------------------------------------------- runs

  ghost predicate Moves(id: Identity, s: State, s': State) {
    exists p: nat, a :: Steps(id, s, p, a, s')
  }

  ghost predicate MovesAt(id: Identity, run: seq<State>, i: nat) {
    i + 1 < |run| ==> Moves(id, run[i], run[i + 1])
  }

  /** A run starts after a completed creation; any process may take any enabled step next. */
  ghost predicate IsRun(id: Identity, root: Record, run: seq<State>) {
    run != [] && Initial(id, root, run[0]) && forall i: nat :: MovesAt(id, run, i)
  }

  lemma RunMoves(id: Identity, root: Record, run: seq<State>, i: nat)
    requires IsRun(id, root, run) && i + 1 < |run|
    ensures Moves(id, run[i], run[i + 1])
  {
    assert MovesAt(id, run, i);
  }

  lemma MoveKeepsInv(id: Identity, root: Record, s: State, s': State)
    requires Inv(id, root, s) && Moves(id, s, s')
    ensures Inv(id, root, s')
  {
    hide Inv, Next;
    var p: nat, a :| Steps(id, s, p, a, s');
    StepKeepsInv(id, root, s, p, a, s');
  }

  lemma {:induction false} RunKeepsInv(id: Identity, root: Record, run: seq<State>, i: nat)
    requires IsRun(id, root, run) && i < |run|
    ensures Inv(id, root, run[i])
  {
    hide Inv, Moves, Initial;
    if i == 0 {
      InitialInv(id, root, run[0]);
    } else {
      RunKeepsInv(id, root, run, i - 1);
      RunMoves(id, root, run, i - 1);
      MoveKeepsInv(id, root, run[i - 1], run[i]);
    }
  }

  /**
   * Crash safety: at every moment of every run the database holds one valid history, the
   * witness is committed at it or prepared around it, and no integrity failure was raised.
   */
  lemma CrashSafety(id: Identity, root: Record, run: seq<State>, i: nat)
    requires IsRun(id, root, run) && i < |run|
    ensures Scan(id, run[i].db) == Some(HistoryOf(root, run[i].log))
    ensures AgreesWith(id, HistoryOf(root, run[i].log), run[i].witnessFile)
    ensures Raised !in run[i].log
    ensures forall p: nat, q: nat :: !PcOf(run[i], p).Idle? && !PcOf(run[i], q).Idle? ==> p == q
  {
    RunKeepsInv(id, root, run, i);
    ScanFindsHistory(id, HistoryOf(root, run[i].log));
    forall e | e in run[i].log ensures e != Raised {
      var k :| 0 <= k < |run[i].log| && run[i].log[k] == e;
      assert EventRight(id, root, run[i].log[..k], e);
    }
  }

  /** A step adds at most one event. */
  lemma MoveExtendsLog(id: Identity, s: State, s': State)
    requires Moves(id, s, s')
    ensures s.log <= s'.log && |s'.log| <= |s.log| + 1
  {
    hide Scan, Recover, PriorHead, CheckpointOf, ReadableWitness, Appendable, Insert;
  }

  lemma {:induction false} HistoryPrefix(root: Record, log: seq<Event>, i: nat)
    requires i <= |log|
    ensures HistoryOf(root, log[..i]) <= HistoryOf(root, log)
    ensures i < |log| && log[i].Commit? ==> |HistoryOf(root, log[..i])| < |HistoryOf(root, log)|
    ensures |HistoryOf(root, log)| <= |HistoryOf(root, log[..i])| + (|log| - i)
  {
    if i < |log| {
      var n := |log| - 1;
      assert log[..n][..i] == log[..i];
      HistoryPrefix(root, log[..n], i);
    } else {
      assert log[..i] == log;
    }
  }

  /** The record list only ever grows, by at most one record per step. */
  lemma {:induction false} HistoryGrows(id: Identity, root: Record, run: seq<State>, i: nat, j: nat)
    requires IsRun(id, root, run) && i <= j < |run|
    ensures run[i].log <= run[j].log
    ensures HistoryOf(root, run[i].log) <= HistoryOf(root, run[j].log)
    ensures j == i + 1 ==> |HistoryOf(root, run[j].log)| <= |HistoryOf(root, run[i].log)| + 1
    decreases j - i
  {
    if i < j {
      HistoryGrows(id, root, run, i, j - 1);
      assert MovesAt(id, run, j - 1);
      MoveExtendsLog(id, run[j - 1], run[j]);
      assert run[i].log == run[j].log[..|run[i].log|];
      HistoryPrefix(root, run[j].log, |run[i].log|);
    }
  }

  // --------------------------------------------------- what outcomes mean

  lemma PrefixHistory(root: Record, log: seq<Event>, i: nat, j: nat)
    requires i <= j <= |log|
    ensures HistoryOf(root, log[..i]) <= HistoryOf(root, log[..j])
    ensures i < j && log[i].Commit? ==> |HistoryOf(root, log[..i])| < |HistoryOf(root, log[..j])|
  {
    assert log[..j][..i] == log[..i];
    HistoryPrefix(root, log[..j], i);
  }

  /** Compare-and-swap: no two commits start from the same checkpoint. */
  lemma CommitsAreExclusive(id: Identity, root: Record, log: seq<Event>, i: nat, j: nat)
    requires LogRight(id, root, log) && i < j < |log|
    requires log[i].Commit? && log[j].Commit?
    ensures log[i].before != log[j].before
  {
    PrefixHistory(root, log, i, j);
    assert EventRight(id, root, log[..i], log[i]) && EventRight(id, root, log[..j], log[j]);
  }

  /** An append that returned is in every later snapshot, at its own position. */
  lemma ReturnedStays(id: Identity, root: Record, log: seq<Event>, i: nat, j: nat)
    requires LogRight(id, root, log) && i < j < |log|
    requires log[i].Returned? && log[j].Snapshot?
    ensures var after, records := log[i].after, log[j].records;
      && 1 <= after.sequence <= |records| && records[after.sequence - 1] == log[i].record
      && CheckpointOf(id, records[..after.sequence]) == after
  {
    PrefixHistory(root, log, i, j);
    assert EventRight(id, root, log[..i], log[i]) && EventRight(id, root, log[..j], log[j]);
    assert HistoryOf(root, log[..i]) == log[j].records[..log[i].after.sequence];
  }

  /** An append returns only after its own commit. */
  lemma {:induction false} ReturnedWasCommitted(id: Identity, root: Record, log: seq<Event>, i: nat) returns (k: nat)
    requires LogRight(id, root, log) && i < |log| && log[i].Returned?
    ensures k < i && log[k].Commit? && log[k].record == log[i].record && log[k].after == log[i].after
  {
    assert EventRight(id, root, log[..i], log[i]);
    k := LastCommit(id, root, log, i);
  }

  lemma {:induction false} LastCommit(id: Identity, root: Record, log: seq<Event>, n: nat) returns (k: nat)
    requires LogRight(id, root, log) && n <= |log| && |HistoryOf(root, log[..n])| >= 2
    ensures var h := HistoryOf(root, log[..n]);
      k < n && log[k].Commit? && log[k].record == h[|h| - 1] && log[k].after == CheckpointOf(id, h)
  {
    hide Appendable, HeadOf;
    assert log[..n][..n - 1] == log[..n - 1];
    assert EventRight(id, root, log[..n - 1], log[n - 1]);
    if log[n - 1].Commit? {
      k := n - 1;
    } else {
      k := LastCommit(id, root, log, n - 1);
    }
  }

  /** Snapshots under one checkpoint show one record list, whatever runs they come from. */
  lemma SnapshotsAgree(id: Identity, root: Record, log: seq<Event>, i: nat, root': Record, log': seq<Event>, j: nat)
    requires LogRight(id, root, log) && i < |log| && log[i].Snapshot?
    requires LogRight(id, root', log') && j < |log'| && log'[j].Snapshot?
    ensures log[i].cp == log'[j].cp <==> log[i].records == log'[j].records
  {
    assert EventRight(id, root, log[..i], log[i]) && EventRight(id, root', log'[..j], log'[j]);
    CheckpointBindsHistory(id, log[i].records, id, log'[j].records);
  }

  // -------------------------------------------------- the same over runs

  lemma RunLogIsRight(id: Identity, root: Record, run: seq<State>, n: nat)
    requires IsRun(id, root, run) && n < |run|
    ensures LogRight(id, root, run[n].log)
  {
    hide IsRun;
    RunKeepsInv(id, root, run, n);
  }

  /** In no run do two commits start from the same checkpoint. */
  lemma RunCommitsAreExclusive(id: Identity, root: Record, run: seq<State>, n: nat, i: nat, j: nat)
    requires IsRun(id, root, run) && n < |run| && i < j < |run[n].log|
    requires run[n].log[i].Commit? && run[n].log[j].Commit?
    ensures run[n].log[i].before != run[n].log[j].before
  {
    hide IsRun, LogRight;
    RunLogIsRight(id, root, run, n);
    CommitsAreExclusive(id, root, run[n].log, i, j);
  }

  /** In every run an append that returned was committed before. */
  lemma RunReturnedWasCommitted(id: Identity, root: Record, run: seq<State>, n: nat, i: nat) returns (k: nat)
    requires IsRun(id, root, run) && n < |run| && i < |run[n].log| && run[n].log[i].Returned?
    ensures k < i && run[n].log[k].Commit?
            && run[n].log[k].record == run[n].log[i].record && run[n].log[k].after == run[n].log[i].after
  {
    hide IsRun, LogRight;
    RunLogIsRight(id, root, run, n);
    k := ReturnedWasCommitted(id, root, run[n].log, i);
  }

  /** In every run an append that returned is in every later snapshot, at its own position. */
  lemma RunReturnedStays(id: Identity, root: Record, run: seq<State>, n: nat, i: nat, j: nat)
    requires IsRun(id, root, run) && n < |run| && i < j < |run[n].log|
    requires run[n].log[i].Returned? && run[n].log[j].Snapshot?
    ensures var after, records := run[n].log[i].after, run[n].log[j].records;
      && 1 <= after.sequence <= |records| && records[after.sequence - 1] == run[n].log[i].record
      && CheckpointOf(id, records[..after.sequence]) == after
  {
    hide IsRun, LogRight, CheckpointOf;
    RunLogIsRight(id, root, run, n);
    ReturnedStays(id, root, run[n].log, i, j);
  }

  /** Snapshots taken in any two runs have equal checkpoints exactly when they show equal records. */
  lemma RunSnapshotsAgree(id: Identity, root: Record, run: seq<State>, n: nat, i: nat, root': Record, run': seq<State>, n': nat, j: nat)
    requires IsRun(id, root, run) && n < |run| && i < |run[n].log| && run[n].log[i].Snapshot?
    requires IsRun(id, root', run') && n' < |run'| && j < |run'[n'].log| && run'[n'].log[j].Snapshot?
    ensures run[n].log[i].cp == run'[n'].log[j].cp <==> run[n].log[i].records == run'[n'].log[j].records
  {
    hide IsRun, LogRight;
    RunLogIsRight(id, root, run, n);
    RunLogIsRight(id, root', run', n');
    SnapshotsAgree(id, root, run[n].log, i, root', run'[n'].log, j);
  }

  /**
   * From every reachable state, once the holder (if any) is gone, a reader that is left
   * alone succeeds and leaves the witness committed.
   */
  lemma AlwaysRecovers(id: Identity, root: Record, s: State, p: nat) returns (s1: State, s2: State, s3: State, s4: State)
    requires Inv(id, root, s) && s.lock.None?
    ensures Steps(id, s, p, Acquire(Read), s1) && Steps(id, s1, p, Load, s2) && Steps(id, s2, p, Repair, s3) && Steps(id, s3, p, Decide, s4)
    ensures var h := HistoryOf(root, s.log);
      && s4.witnessFile == Committed(CheckpointOf(id, h)) && s4.db == s.db && s4.lock.None?
      && s4.log == s.log + [Snapshot(CheckpointOf(id, h), h)]
  {
    hide ReadableWitness, AgreesWith, Recover, PriorHead, CheckpointOf, LogRight, HistoryOf, Scan;
    var h := HistoryOf(root, s.log);
    var cp := CheckpointOf(id, h);
    ScanFindsHistory(id, h);
    RecoveryExactly(id, h, s.witnessFile);
    assert PcOf(s, p).Idle?;
    s1 := Goto(s, p, Entered(Read)).(lock := Some(p));
    s2 := Goto(s1, p, Loaded(Read, cp, h, Committed(cp)));
    s3 := Goto(s2, p, Ready(Read, cp, h)).(witnessFile := Committed(cp));
    s4 := Log(Release(s3, p), Snapshot(cp, h));
  }

  // ---------------------------------------------- the fate of one operation

  function OpOf(pc: Pc): Option<Record> {
    match pc
    case Idle => None
    case Entered(op) => if op.Append? then Some(op.record) else None
    case Loaded(op, _, _, _) => if op.Append? then Some(op.record) else None
    case Ready(op, _, _) => if op.Append? then Some(op.record) else None
    case Accepted(r, _, _) => Some(r)
    case Announced(r, _, _) => Some(r)
    case Inserted(r, _, _) => Some(r)
    case Durable(r, _, _) => Some(r)
    case Reverified(r, _, _) => Some(r)
    case Finalized(r, _, _) => Some(r)
  }

  predicate HasCommitted(pc: Pc) {
    pc.Durable? || pc.Reverified? || pc.Finalized?
  }

  /** Process p is inside an append of r that it began at history h0. */
  ghost predicate Tenure(root: Record, h0: seq<Record>, r: Record, s: State, p: nat) {
    && s.lock == Some(p) && OpOf(PcOf(s, p)) == Some(r)
    && HistoryOf(root, s.log) == if HasCommitted(PcOf(s, p)) then h0 + [r] else h0
  }

  /** A step ends the operation or continues it; only the commit step adds a record, the operation's own. */
  ghost predicate StepShape(s: State, p: nat, a: Action, s': State) {
    var pc, pc' := PcOf(s, p), PcOf(s', p);
    && (if pc'.Idle? then s'.lock.None? else s'.lock == s.lock && OpOf(pc') == OpOf(pc))
    && (if a.CommitDb? then
          !HasCommitted(pc) && HasCommitted(pc') && exists e: Event :: e.Commit? && OpOf(pc) == Some(e.record) && s'.log == s.log + [e]
        else
          && (!pc'.Idle? ==> (HasCommitted(pc') <==> HasCommitted(pc)))
          && (s'.log == s.log || exists e: Event :: !e.Commit? && s'.log == s.log + [e]))
    && (a.Return? ==> HasCommitted(pc) && pc'.Idle?)
    && (a.Decide? ==> !HasCommitted(pc))
  }

  lemma EveryStepHasShape(id: Identity, s: State, p: nat, a: Action, s': State)
    requires Steps(id, s, p, a, s') && !PcOf(s, p).Idle?
    ensures StepShape(s, p, a, s')
  {
    hide Scan, Recover, PriorHead, CheckpointOf, ReadableWitness, Appendable, Insert;
    match a
    case Acquire(_) =>
    case Load =>
    case Repair =>
    case Decide =>
    case Announce =>
    case InsertRows =>
    case CommitDb => assert s'.log == s.log + [Commit(PcOf(s, p).record, PcOf(s, p).before, PcOf(s, p).after)];
    case Reverify =>
    case Finalize =>
    case Return =>
    case Crash =>
  }

  lemma OnlyHolderSteps(id: Identity, root: Record, s: State, p: nat, q: nat, a: Action, s': State)
    requires Inv(id, root, s) && s.lock == Some(p) && Steps(id, s, q, a, s')
    ensures q == p
  {
  }

  lemma TenureFromShape(root: Record, h0: seq<Record>, r: Record, s: State, p: nat, a: Action, s': State)
    requires Tenure(root, h0, r, s, p) && StepShape(s, p, a, s')
    ensures Tenure(root, h0, r, s', p) ||
            (s'.lock.None? && (HistoryOf(root, s'.log) == h0 || HistoryOf(root, s'.log) == h0 + [r]))
    ensures a.Return? ==> HistoryOf(root, s'.log) == h0 + [r]
    ensures a.Decide? ==> HistoryOf(root, s'.log) == h0
  {
    assert s'.log != s.log ==> s'.log[..|s.log|] == s.log;
  }

  /**
   * During an append nobody else moves; however it ends - returned, refused, failed or
   * crashed - the history is the old one or the old one plus its record, a return implies
   * the latter and a refusal the former.
   */
  lemma TenureStep(id: Identity, root: Record, h0: seq<Record>, r: Record, s: State, p: nat, q: nat, a: Action, s': State)
    requires Inv(id, root, s) && Tenure(root, h0, r, s, p) && Steps(id, s, q, a, s')
    ensures q == p
    ensures Tenure(root, h0, r, s', p) ||
            (s'.lock.None? && (HistoryOf(root, s'.log) == h0 || HistoryOf(root, s'.log) == h0 + [r]))
    ensures a.Return? ==> HistoryOf(root, s'.log) == h0 + [r]
    ensures a.Decide? ==> HistoryOf(root, s'.log) == h0
  {
    OnlyHolderSteps(id, root, s, p, q, a, s');
    EveryStepHasShape(id, s, p, a, s');
    TenureFromShape(root, h0, r, s, p, a, s');
  }

  lemma TenureMove(id: Identity, root: Record, h0: seq<Record>, r: Record, s: State, p: nat, s': State)
    requires Inv(id, root, s) && Tenure(root, h0, r, s, p) && Moves(id, s, s')
    ensures Tenure(root, h0, r, s', p) ||
            (s'.lock.None? && (HistoryOf(root, s'.log) == h0 || HistoryOf(root, s'.log) == h0 + [r]))
  {
    var q: nat, a :| Steps(id, s, q, a, s');
    TenureStep(id, root, h0, r, s, p, q, a, s');
  }

  /** The same over any stretch of a run in which p keeps the lock. */
  lemma {:induction false} TenureOverRun(id: Identity, root: Record, run: seq<State>, h0: seq<Record>, r: Record, p: nat, i: nat, j: nat)
    requires IsRun(id, root, run) && i <= j < |run|
    requires Tenure(root, h0, r, run[i], p)
    requires forall k :: i <= k < j ==> run[k].lock == Some(p)
    ensures HistoryOf(root, run[j].log) == h0 || HistoryOf(root, run[j].log) == h0 + [r]
    ensures run[j].lock == Some(p) ==> Tenure(root, h0, r, run[j], p)
    decreases j - i
  {
    hide IsRun, Moves, Inv;
    if i < j {
      TenureOverRun(id, root, run, h0, r, p, i, j - 1);
      RunKeepsInv(id, root, run, j - 1);
      RunMoves(id, root, run, j - 1);
      TenureMove(id, root, h0, r, run[j - 1], p, run[j]);
    }
  }
}
