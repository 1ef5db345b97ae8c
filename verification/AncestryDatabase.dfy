/**
 * The stored rows and the full-scan verifier.
 *
 * Main result: `VerifyDb` accepts a database exactly when it is the image of one valid
 * history, and returns that history; see also `DatabaseBindsHistory`.
 */
module AncestryDatabase {
  import opened Wrappers
  import opened AncestryRecords
  import opened LabelCodec

  datatype RecordRow = RecordRow(sequence: int, id: string, context: string, payload: seq<Byte>,
                                 parents: string, scope: string, digest: Digest)

  datatype EventRow = EventRow(sequence: int, before: Digest, recordDigest: Digest, head: Digest)

  /** The meta values and both tables, in sequence order. */
  datatype Database = Database(identity: Identity, version: nat, records: seq<RecordRow>, events: seq<EventRow>)

  datatype Verified = Verified(checkpoint: Checkpoint, records: seq<Record>)

  function RowOf(sequence: int, r: Record): RecordRow {
    RecordRow(sequence, r.id, r.context, r.payload, Encode(r.parents), Encode(r.scope), OfRecord(r))
  }

  function EventFor(records: seq<Record>, r: Record): EventRow {
    EventRow(|records| + 1, HeadOf(records), OfRecord(r), OfHead(|records| + 1, HeadOf(records), OfRecord(r)))
  }

  function RowsOf(h: seq<Record>): (rows: seq<RecordRow>)
    ensures |rows| == |h|
  {
    if h == [] then [] else RowsOf(h[..|h| - 1]) + [RowOf(|h|, h[|h| - 1])]
  }

  function EventsOf(h: seq<Record>): (events: seq<EventRow>)
    ensures |events| == |h|
  {
    if h == [] then [] else EventsOf(h[..|h| - 1]) + [EventFor(h[..|h| - 1], h[|h| - 1])]
  }

  function DatabaseOf(id: Identity, h: seq<Record>): Database {
    Database(id, VERSION, RowsOf(h), EventsOf(h))
  }

  /** The database holds exactly this valid history. */
  ghost predicate Holds(id: Identity, db: Database, h: seq<Record>) {
    ValidHistory(id, h) && db == DatabaseOf(id, h)
  }

  // ------------------------------------------------------------ inserting

  /** The two inserted rows; the head is what `_insert` returns. */
  function Insert(db: Database, sequence: nat, before: Digest, r: Record): Database {
    db.(records := db.records + [RowOf(sequence, r)],
        events := db.events + [EventRow(sequence, before, OfRecord(r), OfHead(sequence, before, OfRecord(r)))])
  }

  /** Inserting after the current head extends the stored history by one record. */
  lemma InsertExtends(id: Identity, h: seq<Record>, r: Record)
    ensures Insert(DatabaseOf(id, h), |h| + 1, HeadOf(h), r) == DatabaseOf(id, h + [r])
    ensures HeadOf(h + [r]) == OfHead(|h| + 1, HeadOf(h), OfRecord(r))
  {
    var longer := h + [r];
    assert longer[..|h|] == h;
  }

  /** The rows and events at a position depend only on the records up to it. */
  lemma {:induction false} RowAt(h: seq<Record>, i: nat)
    requires i < |h|
    ensures RowsOf(h)[i] == RowOf(i + 1, h[i]) && EventsOf(h)[i] == EventFor(h[..i], h[i])
    ensures RowsOf(h)[..i] == RowsOf(h[..i]) && EventsOf(h)[..i] == EventsOf(h[..i])
  {
    var n := |h| - 1;
    if i < n {
      RowAt(h[..n], i);
      assert h[..n][..i] == h[..i];
    }
    assert RowsOf(h)[..n] == RowsOf(h[..n]) && EventsOf(h)[..n] == EventsOf(h[..n]);
    assert RowsOf(h)[..i] == RowsOf(h)[..n][..i] && EventsOf(h)[..i] == EventsOf(h)[..n][..i];
  }

  /** Different histories are stored as different databases. */
  lemma DatabaseBindsHistory(id: Identity, a: seq<Record>, b: seq<Record>)
    requires DatabaseOf(id, a) == DatabaseOf(id, b)
    ensures a == b
  {
    assert |RowsOf(a)| == |RowsOf(b)|;
    forall i | 0 <= i < |a| ensures a[i] == b[i] {
      RowAt(a, i);
      RowAt(b, i);
    }
  }

  // ------------------------------------------------------------ verifying

  /** A row and its event are what storing r after these records would produce. */
  predicate Stores(id: Identity, records: seq<Record>, row: RecordRow, event: EventRow, r: Record) {
    MayFollow(id, records, r) && row == RowOf(|records| + 1, r) && event == EventFor(records, r)
  }

  /** Decoding the row's texts gives back this record. */
  predicate RereadsAs(row: RecordRow, r: Record) {
    && Decode(row.parents) == Some(r.parents) && Decode(row.scope) == Some(r.scope)
    && row.id == r.id && row.context == r.context && row.payload == r.payload
  }

  /** The dictionary of the records seen so far. */
  ghost predicate Indexes(known: map<string, Record>, records: seq<Record>) {
    && known.Keys == Ids(records)
    && forall i :: 0 <= i < |records| ==> records[i].id in known && known[records[i].id] == records[i]
  }

  method CheckParents(known: map<string, Record>, ghost records: seq<Record>, r: Record) returns (ok: bool)
    requires Indexes(known, records)
    requires forall i, j :: 0 <= i < j < |records| ==> records[i].id != records[j].id
    ensures ok <==> forall p :: p in r.parents ==> HasParent(records, r, p)
  {
    for k := 0 to |r.parents|
      invariant forall i :: 0 <= i < k ==> HasParent(records, r, r.parents[i])
    {
      var p := r.parents[k];
      if p !in known || !ScopeWithin(r, known[p]) {
        forall j | 0 <= j < |records| && records[j].id == p ensures !ScopeWithin(r, records[j]) {}
        assert !HasParent(records, r, p);
        return false;
      }
      ghost var j :| 0 <= j < |records| && records[j].id == p;
      assert HasParent(records, r, p);
    }
    return true;
  }

  /** A stored record is the one its row rereads as. */
  lemma StoredIsReread(id: Identity, records: seq<Record>, row: RecordRow, event: EventRow, x: Record)
    requires Stores(id, records, row, event, x)
    ensures RereadsAs(row, x)
  {
    hide HasParent, Encode, Decode;
    DecodeIsInverse(row.parents, x.parents);
    DecodeIsInverse(row.scope, x.scope);
  }

  /** A row that cannot be reread stores nothing; one that can stores at most the record it rereads as. */
  lemma AtMostReread(id: Identity, records: seq<Record>, row: RecordRow, event: EventRow)
    ensures forall x :: Stores(id, records, row, event, x) ==>
              && Decode(row.parents).Some? && Decode(row.scope).Some?
              && x == Record(row.id, row.context, row.payload, Decode(row.parents).value, Decode(row.scope).value)
  {
    hide Stores;
    forall x | Stores(id, records, row, event, x) ensures RereadsAs(row, x) { StoredIsReread(id, records, row, event, x); }
  }

  /** The tests of a reread record, in the order they are made. */
  ghost predicate PassesTests(id: Identity, known: map<string, Record>, records: seq<Record>, before: Digest, sequence: nat,
                              row: RecordRow, event: EventRow, r: Record) {
    && r.Valid()
    && row.sequence == sequence && row.id !in known && row.context == id.context && row.digest == OfRecord(r)
    && (if sequence == 1 then r.parents == [] && row.digest == id.rootDigest else r.parents != [])
    && (forall p :: p in r.parents ==> HasParent(records, r, p))
    && event == EventRow(sequence, before, row.digest, OfHead(sequence, before, row.digest))
  }

  lemma KnownIsAdmitted(known: map<string, Record>, records: seq<Record>, name: string)
    requires Indexes(known, records)
    ensures name in known <==> exists j :: 0 <= j < |records| && records[j].id == name
  {
  }

  /** The reread record passes the tests exactly when the row and the event store it. */
  lemma TestsDecide(id: Identity, known: map<string, Record>, records: seq<Record>, row: RecordRow, event: EventRow, r: Record)
    requires Indexes(known, records)
    requires Decode(row.parents) == Some(r.parents) && Decode(row.scope) == Some(r.scope)
    requires row.id == r.id && row.context == r.context && row.payload == r.payload
    ensures PassesTests(id, known, records, HeadOf(records), |records| + 1, row, event, r) <==> Stores(id, records, row, event, r)
  {
    hide HeadOf, HasParent;
    KnownIsAdmitted(known, records, row.id);
    DecodeIsInverse(row.parents, r.parents);
    DecodeIsInverse(row.scope, r.scope);
  }

  method CheckRow(id: Identity, known: map<string, Record>, ghost records: seq<Record>, before: Digest,
                  sequence: nat, row: RecordRow, event: EventRow) returns (r: Option<Record>)
    requires Indexes(known, records) && Admitted(id, records)
    requires before == HeadOf(records) && sequence == |records| + 1
    ensures r.Some? ==> Stores(id, records, row, event, r.value)
    ensures r.None? ==> forall x :: !Stores(id, records, row, event, x)
  {
    hide Stores, Indexes, Admitted, HeadOf, HasParent, Decode;
    IdsDistinct(id, records);
    AtMostReread(id, records, row, event);
    var parents, scope := Decode(row.parents), Decode(row.scope);
    if parents.None? || scope.None? { return None; }
    var record := Record(row.id, row.context, row.payload, parents.value, scope.value);
    TestsDecide(id, known, records, row, event, record);
    if !record.Valid() { return None; }
    if row.sequence != sequence || row.id in known || row.context != id.context || row.digest != OfRecord(record) { return None; }
    if sequence == 1 {
      if record.parents != [] || row.digest != id.rootDigest { return None; }
    } else if record.parents == [] {
      return None;
    }
    var ok := CheckParents(known, records, record);
    if !ok || event != EventRow(sequence, before, row.digest, OfHead(sequence, before, row.digest)) { return None; }
    return Some(record);
  }

  predicate WithinLimits(row: RecordRow) {
    && |row.payload| <= MAX_PAYLOAD && |row.id| <= 128 && |row.context| <= 128
    && |row.parents| <= 4200 && |row.scope| <= 8400 && row.digest.Length() <= 64
  }

  /** The column limits never reject an admissible record. */
  lemma ValidRowsAreWithinLimits(r: Record, sequence: int)
    requires r.Valid()
    ensures WithinLimits(RowOf(sequence, r))
  {
    EncodingFits(r.parents);
    EncodingFits(r.scope);
  }

  lemma HoldsAt(id: Identity, db: Database, h: seq<Record>, i: nat)
    requires Holds(id, db, h) && i < |h|
    ensures |db.records| == |db.events| == |h|
    ensures Stores(id, h[..i], db.records[i], db.events[i], h[i])
    ensures WithinLimits(db.records[i])
  {
    RowAt(h, i);
    ValidRowsAreWithinLimits(h[i], i + 1);
  }

  /** The first records, read so far, are those of every history the database could hold. */
  ghost predicate ReadSoFar(id: Identity, db: Database, records: seq<Record>) {
    && |records| <= |db.records| == |db.events|
    && Admitted(id, records)
    && db.records[..|records|] == RowsOf(records) && db.events[..|records|] == EventsOf(records)
    && (forall h :: Holds(id, db, h) ==> records <= h)
  }

  lemma ReadOneMore(id: Identity, db: Database, records: seq<Record>, r: Record)
    requires ReadSoFar(id, db, records) && |records| < |db.records|
    requires Stores(id, records, db.records[|records|], db.events[|records|], r)
    ensures ReadSoFar(id, db, records + [r])
  {
    var n := |records|;
    var longer := records + [r];
    AdmittedExtends(id, records, r);
    assert longer[..n] == records;
    assert db.records[..n + 1] == db.records[..n] + [db.records[n]];
    assert db.events[..n + 1] == db.events[..n] + [db.events[n]];
    forall h | Holds(id, db, h) ensures longer <= h {
      PrefixOneMore(id, db, records, r, h);
    }
  }

  lemma PrefixOneMore(id: Identity, db: Database, records: seq<Record>, r: Record, h: seq<Record>)
    requires Holds(id, db, h) && records <= h && |records| < |db.records|
    requires db.records[|records|].digest == OfRecord(r)
    ensures records + [r] <= h
  {
    HoldsAt(id, db, h, |records|);
  }

  lemma ReadToTheEnd(id: Identity, db: Database, records: seq<Record>)
    requires ReadSoFar(id, db, records) && |records| == |db.records|
    requires db.identity == id && db.version == VERSION && 1 <= |records| <= MAX_RECORDS
    ensures Holds(id, db, records)
  {
    assert db.records == db.records[..|records|] && db.events == db.events[..|records|];
  }

  lemma IndexOneMore(known: map<string, Record>, records: seq<Record>, r: Record)
    requires Indexes(known, records) && r.id !in known
    ensures Indexes(known[r.id := r], records + [r])
  {
    var longer := records + [r];
    forall x ensures x in known[r.id := r] <==> x in Ids(longer) {
      assert longer[|records|] == r;
      if x in Ids(records) {
        var q :| q in records && q.id == x;
        assert q in longer;
      }
    }
  }

  predicate AllWithinLimits(rows: seq<RecordRow>) {
    forall i :: 0 <= i < |rows| ==> WithinLimits(rows[i])
  }

  lemma RefusedByLimits(id: Identity, db: Database)
    requires db.identity != id || db.version != VERSION || !(1 <= |db.records| <= MAX_RECORDS)
          || |db.events| != |db.records| || !AllWithinLimits(db.records)
    ensures forall h :: !Holds(id, db, h)
  {
    forall h ensures !Holds(id, db, h) {
      if Holds(id, db, h) {
        forall i | 0 <= i < |h| ensures WithinLimits(db.records[i]) { HoldsAt(id, db, h, i); }
      }
    }
  }

  lemma NextIsStored(id: Identity, db: Database, records: seq<Record>, h: seq<Record>)
    requires Holds(id, db, h) && records <= h && |records| < |db.records| == |db.events|
    ensures |records| < |h| && Stores(id, records, db.records[|records|], db.events[|records|], h[|records|])
  {
    HoldsAt(id, db, h, |records|);
    assert h[..|records|] == records;
  }

  lemma RefusedByRow(id: Identity, db: Database, records: seq<Record>)
    requires ReadSoFar(id, db, records) && |records| < |db.records|
    requires forall x :: !Stores(id, records, db.records[|records|], db.events[|records|], x)
    ensures forall h :: !Holds(id, db, h)
  {
    forall h ensures !Holds(id, db, h) {
      if Holds(id, db, h) { NextIsStored(id, db, records, h); }
    }
  }

  lemma StartReading(id: Identity, db: Database)
    requires |db.records| == |db.events|
    ensures ReadSoFar(id, db, []) && Indexes(map[], [])
  {
    assert db.records[..0] == [] && db.events[..0] == [];
  }

  lemma ScanStep(id: Identity, db: Database, known: map<string, Record>, records: seq<Record>, r: Record)
    requires ReadSoFar(id, db, records) && |records| < |db.records| && Indexes(known, records)
    requires Stores(id, records, db.records[|records|], db.events[|records|], r)
    ensures ReadSoFar(id, db, records + [r]) && Indexes(known[r.id := r], records + [r])
    ensures HeadOf(records + [r]) == OfHead(|records| + 1, HeadOf(records), db.records[|records|].digest)
  {
    forall q | q in records ensures q.id != r.id {
      var j :| 0 <= j < |records| && records[j] == q;
    }
    IndexOneMore(known, records, r);
    ReadOneMore(id, db, records, r);
    InsertExtends(id, records, r);
  }

  /** The full scan: row by row, keeping the known records and the running event head. */
  method VerifyDb(id: Identity, db: Database) returns (r: Option<Verified>)
    ensures r.Some? ==> Holds(id, db, r.value.records) && r.value.checkpoint == CheckpointOf(id, r.value.records)
    ensures r.None? ==> forall h :: !Holds(id, db, h)
  {
    if db.identity != id || db.version != VERSION || !(1 <= |db.records| <= MAX_RECORDS)
       || |db.events| != |db.records| || !AllWithinLimits(db.records) {
      RefusedByLimits(id, db);
      return None;
    }
    var known: map<string, Record>, records: seq<Record>, before := map[], [], Zero;
    StartReading(id, db);
    for i := 0 to |db.records|
      invariant |records| == i && before == HeadOf(records)
      invariant Indexes(known, records) && ReadSoFar(id, db, records)
    {
      var next := CheckRow(id, known, records, before, i + 1, db.records[i], db.events[i]);
      if next.None? {
        RefusedByRow(id, db, records);
        return None;
      }
      ScanStep(id, db, known, records, next.value);
      known := known[next.value.id := next.value];
      records := records + [next.value];
      before := OfHead(i + 1, before, db.records[i].digest);
    }
    ReadToTheEnd(id, db, records);
    return Some(Verified(CheckpointOf(id, records), records));
  }

  /** What is stored for a history, row by row. */
  lemma StoredRowsAre(id: Identity, h: seq<Record>, i: nat)
    requires i < |h|
    ensures var db := DatabaseOf(id, h);
      && |db.records| == |db.events| == |h|
      && db.records[i].sequence == i + 1 && db.events[i].sequence == i + 1
      && db.records[i].id == h[i].id && db.records[i].context == h[i].context && db.records[i].payload == h[i].payload
      && db.records[i].parents == Encode(h[i].parents) && db.records[i].scope == Encode(h[i].scope)
      && db.records[i].digest == OfRecord(h[i]) && db.events[i].recordDigest == OfRecord(h[i])
      && db.events[i].before == (if i == 0 then Zero else db.events[i - 1].head)
      && db.events[i].head == OfHead(i + 1, db.events[i].before, OfRecord(h[i]))
  {
    RowAt(h, i);
    if i > 0 {
      RowAt(h, i - 1);
      assert h[..i][..i - 1] == h[..i - 1];
    }
  }

  /** The checkpoint of a history, read off what is stored for it. */
  lemma CheckpointIs(id: Identity, h: seq<Record>)
    requires h != []
    ensures var db, cp := DatabaseOf(id, h), CheckpointOf(id, h);
      && cp.context == id.context && cp.rootDigest == id.rootDigest && cp.version == db.version == 1
      && cp.sequence == db.events[|h| - 1].sequence == |h| && cp.eventHead == db.events[|h| - 1].head
  {
    RowAt(h, |h| - 1);
    assert h[..|h| - 1] + [h[|h| - 1]] == h;
  }

  /** Two databases the scan accepts differ in some record as soon as their last heads differ, and only then. */
  lemma LastHeadBindsDatabase(id: Identity, g: seq<Record>, h: seq<Record>)
    requires g != [] && h != []
    ensures var a, b := DatabaseOf(id, g), DatabaseOf(id, h);
      a.events[|g| - 1].head == b.events[|h| - 1].head <==> a == b
  {
    RowAt(g, |g| - 1);
    RowAt(h, |h| - 1);
    assert g[..|g| - 1] + [g[|g| - 1]] == g && h[..|h| - 1] + [h[|h| - 1]] == h;
    if DatabaseOf(id, g).events[|g| - 1].head == DatabaseOf(id, h).events[|h| - 1].head { HeadBindsRecords(g, h); }
  }

  /** What the full scan finds, as a function of the database alone. */
  ghost function Scan(id: Identity, db: Database): Option<seq<Record>> {
    if exists h :: Holds(id, db, h) then
      var h :| Holds(id, db, h);
      Some(h)
    else None
  }

  lemma ScanFindsHistory(id: Identity, h: seq<Record>)
    requires ValidHistory(id, h)
    ensures Scan(id, DatabaseOf(id, h)) == Some(h)
  {
    assert Holds(id, DatabaseOf(id, h), h);
    var found := Scan(id, DatabaseOf(id, h)).value;
    DatabaseBindsHistory(id, found, h);
  }
}
