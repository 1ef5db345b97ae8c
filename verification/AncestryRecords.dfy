/**
 * Records, digests, checkpoints and histories of the retained ancestry store.
 *
 * SHA-256 over a canonical encoding is modelled as an injective constructor: two
 * digests are equal exactly when the digested contents are.
 */
module AncestryRecords {
  import opened Digraph
  import opened Ordering
  import opened Wrappers

  const MAX_RECORDS: nat := 4096
  const MAX_PAYLOAD: nat := 65536
  const MAX_PARENTS: nat := 32
  const MAX_SCOPE: nat := 64
  const MAX_LABEL: nat := 128
  const VERSION: nat := 1

  predicate IsAlphanumeric(c: char) {
    'A' <= c <= 'Z' || 'a' <= c <= 'z' || '0' <= c <= '9'
  }

  predicate IsLabelChar(c: char) {
    IsAlphanumeric(c) || c == '_' || c == '.' || c == ':' || c == '/' || c == '-'
  }

  predicate IsLabel(s: string) {
    && 1 <= |s| <= MAX_LABEL
    && IsAlphanumeric(s[0])
    && forall i :: 0 <= i < |s| ==> IsLabelChar(s[i])
  }

  /** A tuple equal to its own sorted, duplicate-free listing. */
  predicate SortedUnique(s: seq<string>) {
    forall i, j :: 0 <= i < j < |s| ==> Before(s[i], s[j])
  }

  predicate IsLabelTuple(s: seq<string>, limit: nat) {
    |s| <= limit && (forall l :: l in s ==> IsLabel(l)) && SortedUnique(s)
  }

  datatype Record = Record(id: string, context: string, payload: seq<Byte>, parents: seq<string>, scope: seq<string>) {
    predicate Valid() {
      && IsLabel(id) && IsLabel(context)
      && |payload| <= MAX_PAYLOAD
      && IsLabelTuple(parents, MAX_PARENTS)
      && IsLabelTuple(scope, MAX_SCOPE)
    }
  }

  /** `Foreign` stands for any stored text that no digest computation produced. */
  datatype Digest =
    | Zero
    | OfRecord(record: Record)
    | OfHead(sequence: nat, before: Digest, recordDigest: Digest)
    | Foreign(text: string)
  {
    predicate IsHex() {
      Foreign? ==> |text| == 64 && forall i :: 0 <= i < 64 ==> '0' <= text[i] <= '9' || 'a' <= text[i] <= 'f'
    }

    function Length(): nat {
      if Foreign? then |text| else 64
    }
  }

  datatype Checkpoint = Checkpoint(context: string, rootDigest: Digest, version: nat, sequence: nat, eventHead: Digest)

  /** Who a store belongs to: its context and the digest of its root record. */
  datatype Identity = Identity(context: string, rootDigest: Digest)

  /** The head of the event chain that commits exactly these records, in this order. */
  function HeadOf(records: seq<Record>): Digest {
    if records == [] then Zero
    else
      var n := |records|;
      OfHead(n, HeadOf(records[..n - 1]), OfRecord(records[n - 1]))
  }

  function CheckpointOf(id: Identity, records: seq<Record>): Checkpoint {
    Checkpoint(id.context, id.rootDigest, VERSION, |records|, HeadOf(records))
  }

  function Ids(records: seq<Record>): set<string> {
    set r | r in records :: r.id
  }

  predicate ScopeWithin(child: Record, parent: Record) {
    forall s :: s in child.scope ==> s in parent.scope
  }

  /** Some record among these is the named parent and does not have a smaller scope than the child. */
  predicate HasParent(records: seq<Record>, child: Record, parentId: string) {
    exists j :: 0 <= j < |records| && records[j].id == parentId && ScopeWithin(child, records[j])
  }

  /** The record may follow these records. */
  predicate MayFollow(id: Identity, records: seq<Record>, r: Record) {
    && r.Valid() && r.context == id.context
    && (forall j :: 0 <= j < |records| ==> records[j].id != r.id)
    && (if records == [] then r.parents == [] && OfRecord(r) == id.rootDigest else r.parents != [])
    && (forall p :: p in r.parents ==> HasParent(records, r, p))
  }

  /** Every record may follow the records before it. */
  predicate Admitted(id: Identity, records: seq<Record>) {
    forall i :: 0 <= i < |records| ==> MayFollow(id, records[..i], records[i])
  }

  predicate ValidHistory(id: Identity, records: seq<Record>) {
    1 <= |records| <= MAX_RECORDS && Admitted(id, records)
  }

  /** One to 128 characters, the first a letter or a digit, the others those or one of five marks. */
  ghost predicate LabelShaped(s: string) {
    && 1 <= |s| <= 128
    && forall i :: 0 <= i < |s| ==>
         'A' <= s[i] <= 'Z' || 'a' <= s[i] <= 'z' || '0' <= s[i] <= '9' || (i > 0 && s[i] in "_.:/-")
  }

  /** The record contract, field by field; tuples ascend in code-point order, so they hold no label twice. */
  lemma ValidMeans(r: Record)
    ensures r.Valid() <==>
            && LabelShaped(r.id) && LabelShaped(r.context) && |r.payload| <= 65536
            && |r.parents| <= 32 && (forall i :: 0 <= i < |r.parents| ==> LabelShaped(r.parents[i]))
            && (forall i, j :: 0 <= i < j < |r.parents| ==> Before(r.parents[i], r.parents[j]))
            && |r.scope| <= 64 && (forall i :: 0 <= i < |r.scope| ==> LabelShaped(r.scope[i]))
            && (forall i, j :: 0 <= i < j < |r.scope| ==> Before(r.scope[i], r.scope[j]))
  {
    hide IsLabel, LabelShaped;
    LabelMeans(r.id);
    LabelMeans(r.context);
    LabelsMean(r.parents);
    LabelsMean(r.scope);
  }

  lemma LabelMeans(s: string)
    ensures IsLabel(s) <==> LabelShaped(s)
  {
    assert forall c: char :: c in "_.:/-" <==> c == '_' || c == '.' || c == ':' || c == '/' || c == '-';
    if IsLabel(s) { assert forall i :: 0 <= i < |s| ==> IsLabelChar(s[i]); }
  }

  lemma LabelsMean(ls: seq<string>)
    ensures (forall l :: l in ls ==> IsLabel(l)) <==> forall i :: 0 <= i < |ls| ==> LabelShaped(ls[i])
  {
    hide IsLabel, LabelShaped;
    forall l ensures IsLabel(l) <==> LabelShaped(l) { LabelMeans(l); }
    assert forall i :: 0 <= i < |ls| ==> ls[i] in ls;
  }

  /** Admission, spelled out: which records a history may continue with. */
  lemma MayFollowMeans(id: Identity, records: seq<Record>, r: Record)
    requires r.Valid()
    ensures MayFollow(id, records, r) <==>
            && r.context == id.context
            && (forall j :: 0 <= j < |records| ==> records[j].id != r.id)
            && (records == [] ==> r.parents == [] && OfRecord(r) == id.rootDigest)
            && (records != [] ==> r.parents != [])
            && (forall p :: p in r.parents ==>
                  exists j :: 0 <= j < |records| && records[j].id == p && forall l :: l in r.scope ==> l in records[j].scope)
  {
    forall p ensures HasParent(records, r, p) <==>
                     exists j :: 0 <= j < |records| && records[j].id == p && forall l :: l in r.scope ==> l in records[j].scope
    {
      if j :| 0 <= j < |records| && records[j].id == p && ScopeWithin(r, records[j]) {
        assert forall l :: l in r.scope ==> l in records[j].scope;
      }
      if j :| 0 <= j < |records| && records[j].id == p && forall l :: l in r.scope ==> l in records[j].scope {
        assert ScopeWithin(r, records[j]);
      }
    }
  }

  lemma AdmittedExtends(id: Identity, records: seq<Record>, r: Record)
    ensures Admitted(id, records + [r]) <==> Admitted(id, records) && MayFollow(id, records, r)
  {
    var longer := records + [r];
    assert longer[..|records|] == records;
    assert forall i :: 0 <= i < |records| ==> longer[..i] == records[..i] && longer[i] == records[i];
    if Admitted(id, longer) {
      assert MayFollow(id, longer[..|records|], longer[|records|]);
      forall i | 0 <= i < |records| ensures MayFollow(id, records[..i], records[i]) {
        assert MayFollow(id, longer[..i], longer[i]);
      }
    }
  }

  lemma AdmittedPrefix(id: Identity, records: seq<Record>, n: nat)
    requires Admitted(id, records) && n <= |records|
    ensures Admitted(id, records[..n])
  {
    forall i | 0 <= i < n ensures MayFollow(id, records[..n][..i], records[..n][i]) {
      assert records[..n][..i] == records[..i];
    }
  }

  lemma RootAlone(root: Record)
    requires root.Valid() && root.parents == []
    ensures ValidHistory(Identity(root.context, OfRecord(root)), [root])
  {
    var id := Identity(root.context, OfRecord(root));
    assert [] + [root] == [root];
    AdmittedExtends(id, [], root);
  }

  // -------------------------------------------------------------- binding

  /** The event head determines every record before it. */
  lemma {:induction false} HeadBindsRecords(a: seq<Record>, b: seq<Record>)
    requires HeadOf(a) == HeadOf(b)
    ensures a == b
  {
    if a != [] && b != [] {
      HeadBindsRecords(a[..|a| - 1], b[..|b| - 1]);
      assert a == a[..|a| - 1] + [a[|a| - 1]];
      assert b == b[..|b| - 1] + [b[|b| - 1]];
    }
  }

  /** Equal checkpoints mean identical histories, record by record. */
  lemma CheckpointBindsHistory(id: Identity, a: seq<Record>, id': Identity, b: seq<Record>)
    ensures CheckpointOf(id, a) == CheckpointOf(id', b) <==> id == id' && a == b
  {
    if CheckpointOf(id, a) == CheckpointOf(id', b) {
      HeadBindsRecords(a, b);
    }
  }

  // ------------------------------------------------------------- ancestry

  function IdSeq(records: seq<Record>): seq<string> {
    seq(|records|, i requires 0 <= i < |records| => records[i].id)
  }

  lemma IdsDistinct(id: Identity, records: seq<Record>)
    requires Admitted(id, records)
    ensures forall i, j :: 0 <= i < j < |records| ==> records[i].id != records[j].id
    ensures Distinct(IdSeq(records)) && Elements(IdSeq(records)) == Ids(records)
  {
    forall i, j | 0 <= i < j < |records| ensures records[i].id != records[j].id {
      assert MayFollow(id, records[..j], records[j]);
      assert records[..j][i] == records[i];
    }
    forall x ensures x in Elements(IdSeq(records)) <==> x in Ids(records) {
      if x in Ids(records) {
        var r :| r in records && r.id == x;
        var i :| 0 <= i < |records| && records[i] == r;
        assert IdSeq(records)[i] == x;
      }
    }
  }

  predicate IsFirst(records: seq<Record>, x: string, i: nat) {
    i < |records| && records[i].id == x && forall j :: 0 <= j < i ==> records[j].id != x
  }

  lemma {:induction false} FirstExists(records: seq<Record>, x: string) returns (i: nat)
    requires x in Ids(records)
    ensures IsFirst(records, x, i)
  {
    if records[0].id == x {
      i := 0;
    } else {
      var r :| r in records && r.id == x;
      assert r in records[1..];
      var k := FirstExists(records[1..], x);
      i := k + 1;
    }
  }

  /** The position at which an identifier was admitted. */
  function IndexOf(records: seq<Record>, x: string): (i: nat)
    requires x in Ids(records)
    ensures i < |records| && records[i].id == x
    ensures forall j :: 0 <= j < i ==> records[j].id != x
  {
    assert exists i: nat :: IsFirst(records, x, i) by { var k := FirstExists(records, x); }
    var i: nat :| IsFirst(records, x, i);
    i
  }

  /** The parent lists, keyed by record identifier. */
  function ParentGraph(records: seq<Record>): (g: map<string, seq<string>>)
    ensures g.Keys == Ids(records)
  {
    map x | x in Ids(records) :: records[IndexOf(records, x)].parents
  }

  /** A parent is admitted strictly earlier and its scope contains the child's. */
  lemma ParentIsEarlier(id: Identity, records: seq<Record>, i: nat, p: string) returns (j: nat)
    requires Admitted(id, records) && i < |records| && p in records[i].parents
    ensures j < i && records[j].id == p && ScopeWithin(records[i], records[j])
    ensures forall l :: l in records[i].scope ==> l in records[j].scope
    ensures p in Ids(records) && IndexOf(records, p) == j
  {
    assert MayFollow(id, records[..i], records[i]);
    assert HasParent(records[..i], records[i], p);
    j :| 0 <= j < i && records[..i][j].id == p && ScopeWithin(records[i], records[..i][j]);
    assert records[j] in records;
    IdsDistinct(id, records);
  }

  lemma GraphOfHistory(id: Identity, records: seq<Record>)
    requires Admitted(id, records)
    ensures Closed(ParentGraph(records)) && Acyclic(ParentGraph(records))
    ensures forall i :: 0 <= i < |records| ==>
              records[i].id in ParentGraph(records) && ParentGraph(records)[records[i].id] == records[i].parents
  {
    var g := ParentGraph(records);
    IdsDistinct(id, records);
    forall i | 0 <= i < |records| ensures records[i].id in g && g[records[i].id] == records[i].parents {
      assert records[i] in records;
    }
    forall a, b | a in g && b in g[a] ensures b in g {
      var j := ParentIsEarlier(id, records, IndexOf(records, a), b);
    }
    var order := IdSeq(records);
    forall i, b | 0 <= i < |order| && Edge(g, order[i], b) ensures b in order[..i] {
      var j := ParentIsEarlier(id, records, i, b);
      assert order[..i][j] == b;
    }
    OrderedMeansAcyclic(g, order);
  }

  /**
   * Along any ancestor path the admission position does not grow, and shrinks unless
   * the path is trivial; the scope of the descendant is contained in the ancestor's.
   */
  lemma {:induction false} AncestorWalk(id: Identity, records: seq<Record>, p: seq<string>)
    requires Admitted(id, records) && IsWalk(ParentGraph(records), p)
    ensures p[0] in Ids(records) && p[|p| - 1] in Ids(records)
    ensures ScopeWithin(records[IndexOf(records, p[0])], records[IndexOf(records, p[|p| - 1])])
    ensures IndexOf(records, p[|p| - 1]) <= IndexOf(records, p[0])
    ensures |p| > 1 ==> IndexOf(records, p[|p| - 1]) < IndexOf(records, p[0])
  {
    if |p| > 1 {
      assert Edge(ParentGraph(records), p[0], p[1]);
      var j := ParentIsEarlier(id, records, IndexOf(records, p[0]), p[1]);
      AncestorWalk(id, records, p[1..]);
    }
  }

  /** Scope never expands along ancestry, and ancestors are admitted earlier. */
  lemma AncestorsDominate(id: Identity, records: seq<Record>, x: string, y: string)
    requires Admitted(id, records) && Reaches(ParentGraph(records), x, y)
    ensures x in Ids(records) && y in Ids(records)
    ensures ScopeWithin(records[IndexOf(records, x)], records[IndexOf(records, y)])
    ensures forall l :: l in records[IndexOf(records, x)].scope ==> l in records[IndexOf(records, y)].scope
    ensures x != y ==> IndexOf(records, y) < IndexOf(records, x)
  {
    var p :| WalkFromTo(ParentGraph(records), p, x, y);
    AncestorWalk(id, records, p);
  }

  /** Every record descends from the single root. */
  lemma {:induction false} EveryRecordReachesRoot(id: Identity, records: seq<Record>, i: nat)
    requires Admitted(id, records) && i < |records|
    ensures Reaches(ParentGraph(records), records[i].id, records[0].id)
    ensures records[i].parents == [] <==> i == 0
    decreases i
  {
    var g := ParentGraph(records);
    GraphOfHistory(id, records);
    assert MayFollow(id, records[..i], records[i]);
    if i == 0 {
      ReachesSelf(g, records[0].id);
    } else {
      var p := records[i].parents[0];
      var j := ParentIsEarlier(id, records, i, p);
      EveryRecordReachesRoot(id, records, j);
      assert Edge(g, records[i].id, p);
      ReachesByEdgeFirst(g, records[i].id, p, records[0].id);
    }
  }
}
