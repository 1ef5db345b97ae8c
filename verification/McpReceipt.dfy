/**
 * The structural receipt of an MCP payload.
 *
 * Main results: `Summarize` (when a receipt comes out, exactly), `OverrunHappens` (a payload
 * within the byte limit for which none does) and `SmallWalksAlwaysReport` (a node budget for
 * which one always does).
 */
module McpReceipt {
  import opened Wrappers
  import opened McpWalk

  datatype TopLevel = TopObject | TopArray | TopScalar

  datatype Telemetry = CompleteTelemetry | IncompleteTelemetry | RejectedTelemetry

  datatype Receipt = Receipt(top: TopLevel, counts: Counts, dropped: set<FieldClass>, telemetry: Telemetry)

  function Top(j: Json): TopLevel {
    if j.Obj? then TopObject else if j.Arr? then TopArray else TopScalar
  }

  /** What the receipt contract demands, bounds included. */
  predicate ReceiptValid(r: Receipt) {
    var c := r.counts;
    && c.visited <= MAX_NODES && c.objects <= MAX_NODES && c.arrays <= MAX_NODES && c.scalars <= MAX_NODES
    && c.blocks <= MAX_NODES && c.embedded <= MAX_NODES && c.unknown <= MAX_NODES && c.truncated <= MAX_NODES
    && (r.telemetry.CompleteTelemetry? ==> c.unknown == 0 && c.truncated == 0)
    && c.visited == c.objects + c.arrays + c.scalars
    && c.blocks <= c.objects && c.embedded <= c.blocks
    && (RawScalar in r.dropped <==> c.scalars > 0)
    && (c.embedded > 0 ==> EmbeddedResource in r.dropped)
    && (match r.top case TopObject => c.objects > 0 case TopArray => c.arrays > 0 case TopScalar => c.scalars > 0)
    && (r.top.TopScalar? ==> r.telemetry.RejectedTelemetry?)
  }

  const MAX_INPUT_BYTES: nat := 65536

  /** The size of the shortest JSON text of a value: a character takes at least one byte, a number or a literal too. */
  function TextSize(j: Json): nat
    decreases j, 1
  {
    match j
    case Obj(keys, values) => 2 + SizeOfFields(keys, values)
    case Arr(items) => 2 + SizeOfItems(items)
    case Str(text) => 2 + |text|
    case Scalar => 1
  }

  function SizeOfItems(items: seq<Json>): nat
    decreases items, 0
  {
    if items == [] then 0
    else TextSize(items[0]) + (if |items| > 1 then 1 else 0) + SizeOfItems(items[1..])
  }

  function SizeOfFields(keys: seq<string>, values: seq<Json>): nat
    decreases values, 0
  {
    if keys == [] || values == [] then 0
    else |keys[0]| + 3 + TextSize(values[0]) + (if |values| > 1 then 1 else 0) + SizeOfFields(keys[1..], values[1..])
  }

  datatype Refusal = NodeBound | DepthBound | ByteBound | ReceiptInvalid

  /**
   * The receipt of a payload of `size` bytes that decodes to `root`. Only the
   * unknown-content count can overrun its field, and a receipt is refused exactly then.
   */
  method Summarize(size: nat, root: Json, maxNodes: int, maxDepth: int, classify: string -> set<FieldClass>)
    returns (r: Result<Receipt, Refusal>)
    requires WellFormed(root) && TextSize(root) <= size
    requires forall k: string :: RawScalar !in classify(k)
    ensures r == Err(NodeBound) <==> !(1 <= maxNodes <= MAX_NODES)
    ensures r == Err(DepthBound) <==> 1 <= maxNodes <= MAX_NODES && !(1 <= maxDepth <= MAX_DEPTH)
    ensures r == Err(ByteBound) <==> 1 <= maxNodes <= MAX_NODES && 1 <= maxDepth <= MAX_DEPTH && !(1 <= size <= MAX_INPUT_BYTES)
    ensures r == Err(ReceiptInvalid) <==> 1 <= maxNodes <= MAX_NODES && 1 <= maxDepth <= MAX_DEPTH && 1 <= size <= MAX_INPUT_BYTES
                                          && UnknownCount(root, maxNodes, maxDepth) > MAX_NODES
    ensures r.Ok? ==> ReceiptValid(r.value) && r.value.top == Top(root)
    ensures r.Ok? ==> r.value.counts.visited == |VisitsOf(root, maxNodes, maxDepth)|
                      && r.value.counts.unknown == UnknownCount(root, maxNodes, maxDepth)
    ensures r.Ok? ==>
              var seen, c := VisitsOf(root, maxNodes, maxDepth), r.value.counts;
              && c.objects == |set i: nat | i < |seen| && seen[i].node.Obj?|
              && c.arrays == |set i: nat | i < |seen| && seen[i].node.Arr?|
              && c.scalars == |set i: nat | i < |seen| && !seen[i].node.Obj? && !seen[i].node.Arr?|
              && c.blocks == |set i: nat | i < |seen| && IsBlock(seen[i].node)|
              && c.embedded == |set i: nat | i < |seen| && IsEmbedded(seen[i].node)|
    ensures r.Ok? ==>
              var seen := VisitsOf(root, maxNodes, maxDepth);
              forall f :: f in r.value.dropped <==>
                || (exists i, k :: 0 <= i < |seen| && seen[i].node.Obj? && 0 <= k < |seen[i].node.keys| && k < seen[i].room
                                   && |seen[i].node.keys[k]| <= 128 && f in classify(seen[i].node.keys[k]))
                || (f == RawScalar && exists i :: 0 <= i < |seen| && !seen[i].node.Obj? && !seen[i].node.Arr?)
                || (f == EmbeddedResource && exists i :: 0 <= i < |seen| && IsEmbedded(seen[i].node))
    ensures r.Ok? ==> (r.value.telemetry.RejectedTelemetry? <==> !root.Obj? && !root.Arr?)
    ensures r.Ok? ==> (r.value.counts.truncated == 0 <==> PayloadFits(root, maxNodes, maxDepth))
    ensures r.Ok? ==> (r.value.telemetry.CompleteTelemetry? <==>
                        PayloadFits(root, maxNodes, maxDepth) && Oddities(root) == 0 && !Top(root).TopScalar?)
    ensures r == Err(ReceiptInvalid) ==> Oddities(root) > MAX_NODES
    ensures 1 <= maxNodes <= MAX_NODES && 1 <= maxDepth <= MAX_DEPTH && 1 <= size <= MAX_INPUT_BYTES && PayloadFits(root, maxNodes, maxDepth) ==>
              (r.Ok? <==> Oddities(root) <= MAX_NODES)
  {
    hide *;
    if !(1 <= maxNodes <= MAX_NODES) { return Err(NodeBound); }
    if !(1 <= maxDepth <= MAX_DEPTH) { return Err(DepthBound); }
    if !(1 <= size <= MAX_INPUT_BYTES) { return Err(ByteBound); }
    var c, dropped, trail, lost, seen := Walk(root, maxNodes, maxDepth, classify);
    var telemetry := if Top(root).TopScalar? then RejectedTelemetry
                     else if c.unknown > 0 || c.truncated > 0 then IncompleteTelemetry else CompleteTelemetry;
    var receipt := Receipt(Top(root), c, dropped, telemetry);
    OnlyUnknownOverruns(root, c, dropped, telemetry);
    TalliesMean(seen, classify, c, dropped);
    DroppedMeans(seen, classify, dropped);
    TopMeans(root);
    if !ReceiptValid(receipt) { return Err(ReceiptInvalid); }
    return Ok(receipt);
  }

  lemma TopMeans(root: Json)
    ensures Top(root).TopScalar? <==> !root.Obj? && !root.Arr?
  {
  }

  lemma TalliesMean(seen: seq<Visited>, classify: string -> set<FieldClass>, c: Counts, dropped: set<FieldClass>)
    requires Tallies(seen, classify, c, dropped)
    ensures c.objects == |set i: nat | i < |seen| && seen[i].node.Obj?|
    ensures c.arrays == |set i: nat | i < |seen| && seen[i].node.Arr?|
    ensures c.scalars == |set i: nat | i < |seen| && !seen[i].node.Obj? && !seen[i].node.Arr?|
    ensures c.blocks == |set i: nat | i < |seen| && IsBlock(seen[i].node)|
    ensures c.embedded == |set i: nat | i < |seen| && IsEmbedded(seen[i].node)|
    ensures forall f :: f in dropped <==> Dropped(seen, classify, f)
  {
    hide IsBlock, IsEmbedded, Dropped;
    assert (set i: nat | i < |seen| && seen[i].node.Obj?) == Objects(seen);
    assert (set i: nat | i < |seen| && seen[i].node.Arr?) == Arrays(seen);
    assert (set i: nat | i < |seen| && !seen[i].node.Obj? && !seen[i].node.Arr?) == Leaves(seen);
    assert (set i: nat | i < |seen| && IsBlock(seen[i].node)) == Blocks(seen);
    assert (set i: nat | i < |seen| && IsEmbedded(seen[i].node)) == Embedded(seen);
  }

  /** The classes listed, spelled out over the visits. */
  lemma DroppedMeans(seen: seq<Visited>, classify: string -> set<FieldClass>, dropped: set<FieldClass>)
    requires forall f :: f in dropped <==> Dropped(seen, classify, f)
    ensures forall f :: f in dropped <==>
              || (exists i, k :: 0 <= i < |seen| && seen[i].node.Obj? && 0 <= k < |seen[i].node.keys| && k < seen[i].room
                                 && |seen[i].node.keys[k]| <= 128 && f in classify(seen[i].node.keys[k]))
              || (f == RawScalar && exists i :: 0 <= i < |seen| && !seen[i].node.Obj? && !seen[i].node.Arr?)
              || (f == EmbeddedResource && exists i :: 0 <= i < |seen| && IsEmbedded(seen[i].node))
  {
    hide IsEmbedded;
  }

  /** Of all the demands of the receipt contract, the walk can only miss the bound on unknown content. */
  lemma OnlyUnknownOverruns(root: Json, c: Counts, dropped: set<FieldClass>, telemetry: Telemetry)
    requires KindsAgree(c, dropped) && c.visited <= MAX_NODES
    requires (root.Obj? ==> c.objects > 0) && (root.Arr? ==> c.arrays > 0) && (!root.Obj? && !root.Arr? ==> c.scalars > 0)
    requires telemetry == if Top(root).TopScalar? then RejectedTelemetry
                          else if c.unknown > 0 || c.truncated > 0 then IncompleteTelemetry else CompleteTelemetry
    ensures ReceiptValid(Receipt(Top(root), c, dropped, telemetry)) <==> c.unknown <= MAX_NODES
  {
  }

  // ------------------------------------------------- when the count overruns

  function Times<T>(n: nat, x: T): seq<T> {
    seq(n, _ => x)
  }

  /** An object whose declared block type is unknown. */
  const ODD_BLOCK := Obj(["type"], [Str("x")])

  /** Two oversized keys, then 4094 blocks of unknown type under an empty key. */
  function OverrunningPayload(): Json {
    Obj([Times(129, 'a'), Times(129, 'b'), ""], [Scalar, Scalar, Arr(Times(4094, ODD_BLOCK))])
  }

  lemma {:induction false} SizeOfTimes(n: nat, j: Json)
    ensures SizeOfItems(Times(n, j)) <= n * (TextSize(j) + 1)
  {
    if n > 0 {
      assert Times(n, j)[0] == j && Times(n, j)[1..] == Times(n - 1, j);
      SizeOfTimes(n - 1, j);
    }
  }

  lemma OddBlock(room: nat)
    ensures WellFormed(ODD_BLOCK) && TextSize(ODD_BLOCK) == 12
    ensures OddAt(ODD_BLOCK, 0) == 1 && Kept(ODD_BLOCK, 0) == []
  {
    var keys, values := ["type"], [Str("x")];
    assert keys[1..] == [] && values[1..] == [] && keys[..0] == [];
    assert |KNOWN_BLOCKS - {"x"}| == |KNOWN_BLOCKS|;
  }

  lemma {:induction false} BlocksVisited(n: nat, maxDepth: nat)
    requires maxDepth >= 2
    ensures Visits(Entries(Times(n, ODD_BLOCK), 2), 0, maxDepth) == Times(n, Visited(ODD_BLOCK, 0))
  {
    hide Kept;
    var queue := Entries(Times(n, ODD_BLOCK), 2);
    if n > 0 {
      OddBlock(0);
      BlocksVisited(n - 1, maxDepth);
      NoEntries(3);
      assert queue[0] == Item(ODD_BLOCK, 2);
      assert queue[1..] + [] == Entries(Times(n - 1, ODD_BLOCK), 2);
      assert Times(n, Visited(ODD_BLOCK, 0)) == [Visited(ODD_BLOCK, 0)] + Times(n - 1, Visited(ODD_BLOCK, 0));
    }
  }

  lemma {:induction false} BlocksAreUnknown(n: nat)
    ensures UnknownIn(Times(n, Visited(ODD_BLOCK, 0))) == n
  {
    hide OddAt;
    if n > 0 {
      OddBlock(0);
      BlocksAreUnknown(n - 1);
      OneMoreVisit(Times(n - 1, Visited(ODD_BLOCK, 0)), Visited(ODD_BLOCK, 0));
      assert Times(n, Visited(ODD_BLOCK, 0)) == Times(n - 1, Visited(ODD_BLOCK, 0)) + [Visited(ODD_BLOCK, 0)];
    }
  }

  lemma {:induction false} UnknownConcat(a: seq<Visited>, b: seq<Visited>)
    ensures UnknownIn(a + b) == UnknownIn(a) + UnknownIn(b)
  {
    if b == [] {
      assert a + b == a;
    } else {
      var n := |b| - 1;
      assert (a + b)[..|a + b| - 1] == a + b[..n];
      UnknownConcat(a, b[..n]);
    }
  }

  lemma OverrunningShape()
    ensures WellFormed(OverrunningPayload()) && TextSize(OverrunningPayload()) <= MAX_INPUT_BYTES
  {
    var keys, values := OverrunningPayload().keys, OverrunningPayload().values;
    OddBlock(0);
    SizeOfTimes(4094, ODD_BLOCK);
    assert keys[0][0] == 'a' && keys[1][0] == 'b';
    assert keys[1..][1..][1..] == [] && values[1..][1..][1..] == [];
    assert SizeOfFields(keys[1..][1..], values[1..][1..]) == 3 + TextSize(values[2]);
    assert SizeOfFields(keys[1..], values[1..]) == 134 + SizeOfFields(keys[1..][1..], values[1..][1..]);
  }

  lemma OverrunningRoot(room: nat)
    requires room >= 3
    ensures OddAt(OverrunningPayload(), room) == 3
    ensures Kept(OverrunningPayload(), room) == [Arr(Times(4094, ODD_BLOCK))]
  {
    var keys, values := OverrunningPayload().keys, OverrunningPayload().values;
    assert keys[..3] == keys;
    assert keys[..2] == [keys[0], keys[1]] && keys[..2][..1] == [keys[0]] && keys[..2][..1][..0] == [];
    assert OddKeys([keys[0]]) == 1 && OddKeys(keys[..2]) == 2;
    assert keys[0][0] == 'a' && keys[1][0] == 'b' && "type"[0] == 't' && keys[2] == "";
    assert TypeOf(keys[1..][1..][1..], values[1..][1..][1..]) == None;
    assert TypeOf(keys[1..], values[1..]) == None;
    assert KeptFields(keys, values, 0) == KeptFields(keys, values, 1) == KeptFields(keys, values, 2) == [];
  }

  /** A payload within the byte limit for which no receipt is issued: 4097 oddities among 4096 visited nodes. */
  lemma OverrunHappens(maxDepth: nat)
    requires 2 <= maxDepth <= MAX_DEPTH
    ensures WellFormed(OverrunningPayload()) && TextSize(OverrunningPayload()) <= MAX_INPUT_BYTES
    ensures UnknownCount(OverrunningPayload(), MAX_NODES, maxDepth) == MAX_NODES + 1
  {
    hide OddAt, Kept, UnknownIn, OverrunningPayload, WellFormed, TextSize;
    OverrunningShape();
    var root, blocks := OverrunningPayload(), Times(4094, ODD_BLOCK);
    var list := Arr(blocks);
    OverrunningRoot(4095);
    OverrunningList();
    BlocksVisited(4094, maxDepth);
    BlocksAreUnknown(4094);
    var rest := Times(4094, Visited(ODD_BLOCK, 0));
    assert [Item(root, 0)][1..] + Entries([list], 1) == [Item(list, 1)];
    assert [Item(list, 1)][1..] + Entries(blocks, 2) == Entries(blocks, 2);
    assert Visits([Item(list, 1)], 4094, maxDepth) == [Visited(list, 4094)] + rest;
    assert VisitsOf(root, MAX_NODES, maxDepth) == [Visited(root, 4095)] + ([Visited(list, 4094)] + rest);
    UnknownConcat([Visited(root, 4095)], [Visited(list, 4094)] + rest);
    UnknownConcat([Visited(list, 4094)], rest);
    UnknownOfOne(Visited(root, 4095));
    UnknownOfOne(Visited(list, 4094));
  }

  /** No receipt is issued for that payload, spelled in any number of bytes within the limit. */
  method OverrunIsRefused(size: nat, maxDepth: nat, classify: string -> set<FieldClass>) returns (r: Result<Receipt, Refusal>)
    requires 2 <= maxDepth <= MAX_DEPTH && TextSize(OverrunningPayload()) <= size <= MAX_INPUT_BYTES
    requires forall k: string :: RawScalar !in classify(k)
    ensures r == Err(ReceiptInvalid)
  {
    hide OverrunningPayload, UnknownCount, WellFormed;
    OverrunHappens(maxDepth);
    SizeIsPositive(OverrunningPayload());
    r := Summarize(size, OverrunningPayload(), MAX_NODES, maxDepth, classify);
  }

  lemma SizeIsPositive(j: Json)
    ensures TextSize(j) >= 1
  {
  }

  lemma OverrunningList()
    ensures OddAt(Arr(Times(4094, ODD_BLOCK)), 4094) == 0
    ensures Kept(Arr(Times(4094, ODD_BLOCK)), 4094) == Times(4094, ODD_BLOCK)
  {
  }

  lemma UnknownOfOne(v: Visited)
    ensures UnknownIn([v]) == OddAt(v.node, v.room)
  {
    assert [v][..0] == [];
  }

  // ------------------------------------------ payloads that never overrun it

  function LongKeys(keys: seq<string>): nat {
    if keys == [] then 0 else (if |keys[0]| > MAX_KEY then 1 else 0) + LongKeys(keys[1..])
  }

  /** The oversized keys of the whole tree. */
  function LongKeysIn(j: Json): nat
    decreases j, 1
  {
    match j
    case Obj(keys, values) => LongKeys(keys) + LongKeysOf(values)
    case Arr(items) => LongKeysOf(items)
    case _ => 0
  }

  function LongKeysOf(js: seq<Json>): nat
    decreases js, 0
  {
    if js == [] then 0 else LongKeysIn(js[0]) + LongKeysOf(js[1..])
  }

  lemma {:induction false} LongKeysTakeSpace(j: Json)
    requires WellFormed(j)
    ensures 132 * LongKeysIn(j) <= TextSize(j)
    decreases j, 1
  {
    match j
    case Obj(keys, values) => FieldsTakeSpace(keys, values);
    case Arr(items) => ItemsTakeSpace(items);
    case _ =>
  }

  lemma {:induction false} ItemsTakeSpace(items: seq<Json>)
    requires AllWellFormed(items)
    ensures 132 * LongKeysOf(items) <= SizeOfItems(items)
    decreases items, 0
  {
    if items != [] {
      LongKeysTakeSpace(items[0]);
      ItemsTakeSpace(items[1..]);
    }
  }

  lemma {:induction false} FieldsTakeSpace(keys: seq<string>, values: seq<Json>)
    requires |keys| == |values| && AllWellFormed(values)
    ensures 132 * (LongKeys(keys) + LongKeysOf(values)) <= SizeOfFields(keys, values)
    decreases values, 0
  {
    if keys != [] {
      LongKeysTakeSpace(values[0]);
      FieldsTakeSpace(keys[1..], values[1..]);
    }
  }

  lemma {:induction false} OddKeysByFirst(keys: seq<string>)
    requires keys != []
    ensures OddKeys(keys) == (if OddKey(keys[0]) then 1 else 0) + OddKeys(keys[1..])
  {
    var n := |keys| - 1;
    if n == 0 {
      assert keys[..0] == [] && keys[1..] == [];
    } else {
      OddKeysByFirst(keys[..n]);
      assert keys[..n][1..] == keys[1..][..n - 1] && keys[1..][n - 1] == keys[n];
    }
  }

  /** Keys being distinct, at most one of them is empty. */
  lemma {:induction false} OddKeysAreLong(keys: seq<string>)
    requires forall a, b :: 0 <= a < b < |keys| ==> keys[a] != keys[b]
    ensures OddKeys(keys) <= LongKeys(keys) + if "" in keys then 1 else 0
  {
    if keys != [] {
      OddKeysByFirst(keys);
      OddKeysAreLong(keys[1..]);
      assert forall k :: k in keys <==> k == keys[0] || k in keys[1..];
    }
  }

  lemma OddAtIsLong(j: Json, room: nat)
    requires WellFormed(j)
    ensures OddAt(j, room) + LongKeysOf(Children(j)) <= 2 + LongKeysIn(j)
  {
    if j.Obj? {
      OddKeysGrow(j.keys, Min(room, |j.keys|));
      OddKeysAreLong(j.keys);
    }
  }

  lemma {:induction false} LongKeysConcat(a: seq<Json>, b: seq<Json>)
    ensures LongKeysOf(a + b) == LongKeysOf(a) + LongKeysOf(b)
  {
    if a == [] {
      assert a + b == b;
    } else {
      assert (a + b)[1..] == a[1..] + b;
      LongKeysConcat(a[1..], b);
    }
  }

  lemma LongKeysOfOne(j: Json)
    ensures LongKeysOf([j]) == LongKeysIn(j)
  {
    assert [j][1..] == [];
  }

  lemma {:induction false} KeptFieldsLong(keys: seq<string>, values: seq<Json>, n: nat)
    requires n <= |keys| == |values|
    ensures LongKeysOf(KeptFields(keys, values, n)) <= LongKeysOf(values[..n])
    ensures forall v :: v in KeptFields(keys, values, n) ==> v in values
  {
    hide LongKeysOf, LongKeysIn;
    if n == 0 {
      assert values[..0] == [];
    } else {
      KeptFieldsLong(keys, values, n - 1);
      var before := KeptFields(keys, values, n - 1);
      assert KeptFields(keys, values, n) == if |keys[n - 1]| <= MAX_KEY then before + [values[n - 1]] else before;
      assert values[..n] == values[..n - 1] + [values[n - 1]];
      LongKeysConcat(before, [values[n - 1]]);
      LongKeysConcat(values[..n - 1], [values[n - 1]]);
    }
  }

  lemma KeptLong(j: Json, room: nat)
    requires WellFormed(j)
    ensures LongKeysOf(Kept(j, room)) <= LongKeysOf(Children(j)) && AllWellFormed(Kept(j, room))
  {
    hide LongKeysOf, LongKeysIn;
    match j
    case Obj(keys, values) =>
      var n := Min(room, |keys|);
      KeptFieldsLong(keys, values, n);
      LongKeysConcat(values[..n], values[n..]);
      assert values[..n] + values[n..] == values;
    case Arr(items) =>
      var n := Min(room, |items|);
      LongKeysConcat(items[..n], items[n..]);
      assert items[..n] + items[n..] == items;
    case _ =>
  }

  /** A visit adds at most two to the unknown content beyond the oversized keys, and there are at most as many visits as room. */
  lemma {:induction false} VisitsBound(queue: seq<Item>, room: nat, maxDepth: nat)
    requires AllWellFormed(Values(queue))
    ensures |Visits(queue, room, maxDepth)| <= |queue| + room
    ensures UnknownIn(Visits(queue, room, maxDepth)) <= 2 * |Visits(queue, room, maxDepth)| + LongKeysOf(Values(queue))
    decreases |NodesOf(Values(queue))|
  {
    hide OddAt, Kept, WellFormed, LongKeysOf, UnknownIn, NodesOf;
    if queue == [] || queue[0].depth > maxDepth {
      NothingUnknown();
    } else {
      var j, depth := queue[0].value, queue[0].depth;
      var kept := Kept(j, room);
      var next := queue[1..] + Entries(kept, depth + 1);
      var rest := Visits(next, room - |kept|, maxDepth);
      assert Values(queue)[0] == j && j in Values(queue);
      KeptShrinks(queue, room);
      KeptLong(j, room);
      OddAtIsLong(j, room);
      assert Values(queue) == [j] + Values(queue[1..]);
      ValuesOfConcat(queue[1..], Entries(kept, depth + 1));
      EntriesHold(kept, depth + 1);
      LongKeysConcat([j], Values(queue[1..]));
      LongKeysConcat(Values(queue[1..]), kept);
      LongKeysOfOne(j);
      VisitsBound(next, room - |kept|, maxDepth);
      UnknownConcat([Visited(j, room)], rest);
      UnknownOfOne(Visited(j, room));
    }
  }

  lemma NothingUnknown()
    ensures UnknownIn([]) == 0
  {
  }

  /** The unknown content is at most twice the node budget plus one for every 132 bytes. */
  lemma UnknownIsBounded(root: Json, maxNodes: nat, maxDepth: nat)
    requires WellFormed(root) && 1 <= maxNodes
    ensures 132 * UnknownCount(root, maxNodes, maxDepth) <= 264 * maxNodes + TextSize(root)
  {
    hide UnknownIn, LongKeysIn;
    assert Values([Item(root, 0)]) == [root];
    VisitsBound([Item(root, 0)], maxNodes - 1, maxDepth);
    LongKeysOfOne(root);
    LongKeysTakeSpace(root);
  }

  /** Within the byte limit a node budget of at most 1800, such as the default of 256, always yields a receipt. */
  lemma SmallWalksAlwaysReport(root: Json, maxNodes: nat, maxDepth: nat)
    requires WellFormed(root) && TextSize(root) <= MAX_INPUT_BYTES && 1 <= maxNodes <= 1800
    ensures UnknownCount(root, maxNodes, maxDepth) <= MAX_NODES
  {
    UnknownIsBounded(root, maxNodes, maxDepth);
  }
}
