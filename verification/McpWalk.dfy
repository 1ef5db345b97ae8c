/**
 * The bounded breadth-first walk over a decoded JSON payload.
 *
 * Main result: `Walk` conserves nodes (visited, pending and lost nodes together are the
 * nodes of the payload), reports no truncation exactly when the payload fits the node,
 * depth and key bounds, and visits and counts exactly what `VisitsOf` describes.
 */
module McpWalk {
  import opened Wrappers

  const MAX_NODES: nat := 4096
  const MAX_DEPTH: nat := 32
  const MAX_KEY: nat := 128

  /** Decoded JSON; an object lists its keys and values in document order. */
  datatype Json =
    | Obj(keys: seq<string>, values: seq<Json>)
    | Arr(items: seq<Json>)
    | Str(text: string)
    | Scalar

  datatype FieldClass = Credential | Locator | RawArgument | RawError | RawOutput | EmbeddedResource | RawScalar

  const KNOWN_BLOCKS: set<string> := {"audio", "call_tool_result", "image", "resource", "resource_link", "text", "tool_result"}

  /** Objects pair every key with a value; keys are unique because the decoder rejects duplicates. */
  predicate WellFormed(j: Json) {
    match j
    case Obj(keys, values) =>
      |keys| == |values| && (forall a, b :: 0 <= a < b < |keys| ==> keys[a] != keys[b]) && AllWellFormed(values)
    case Arr(items) => AllWellFormed(items)
    case _ => true
  }

  predicate AllWellFormed(js: seq<Json>) {
    forall j :: j in js ==> WellFormed(j)
  }

  function Children(j: Json): seq<Json> {
    match j
    case Obj(_, values) => values
    case Arr(items) => items
    case _ => []
  }

  /** Every node of the tree, as often as it occurs. */
  function Nodes(j: Json): multiset<Json>
    decreases j, 1
  {
    multiset{j} + match j
      case Obj(_, values) => NodesOf(values)
      case Arr(items) => NodesOf(items)
      case _ => multiset{}
  }

  function NodesOf(js: seq<Json>): multiset<Json>
    decreases js, 0
  {
    if js == [] then multiset{} else Nodes(js[0]) + NodesOf(js[1..])
  }

  /** No node is deeper than the limit and no key longer than its limit. */
  predicate ShapeFits(j: Json, depth: nat, maxDepth: nat) {
    depth <= maxDepth && match j
      case Obj(keys, values) =>
        (forall k :: k in keys ==> |k| <= MAX_KEY) && forall v :: v in values ==> ShapeFits(v, depth + 1, maxDepth)
      case Arr(items) => forall v :: v in items ==> ShapeFits(v, depth + 1, maxDepth)
      case _ => true
  }

  datatype Item = Item(value: Json, depth: nat)

  datatype Counts = Counts(visited: nat, objects: nat, arrays: nat, scalars: nat,
                           blocks: nat, embedded: nat, unknown: nat, truncated: nat)

  const NO_COUNTS := Counts(0, 0, 0, 0, 0, 0, 0, 0)

  function Min(a: nat, b: nat): nat {
    if a < b then a else b
  }

  /** The saturating truncation counter. */
  function Truncate(c: Counts, n: nat): Counts {
    c.(truncated := Min(MAX_NODES, c.truncated + n))
  }

  predicate OddKey(k: string) {
    k == "" || |k| > MAX_KEY
  }

  function OddKeys(keys: seq<string>): nat {
    if keys == [] then 0
    else OddKeys(keys[..|keys| - 1]) + if OddKey(keys[|keys| - 1]) then 1 else 0
  }

  /** The text under the "type" key, if that is a string. */
  function TypeOf(keys: seq<string>, values: seq<Json>): Option<string>
    requires |keys| == |values|
  {
    if keys == [] then None
    else if keys[0] == "type" then (if values[0].Str? then Some(values[0].text) else None)
    else TypeOf(keys[1..], values[1..])
  }

  function BlockType(j: Json): Option<string> {
    if j.Obj? && |j.keys| == |j.values| then TypeOf(j.keys, j.values) else None
  }

  /** What a node by itself can add to the count of unknown content. */
  function OwnOddities(j: Json): nat {
    if !j.Obj? then 0
    else OddKeys(j.keys) + if BlockType(j).Some? && BlockType(j).value !in KNOWN_BLOCKS then 1 else 0
  }

  function Oddities(j: Json): nat
    decreases j, 1
  {
    OwnOddities(j) + match j
      case Obj(_, values) => OdditiesOf(values)
      case Arr(items) => OdditiesOf(items)
      case _ => 0
  }

  function OdditiesOf(js: seq<Json>): nat
    decreases js, 0
  {
    if js == [] then 0 else Oddities(js[0]) + OdditiesOf(js[1..])
  }

  function Values(queue: seq<Item>): seq<Json> {
    seq(|queue|, i requires 0 <= i < |queue| => queue[i].value)
  }

  // ------------------------------------------------------------ accounting

  lemma {:induction false} Concat(a: seq<Json>, b: seq<Json>)
    ensures NodesOf(a + b) == NodesOf(a) + NodesOf(b)
    ensures OdditiesOf(a + b) == OdditiesOf(a) + OdditiesOf(b)
  {
    if a == [] {
      assert a + b == b;
    } else {
      assert (a + b)[1..] == a[1..] + b;
      Concat(a[1..], b);
    }
  }

  lemma Single(j: Json)
    ensures NodesOf([j]) == Nodes(j) == multiset{j} + NodesOf(Children(j))
    ensures OdditiesOf([j]) == Oddities(j) == OwnOddities(j) + OdditiesOf(Children(j))
  {
    assert [j][1..] == [];
  }

  lemma {:induction false} NodesOutnumber(js: seq<Json>)
    ensures |NodesOf(js)| >= |js|
  {
    if js != [] {
      NodesOutnumber(js[1..]);
      Single(js[0]);
    }
  }

  /** Appending an entry to the queue and one more child to the prefix already processed. */
  lemma Enqueue(queue: seq<Item>, x: Item)
    ensures Values(queue + [x]) == Values(queue) + [x.value]
    ensures NodesOf(Values(queue + [x])) == NodesOf(Values(queue)) + Nodes(x.value)
    ensures OdditiesOf(Values(queue + [x])) == OdditiesOf(Values(queue)) + Oddities(x.value)
  {
    assert Values(queue + [x]) == Values(queue) + [x.value];
    Concat(Values(queue), [x.value]);
    Single(x.value);
  }

  lemma TakeOne(js: seq<Json>, i: nat)
    requires i < |js|
    ensures NodesOf(js[..i + 1]) == NodesOf(js[..i]) + Nodes(js[i])
    ensures OdditiesOf(js[..i + 1]) == OdditiesOf(js[..i]) + Oddities(js[i])
  {
    assert js[..i + 1] == js[..i] + [js[i]];
    Concat(js[..i], [js[i]]);
    Single(js[i]);
  }

  lemma Split(js: seq<Json>, i: nat)
    requires i <= |js|
    ensures NodesOf(js) == NodesOf(js[..i]) + NodesOf(js[i..])
    ensures OdditiesOf(js) == OdditiesOf(js[..i]) + OdditiesOf(js[i..])
  {
    assert js == js[..i] + js[i..];
    Concat(js[..i], js[i..]);
  }

  lemma Dequeue(queue: seq<Item>)
    requires queue != []
    ensures NodesOf(Values(queue)) == multiset{queue[0].value} + NodesOf(Children(queue[0].value)) + NodesOf(Values(queue[1..]))
    ensures OdditiesOf(Values(queue)) == OwnOddities(queue[0].value) + OdditiesOf(Children(queue[0].value)) + OdditiesOf(Values(queue[1..]))
  {
    assert Values(queue) == [queue[0].value] + Values(queue[1..]);
    Concat([queue[0].value], Values(queue[1..]));
    Single(queue[0].value);
  }

  /** The children as queue entries. */
  function Entries(js: seq<Json>, depth: nat): seq<Item> {
    seq(|js|, i requires 0 <= i < |js| => Item(js[i], depth))
  }

  // --------------------------------------------------------------- children

  /** Every child is either among the added queue entries or lost; none is lost if all are added in order. */
  ghost predicate Accounts(children: seq<Json>, depth: nat, added: seq<Item>, lost: seq<Json>) {
    && NodesOf(Values(added)) + NodesOf(lost) == NodesOf(children)
    && OdditiesOf(Values(added)) <= OdditiesOf(children)
    && (lost == [] ==> OdditiesOf(Values(added)) == OdditiesOf(children))
    && (lost == [] ==> added == Entries(children, depth))
    && (forall it :: it in added ==> it.value in children && it.depth == depth)
  }

  lemma StartQueueing(keys: seq<string>, children: seq<Json>, depth: nat)
    ensures Accounts(children[..0], depth, [], []) && OddKeys(keys[..0]) == 0
  {
  }

  lemma QueueOne(children: seq<Json>, i: nat, depth: nat, added: seq<Item>, lost: seq<Json>)
    requires i < |children| && Accounts(children[..i], depth, added, lost)
    ensures Accounts(children[..i + 1], depth, added + [Item(children[i], depth)], lost)
  {
    hide NodesOf, OdditiesOf, Values, Entries, Nodes, Oddities;
    TakeOne(children, i);
    Enqueue(added, Item(children[i], depth));
    EntriesTake(children, i, depth);
    assert children[..i + 1] == children[..i] + [children[i]];
  }

  lemma EntriesTake(children: seq<Json>, i: nat, depth: nat)
    requires i < |children|
    ensures Entries(children[..i + 1], depth) == Entries(children[..i], depth) + [Item(children[i], depth)]
  {
  }

  lemma LoseRest(children: seq<Json>, i: nat, k: nat, depth: nat, added: seq<Item>, lost: seq<Json>)
    requires i < k <= |children| && Accounts(children[..i], depth, added, lost)
    ensures Accounts(children[..k], depth, added, lost + children[i..k])
  {
    assert children[..k][..i] == children[..i] && children[..k][i..] == children[i..k];
    Split(children[..k], i);
    Concat(lost, children[i..k]);
    forall it | it in added ensures it.value in children[..k] {
      assert it.value in children[..k][..i];
    }
  }

  /** Some key among the first n, not oversized, has this class. */
  ghost predicate HasClass(keys: seq<string>, n: nat, classify: string -> set<FieldClass>, f: FieldClass)
    requires n <= |keys|
  {
    exists i :: 0 <= i < n && |keys[i]| <= 128 && f in classify(keys[i])
  }

  lemma NoClasses(keys: seq<string>, classify: string -> set<FieldClass>)
    ensures forall f :: !HasClass(keys, 0, classify, f)
  {
  }

  lemma OneMoreKey(keys: seq<string>, i: nat, classify: string -> set<FieldClass>, dropped: set<FieldClass>)
    requires i < |keys| && forall f :: f in dropped <==> HasClass(keys, i, classify, f)
    ensures forall f :: HasClass(keys, i + 1, classify, f) <==> f in dropped || (|keys[i]| <= 128 && f in classify(keys[i]))
  {
    forall f ensures HasClass(keys, i + 1, classify, f) <==> f in dropped || (|keys[i]| <= 128 && f in classify(keys[i])) {
      if HasClass(keys, i, classify, f) {
        var k :| 0 <= k < i && |keys[k]| <= 128 && f in classify(keys[k]);
        assert k < i + 1;
      }
    }
  }

  /** The values, among the first n members, whose keys are not oversized. */
  function KeptFields(keys: seq<string>, values: seq<Json>, n: nat): (kept: seq<Json>)
    requires n <= |keys| == |values|
    ensures |kept| <= n
  {
    if n == 0 then []
    else KeptFields(keys, values, n - 1) + if |keys[n - 1]| <= MAX_KEY then [values[n - 1]] else []
  }

  /** Queues the fields of an object until the node budget is used up, skipping oversized keys. */
  method QueueFields(j: Json, depth: nat, c: Counts, queue: seq<Item>, available: nat, classify: string -> set<FieldClass>)
    returns (c': Counts, queue': seq<Item>, dropped: set<FieldClass>, ghost added: seq<Item>, ghost lost: seq<Json>)
    requires j.Obj? && |j.keys| == |j.values| && c.truncated <= MAX_NODES
    requires forall k: string :: RawScalar !in classify(k)
    ensures Accounts(j.values, depth, added, lost) && queue' == queue + added && |added| <= available
    ensures added == Entries(KeptFields(j.keys, j.values, Min(available, |j.keys|)), depth)
    ensures lost == [] <==> |j.values| <= available && forall k :: k in j.keys ==> |k| <= MAX_KEY
    ensures c' == c.(truncated := Min(MAX_NODES, c.truncated + |lost|), unknown := c.unknown + OddKeys(j.keys[..Min(available, |j.keys|)]))
    ensures RawScalar !in dropped
    ensures forall f :: f in dropped <==> HasClass(j.keys, Min(available, |j.keys|), classify, f)
  {
    hide Accounts, OddKeys, Entries, KeptFields, HasClass;
    NoClasses(j.keys, classify);
    c', queue', dropped, added, lost := c, queue, {}, [], [];
    var n := |j.values|;
    StartQueueing(j.keys, j.values, depth);
    KeptNone(j.keys, j.values, depth);
    for index := 0 to n
      invariant Accounts(j.values[..index], depth, added, lost) && queue' == queue + added && |added| <= index <= available
      invariant added == Entries(KeptFields(j.keys, j.values, index), depth)
      invariant lost == [] <==> forall k :: 0 <= k < index ==> |j.keys[k]| <= MAX_KEY
      invariant c' == c.(truncated := Min(MAX_NODES, c.truncated + |lost|), unknown := c.unknown + OddKeys(j.keys[..index]))
      invariant RawScalar !in dropped && forall f :: f in dropped <==> HasClass(j.keys, index, classify, f)
    {
      var key, child := j.keys[index], j.values[index];
      if index >= available {
        LoseRest(j.values, index, n, depth, added, lost);
        lost := lost + j.values[index..n];
        c' := Truncate(c', n - index);
        assert j.values[..n] == j.values;
        return;
      }
      OddKeysTake(j.keys, index);
      KeptOneMore(j.keys, j.values, index, depth);
      OneMoreKey(j.keys, index, classify, dropped);
      if |key| > MAX_KEY {
        LoseRest(j.values, index, index + 1, depth, added, lost);
        c' := Truncate(c'.(unknown := c'.unknown + 1), 1);
        lost := lost + j.values[index..index + 1];
        continue;
      }
      if key == "" {
        c' := c'.(unknown := c'.unknown + 1);
      }
      dropped := dropped + classify(key);
      QueueOne(j.values, index, depth, added, lost);
      queue' := queue' + [Item(child, depth)];
      added := added + [Item(child, depth)];
    }
    assert j.values[..n] == j.values && j.keys[..n] == j.keys;
    assert forall k :: k in j.keys <==> exists i :: 0 <= i < n && j.keys[i] == k;
  }

  lemma KeptNone(keys: seq<string>, values: seq<Json>, depth: nat)
    requires |keys| == |values|
    ensures Entries(KeptFields(keys, values, 0), depth) == []
  {
  }

  lemma KeptOneMore(keys: seq<string>, values: seq<Json>, i: nat, depth: nat)
    requires i < |keys| == |values|
    ensures Entries(KeptFields(keys, values, i + 1), depth) ==
            Entries(KeptFields(keys, values, i), depth) + if |keys[i]| <= MAX_KEY then [Item(values[i], depth)] else []
  {
  }

  /** Queues as many array items as the node budget allows. */
  method QueueItems(j: Json, depth: nat, c: Counts, queue: seq<Item>, available: nat)
    returns (c': Counts, queue': seq<Item>, ghost added: seq<Item>, ghost lost: seq<Json>)
    requires j.Arr? && c.truncated <= MAX_NODES
    ensures Accounts(j.items, depth, added, lost) && queue' == queue + added && |added| <= available
    ensures added == Entries(j.items[..Min(available, |j.items|)], depth)
    ensures lost == [] <==> |j.items| <= available
    ensures c' == c.(truncated := Min(MAX_NODES, c.truncated + |lost|))
  {
    hide Accounts, Entries;
    var accepted := if |j.items| < available then |j.items| else available;
    PrefixAccounts(j.items, accepted, depth);
    added, lost := Entries(j.items[..accepted], depth), j.items[accepted..];
    queue' := queue + Entries(j.items[..accepted], depth);
    c' := Truncate(c, |j.items| - accepted);
  }

  lemma PrefixAccounts(items: seq<Json>, n: nat, depth: nat)
    requires n <= |items|
    ensures Accounts(items, depth, Entries(items[..n], depth), items[n..])
    ensures |Entries(items[..n], depth)| == n
  {
    Split(items, n);
    EntriesHold(items[..n], depth);
    assert n == |items| ==> items[..n] == items && items[n..] == [];
    assert OdditiesOf([]) == 0;
  }

  lemma NoEntries(depth: nat)
    ensures Entries([], depth) == []
  {
  }

  lemma EntriesHold(js: seq<Json>, depth: nat)
    ensures Values(Entries(js, depth)) == js
    ensures forall it :: it in Entries(js, depth) ==> it.value in js && it.depth == depth
  {
  }

  lemma OddKeysTake(keys: seq<string>, i: nat)
    requires i < |keys|
    ensures OddKeys(keys[..i + 1]) == OddKeys(keys[..i]) + if OddKey(keys[i]) then 1 else 0
  {
    assert keys[..i + 1][..i] == keys[..i];
  }

  lemma {:induction false} OddKeysGrow(keys: seq<string>, i: nat)
    requires i <= |keys|
    ensures OddKeys(keys[..i]) <= OddKeys(keys)
  {
    if i < |keys| {
      var n := |keys| - 1;
      assert keys[..n][..i] == keys[..i];
      OddKeysGrow(keys[..n], i);
    } else {
      assert keys[..i] == keys;
    }
  }

  // ---------------------------------------------------------------- one node

  ghost predicate KindsAgree(c: Counts, dropped: set<FieldClass>) {
    && c.objects + c.arrays + c.scalars == c.visited
    && c.blocks <= c.objects && c.embedded <= c.blocks
    && (RawScalar in dropped <==> c.scalars > 0)
    && (c.embedded > 0 ==> EmbeddedResource in dropped)
    && c.truncated <= MAX_NODES
  }

  function Budget(maxNodes: nat, visited: nat, pending: nat): nat {
    if visited + pending < maxNodes then maxNodes - visited - pending else 0
  }

  /** Nothing below the node is cut off: its keys are short and its children fit the budget. */
  ghost predicate KeepsChildren(j: Json, available: nat) {
    |Children(j)| <= available && (j.Obj? ==> forall k :: k in j.keys ==> |k| <= MAX_KEY)
  }

  /** The counts an object adds for its declared block type. */
  function CountBlock(j: Json, c: Counts): Counts
    requires j.Obj? && |j.keys| == |j.values|
  {
    match BlockType(j)
    case None => c
    case Some(t) =>
      c.(blocks := c.blocks + 1,
         unknown := c.unknown + if t in KNOWN_BLOCKS then 0 else 1,
         embedded := c.embedded + if t == "resource" || t == "resource_link" then 1 else 0)
  }

  /** The children that are queued when there is room for this many nodes. */
  function Kept(j: Json, room: nat): (kept: seq<Json>)
    ensures |kept| <= room
  {
    match j
    case Obj(keys, values) => if |keys| == |values| then KeptFields(keys, values, Min(room, |keys|)) else []
    case Arr(items) => items[..Min(room, |items|)]
    case _ => []
  }

  /** What a node adds to the count of unknown content when there is room for this many nodes. */
  function OddAt(j: Json, room: nat): nat {
    if !j.Obj? then 0
    else OddKeys(j.keys[..Min(room, |j.keys|)]) + if BlockType(j).Some? && BlockType(j).value !in KNOWN_BLOCKS then 1 else 0
  }

  lemma OddAtMost(j: Json, room: nat)
    ensures OddAt(j, room) <= OwnOddities(j)
    ensures |Children(j)| <= room && WellFormed(j) ==> OddAt(j, room) == OwnOddities(j)
  {
    if j.Obj? {
      OddKeysGrow(j.keys, Min(room, |j.keys|));
      assert j.keys[..|j.keys|] == j.keys;
    }
  }

  /** An object that declares this block type. */
  ghost predicate Declares(j: Json, t: string) {
    j.Obj? && |j.keys| == |j.values| && exists i :: 0 <= i < |j.keys| && j.keys[i] == "type" && j.values[i] == Str(t)
  }

  lemma {:induction false} TypeOfMeans(keys: seq<string>, values: seq<Json>, t: string)
    requires |keys| == |values| && forall a, b :: 0 <= a < b < |keys| ==> keys[a] != keys[b]
    ensures TypeOf(keys, values) == Some(t) <==> exists i :: 0 <= i < |keys| && keys[i] == "type" && values[i] == Str(t)
  {
    if keys != [] {
      TypeOfMeans(keys[1..], values[1..], t);
      if i :| 0 <= i < |keys| && keys[i] == "type" && values[i] == Str(t) {
        if i > 0 { assert keys[1..][i - 1] == "type" && values[1..][i - 1] == Str(t); }
      }
      if i :| 0 <= i < |keys[1..]| && keys[1..][i] == "type" && values[1..][i] == Str(t) {
        assert keys[i + 1] == "type" && values[i + 1] == Str(t);
      }
    }
  }

  lemma BlockTypeMeans(j: Json)
    requires WellFormed(j)
    ensures forall t :: BlockType(j) == Some(t) <==> Declares(j, t)
  {
    if j.Obj? {
      forall t ensures BlockType(j) == Some(t) <==> Declares(j, t) { TypeOfMeans(j.keys, j.values, t); }
    }
  }

  ghost predicate IsBlock(j: Json) {
    exists t :: Declares(j, t)
  }

  ghost predicate IsEmbedded(j: Json) {
    Declares(j, "resource") || Declares(j, "resource_link")
  }

  ghost predicate IsUnknownBlock(j: Json) {
    IsBlock(j) && !Declares(j, "audio") && !Declares(j, "call_tool_result") && !Declares(j, "image") && !IsEmbedded(j)
    && !Declares(j, "text") && !Declares(j, "tool_result")
  }

  /** The classes a visited node contributes, when there is room for this many nodes. */
  ghost predicate Contributes(j: Json, room: nat, classify: string -> set<FieldClass>, f: FieldClass) {
    || (j.Obj? && HasClass(j.keys, Min(room, |j.keys|), classify, f))
    || (!j.Obj? && !j.Arr? && f == RawScalar)
    || (IsEmbedded(j) && f == EmbeddedResource)
  }

  /** Counts one node and queues its children. */
  method Visit(j: Json, depth: nat, c: Counts, dropped: set<FieldClass>, rest: seq<Item>, maxNodes: nat, classify: string -> set<FieldClass>)
    returns (c': Counts, queue': seq<Item>, dropped': set<FieldClass>, ghost added: seq<Item>, ghost lost: seq<Json>)
    requires WellFormed(j) && KindsAgree(c, dropped)
    requires forall k: string :: RawScalar !in classify(k)
    ensures KindsAgree(c', dropped') && c'.visited == c.visited + 1
    ensures c'.objects == c.objects + (if j.Obj? then 1 else 0) && c'.arrays == c.arrays + if j.Arr? then 1 else 0
    ensures Accounts(Children(j), depth + 1, added, lost) && queue' == rest + added
    ensures |added| <= Budget(maxNodes, c'.visited, |rest|)
    ensures lost == [] <==> KeepsChildren(j, Budget(maxNodes, c'.visited, |rest|))
    ensures added == Entries(Kept(j, Budget(maxNodes, c'.visited, |rest|)), depth + 1)
    ensures c'.truncated == Min(MAX_NODES, c.truncated + |lost|)
    ensures c'.unknown == c.unknown + OddAt(j, Budget(maxNodes, c'.visited, |rest|))
    ensures c'.scalars == c.scalars + (if !j.Obj? && !j.Arr? then 1 else 0)
    ensures c'.blocks == c.blocks + (if IsBlock(j) then 1 else 0) && c'.embedded == c.embedded + (if IsEmbedded(j) then 1 else 0)
    ensures forall f :: f in dropped' <==> f in dropped || Contributes(j, Budget(maxNodes, c'.visited, |rest|), classify, f)
  {
    hide Accounts, Entries, OddKeys, KeptFields, HasClass, Declares;
    BlockTypeMeans(j);
    c', queue', dropped', added, lost := c.(visited := c.visited + 1), rest, dropped, [], [];
    match j {
      case Obj(keys, values) =>
        c' := CountBlock(j, c'.(objects := c'.objects + 1));
        if BlockType(j) in {Some("resource"), Some("resource_link")} {
          dropped' := dropped' + {EmbeddedResource};
        }
        var classes;
        c', queue', classes, added, lost := QueueFields(j, depth + 1, c', rest, Budget(maxNodes, c'.visited, |rest|), classify);
        dropped' := dropped' + classes;
      case Arr(items) =>
        c' := c'.(arrays := c'.arrays + 1);
        c', queue', added, lost := QueueItems(j, depth + 1, c', rest, Budget(maxNodes, c'.visited, |rest|));
      case _ =>
        c' := c'.(scalars := c'.scalars + 1);
        dropped' := dropped' + {RawScalar};
        StartQueueing([], [], depth + 1);
        NoEntries(depth + 1);
        assert Children(j)[..0] == Children(j);
    }
  }

  // ------------------------------------------------------------- whole walk

  /** Visited, pending and lost nodes together are exactly the nodes of the payload. */
  ghost predicate Conserves(root: Json, trail: seq<Json>, queue: seq<Item>, lost: seq<Json>) {
    multiset(trail) + NodesOf(Values(queue)) + NodesOf(lost) == Nodes(root)
  }

  ghost predicate ItemFits(it: Item, maxDepth: nat) {
    ShapeFits(it.value, it.depth, maxDepth)
  }

  ghost predicate AllFit(items: seq<Item>, maxDepth: nat) {
    forall it :: it in items ==> ItemFits(it, maxDepth)
  }

  /** The payload fits all three bounds. */
  ghost predicate PayloadFits(root: Json, maxNodes: nat, maxDepth: nat) {
    |Nodes(root)| <= maxNodes && ShapeFits(root, 0, maxDepth)
  }

  /** While nothing is lost the pending nodes decide whether the shape fits; a fitting payload loses nothing. */
  ghost predicate Predicts(root: Json, queue: seq<Item>, lost: seq<Json>, maxNodes: nat, maxDepth: nat) {
    && (lost == [] ==> (ShapeFits(root, 0, maxDepth) <==> AllFit(queue, maxDepth)))
    && (PayloadFits(root, maxNodes, maxDepth) ==> lost == [])
  }

  lemma ConservesLength(root: Json, trail: seq<Json>, queue: seq<Item>, lost: seq<Json>)
    requires Conserves(root, trail, queue, lost)
    ensures |trail| + |NodesOf(Values(queue))| + |NodesOf(lost)| == |Nodes(root)|
  {
    assert |multiset(trail)| == |trail|;
  }

  lemma VisitConserves(root: Json, trail: seq<Json>, queue: seq<Item>, lost: seq<Json>, added: seq<Item>, cut: seq<Json>)
    requires queue != [] && Conserves(root, trail, queue, lost)
    requires Accounts(Children(queue[0].value), queue[0].depth + 1, added, cut)
    ensures Conserves(root, trail + [queue[0].value], queue[1..] + added, lost + cut)
    ensures OdditiesOf(Values(queue[1..] + added)) + OwnOddities(queue[0].value) <= OdditiesOf(Values(queue))
    ensures cut == [] ==> OdditiesOf(Values(queue[1..] + added)) + OwnOddities(queue[0].value) == OdditiesOf(Values(queue))
    ensures |NodesOf(Values(queue[1..] + added))| < |NodesOf(Values(queue))|
  {
    hide NodesOf, OdditiesOf, Entries, Nodes, Oddities;
    Dequeue(queue);
    ValuesOfConcat(queue[1..], added);
    hide Values;
    Concat(Values(queue[1..]), Values(added));
    Concat(lost, cut);
    assert multiset(trail + [queue[0].value]) == multiset(trail) + multiset{queue[0].value};
  }

  lemma ValuesOfConcat(a: seq<Item>, b: seq<Item>)
    ensures Values(a + b) == Values(a) + Values(b)
  {
  }

  lemma SkipConserves(root: Json, trail: seq<Json>, queue: seq<Item>, lost: seq<Json>)
    requires queue != [] && Conserves(root, trail, queue, lost)
    ensures Conserves(root, trail, queue[1..], lost + [queue[0].value])
    ensures OdditiesOf(Values(queue[1..])) <= OdditiesOf(Values(queue))
    ensures |NodesOf(Values(queue[1..]))| < |NodesOf(Values(queue))|
  {
    Dequeue(queue);
    Single(queue[0].value);
    Concat(lost, [queue[0].value]);
  }

  /** A node within depth fits exactly when its keys are short and its children fit one level down. */
  lemma FitsByChildren(j: Json, depth: nat, maxDepth: nat)
    requires depth <= maxDepth
    ensures ShapeFits(j, depth, maxDepth) <==>
            (j.Obj? ==> forall k :: k in j.keys ==> |k| <= MAX_KEY) && AllFit(Entries(Children(j), depth + 1), maxDepth)
  {
    var es := Entries(Children(j), depth + 1);
    if ShapeFits(j, depth, maxDepth) {
      forall it | it in es ensures ItemFits(it, maxDepth) {
        assert it.value in Children(j) && it.depth == depth + 1;
      }
    }
    if AllFit(es, maxDepth) {
      forall v | v in Children(j) ensures ShapeFits(v, depth + 1, maxDepth) {
        var i :| 0 <= i < |Children(j)| && Children(j)[i] == v;
        assert es[i] in es && ItemFits(es[i], maxDepth);
      }
    }
  }

  lemma FitsByHead(queue: seq<Item>, added: seq<Item>, maxDepth: nat)
    requires queue != []
    ensures AllFit(queue, maxDepth) <==> ItemFits(queue[0], maxDepth) && AllFit(queue[1..], maxDepth)
    ensures AllFit(queue[1..] + added, maxDepth) <==> AllFit(queue[1..], maxDepth) && AllFit(added, maxDepth)
  {
    assert queue == [queue[0]] + queue[1..];
  }

  lemma VisitPredicts(root: Json, trail: seq<Json>, queue: seq<Item>, lost: seq<Json>, added: seq<Item>, cut: seq<Json>, maxNodes: nat, maxDepth: nat)
    requires queue != [] && Conserves(root, trail, queue, lost) && Predicts(root, queue, lost, maxNodes, maxDepth)
    requires queue[0].depth <= maxDepth
    requires Accounts(Children(queue[0].value), queue[0].depth + 1, added, cut)
    requires cut == [] <==> KeepsChildren(queue[0].value, Budget(maxNodes, |trail| + 1, |queue| - 1))
    ensures Predicts(root, queue[1..] + added, lost + cut, maxNodes, maxDepth)
  {
    hide ShapeFits, NodesOf, Nodes, Entries;
    var j, depth := queue[0].value, queue[0].depth;
    FitsByChildren(j, depth, maxDepth);
    FitsByHead(queue, added, maxDepth);
    if PayloadFits(root, maxNodes, maxDepth) {
      BudgetSuffices(root, trail, queue, lost, maxNodes);
      assert cut == [];
    }
  }

  /** As long as the payload has few enough nodes, the budget covers the children of the next node. */
  lemma BudgetSuffices(root: Json, trail: seq<Json>, queue: seq<Item>, lost: seq<Json>, maxNodes: nat)
    requires queue != [] && Conserves(root, trail, queue, lost) && |Nodes(root)| <= maxNodes
    ensures |Children(queue[0].value)| <= Budget(maxNodes, |trail| + 1, |queue| - 1)
  {
    hide NodesOf, Nodes;
    ConservesLength(root, trail, queue, lost);
    Dequeue(queue);
    NodesOutnumber(Children(queue[0].value));
    NodesOutnumber(Values(queue[1..]));
  }

  lemma SkipPredicts(root: Json, queue: seq<Item>, lost: seq<Json>, maxNodes: nat, maxDepth: nat)
    requires queue != [] && Predicts(root, queue, lost, maxNodes, maxDepth) && queue[0].depth > maxDepth
    ensures Predicts(root, queue[1..], lost + [queue[0].value], maxNodes, maxDepth)
  {
    FitsByHead(queue, [], maxDepth);
  }

  // ------------------------------------------------- the walk, described

  /** A visited node, and for how many more nodes there was room when it was. */
  datatype Visited = Visited(node: Json, room: nat)

  /**
   * The nodes visited from a queue in depth order: the walk is over at the first entry
   * below the depth limit, because every later entry is at least as deep.
   */
  function Visits(queue: seq<Item>, room: nat, maxDepth: nat): seq<Visited>
    decreases |NodesOf(Values(queue))|
  {
    if queue == [] || queue[0].depth > maxDepth then []
    else
      KeptShrinks(queue, room);
      var kept := Kept(queue[0].value, room);
      [Visited(queue[0].value, room)] + Visits(queue[1..] + Entries(kept, queue[0].depth + 1), room - |kept|, maxDepth)
  }

  function UnknownIn(visits: seq<Visited>): nat {
    if visits == [] then 0 else UnknownIn(visits[..|visits| - 1]) + OddAt(visits[|visits| - 1].node, visits[|visits| - 1].room)
  }

  function VisitsOf(root: Json, maxNodes: nat, maxDepth: nat): seq<Visited>
    requires 1 <= maxNodes
  {
    Visits([Item(root, 0)], maxNodes - 1, maxDepth)
  }

  /** The count of unknown content of a payload. */
  function UnknownCount(root: Json, maxNodes: nat, maxDepth: nat): nat
    requires 1 <= maxNodes
  {
    UnknownIn(VisitsOf(root, maxNodes, maxDepth))
  }

  lemma {:induction false} KeptFieldsNodes(keys: seq<string>, values: seq<Json>, n: nat)
    requires n <= |keys| == |values|
    ensures |NodesOf(KeptFields(keys, values, n))| <= |NodesOf(values[..n])|
  {
    hide Nodes, NodesOf;
    if n == 0 {
      assert values[..0] == [];
    } else {
      KeptFieldsNodes(keys, values, n - 1);
      TakeOne(values, n - 1);
      var before := KeptFields(keys, values, n - 1);
      Concat(before, [values[n - 1]]);
      Single(values[n - 1]);
      assert KeptFields(keys, values, n) == if |keys[n - 1]| <= MAX_KEY then before + [values[n - 1]] else before;
    }
  }

  lemma KeptNodes(j: Json, room: nat)
    ensures |NodesOf(Kept(j, room))| <= |NodesOf(Children(j))|
  {
    match j
    case Obj(keys, values) =>
      if |keys| == |values| {
        KeptFieldsNodes(keys, values, Min(room, |keys|));
        Split(values, Min(room, |keys|));
      }
    case Arr(items) => Split(items, Min(room, |items|));
    case _ =>
  }

  lemma KeptShrinks(queue: seq<Item>, room: nat)
    requires queue != []
    ensures |NodesOf(Values(queue[1..] + Entries(Kept(queue[0].value, room), queue[0].depth + 1)))| < |NodesOf(Values(queue))|
  {
    hide NodesOf, Nodes, Kept;
    var j, depth := queue[0].value, queue[0].depth;
    Dequeue(queue);
    KeptNodes(j, room);
    EntriesHold(Kept(j, room), depth + 1);
    ValuesOfConcat(queue[1..], Entries(Kept(j, room), depth + 1));
    Concat(Values(queue[1..]), Kept(j, room));
  }

  ghost predicate InDepthOrder(queue: seq<Item>) {
    && (forall i, j :: 0 <= i < j < |queue| ==> queue[i].depth <= queue[j].depth)
    && (forall i :: 0 <= i < |queue| ==> queue[i].depth <= queue[0].depth + 1)
  }

  /** What has been visited and what the queue still leads to are together the visits of the payload. */
  ghost predicate Follows(root: Json, maxNodes: nat, maxDepth: nat, queue: seq<Item>, c: Counts, seen: seq<Visited>) {
    && 1 <= maxNodes && c.visited + |queue| <= maxNodes && InDepthOrder(queue)
    && c.visited == |seen| && c.unknown == UnknownIn(seen)
    && seen + Visits(queue, maxNodes - c.visited - |queue|, maxDepth) == VisitsOf(root, maxNodes, maxDepth)
  }

  lemma StartFollows(root: Json, maxNodes: nat, maxDepth: nat)
    requires 1 <= maxNodes
    ensures Follows(root, maxNodes, maxDepth, [Item(root, 0)], NO_COUNTS, [])
  {
  }

  lemma OneMoreVisit(seen: seq<Visited>, v: Visited)
    ensures UnknownIn(seen + [v]) == UnknownIn(seen) + OddAt(v.node, v.room)
  {
    assert (seen + [v])[..|seen|] == seen;
  }

  lemma EntriesKeepOrder(queue: seq<Item>, js: seq<Json>)
    requires queue != [] && InDepthOrder(queue)
    ensures InDepthOrder(queue[1..] + Entries(js, queue[0].depth + 1))
  {
  }

  lemma FollowVisit(root: Json, maxNodes: nat, maxDepth: nat, queue: seq<Item>, c: Counts, seen: seq<Visited>, c': Counts, added: seq<Item>)
    requires queue != [] && Follows(root, maxNodes, maxDepth, queue, c, seen) && queue[0].depth <= maxDepth
    requires var room := Budget(maxNodes, c.visited + 1, |queue| - 1);
      && c'.visited == c.visited + 1 && c'.unknown == c.unknown + OddAt(queue[0].value, room)
      && added == Entries(Kept(queue[0].value, room), queue[0].depth + 1)
    ensures Follows(root, maxNodes, maxDepth, queue[1..] + added, c',
                    seen + [Visited(queue[0].value, Budget(maxNodes, c.visited + 1, |queue| - 1))])
  {
    hide InDepthOrder, OddAt, UnknownIn, Kept, VisitsOf;
    var room := Budget(maxNodes, c.visited + 1, |queue| - 1);
    var v := Visited(queue[0].value, room);
    OneMoreVisit(seen, v);
    EntriesKeepOrder(queue, Kept(queue[0].value, room));
    assert Visits(queue, room, maxDepth) == [v] + Visits(queue[1..] + added, room - |added|, maxDepth);
    assert seen + ([v] + Visits(queue[1..] + added, room - |added|, maxDepth)) == (seen + [v]) + Visits(queue[1..] + added, room - |added|, maxDepth);
  }

  /** Once an entry is too deep the walk visits nothing more. */
  lemma FollowSkip(root: Json, maxNodes: nat, maxDepth: nat, queue: seq<Item>, c: Counts, seen: seq<Visited>)
    requires queue != [] && Follows(root, maxNodes, maxDepth, queue, c, seen) && queue[0].depth > maxDepth
    ensures Follows(root, maxNodes, maxDepth, queue[1..], Truncate(c, 1), seen)
  {
    assert Visits(queue, maxNodes - c.visited - |queue|, maxDepth) == Visits(queue[1..], maxNodes - c.visited - |queue| + 1, maxDepth) == [];
  }

  lemma EndFollows(root: Json, maxNodes: nat, maxDepth: nat, c: Counts, seen: seq<Visited>)
    requires Follows(root, maxNodes, maxDepth, [], c, seen)
    ensures seen == VisitsOf(root, maxNodes, maxDepth) && c.visited == |seen| && c.unknown == UnknownCount(root, maxNodes, maxDepth)
  {
  }

  // ---------------------------------------------------- what is tallied

  ghost function Objects(seen: seq<Visited>): set<nat> {
    set i: nat | i < |seen| && seen[i].node.Obj?
  }

  ghost function Arrays(seen: seq<Visited>): set<nat> {
    set i: nat | i < |seen| && seen[i].node.Arr?
  }

  ghost function Leaves(seen: seq<Visited>): set<nat> {
    set i: nat | i < |seen| && !seen[i].node.Obj? && !seen[i].node.Arr?
  }

  ghost function Blocks(seen: seq<Visited>): set<nat> {
    set i: nat | i < |seen| && IsBlock(seen[i].node)
  }

  ghost function Embedded(seen: seq<Visited>): set<nat> {
    set i: nat | i < |seen| && IsEmbedded(seen[i].node)
  }

  /** Some visited node contributes this class. */
  ghost predicate Dropped(seen: seq<Visited>, classify: string -> set<FieldClass>, f: FieldClass) {
    exists i :: 0 <= i < |seen| && Contributes(seen[i].node, seen[i].room, classify, f)
  }

  /** The counters and the dropped classes are those of the visited nodes. */
  ghost predicate Tallies(seen: seq<Visited>, classify: string -> set<FieldClass>, c: Counts, dropped: set<FieldClass>) {
    && c.objects == |Objects(seen)| && c.arrays == |Arrays(seen)| && c.scalars == |Leaves(seen)|
    && c.blocks == |Blocks(seen)| && c.embedded == |Embedded(seen)|
    && forall f :: f in dropped <==> Dropped(seen, classify, f)
  }

  lemma StartTallies(classify: string -> set<FieldClass>)
    ensures Tallies([], classify, NO_COUNTS, {})
  {
    assert Objects([]) == Arrays([]) == Leaves([]) == Blocks([]) == Embedded([]) == {};
  }

  lemma OneMoreObject(seen: seq<Visited>, v: Visited)
    ensures |Objects(seen + [v])| == |Objects(seen)| + (if v.node.Obj? then 1 else 0)
  {
    assert Objects(seen + [v]) == if v.node.Obj? then Objects(seen) + {|seen|} else Objects(seen);
  }

  lemma OneMoreArray(seen: seq<Visited>, v: Visited)
    ensures |Arrays(seen + [v])| == |Arrays(seen)| + (if v.node.Arr? then 1 else 0)
  {
    assert Arrays(seen + [v]) == if v.node.Arr? then Arrays(seen) + {|seen|} else Arrays(seen);
  }

  lemma OneMoreLeaf(seen: seq<Visited>, v: Visited)
    ensures |Leaves(seen + [v])| == |Leaves(seen)| + (if !v.node.Obj? && !v.node.Arr? then 1 else 0)
  {
    assert Leaves(seen + [v]) == if !v.node.Obj? && !v.node.Arr? then Leaves(seen) + {|seen|} else Leaves(seen);
  }

  lemma OneMoreBlock(seen: seq<Visited>, v: Visited)
    ensures |Blocks(seen + [v])| == |Blocks(seen)| + (if IsBlock(v.node) then 1 else 0)
    ensures |Embedded(seen + [v])| == |Embedded(seen)| + (if IsEmbedded(v.node) then 1 else 0)
  {
    hide IsBlock, IsEmbedded;
    var more, n := seen + [v], |seen|;
    assert Blocks(more) == if IsBlock(v.node) then Blocks(seen) + {n} else Blocks(seen);
    assert Embedded(more) == if IsEmbedded(v.node) then Embedded(seen) + {n} else Embedded(seen);
  }

  lemma OneMoreDropped(seen: seq<Visited>, v: Visited, classify: string -> set<FieldClass>, f: FieldClass)
    ensures Dropped(seen + [v], classify, f) <==> Dropped(seen, classify, f) || Contributes(v.node, v.room, classify, f)
  {
    hide Contributes;
    var more := seen + [v];
    if i :| 0 <= i < |seen| && Contributes(seen[i].node, seen[i].room, classify, f) {
      assert more[i] == seen[i];
    }
    if Contributes(v.node, v.room, classify, f) { assert more[|seen|] == v; }
  }

  lemma TallyVisit(seen: seq<Visited>, v: Visited, classify: string -> set<FieldClass>,
                   c: Counts, dropped: set<FieldClass>, c': Counts, dropped': set<FieldClass>)
    requires Tallies(seen, classify, c, dropped)
    requires c'.objects == c.objects + (if v.node.Obj? then 1 else 0) && c'.arrays == c.arrays + (if v.node.Arr? then 1 else 0)
    requires c'.scalars == c.scalars + (if !v.node.Obj? && !v.node.Arr? then 1 else 0)
    requires c'.blocks == c.blocks + (if IsBlock(v.node) then 1 else 0) && c'.embedded == c.embedded + (if IsEmbedded(v.node) then 1 else 0)
    requires forall f :: f in dropped' <==> f in dropped || Contributes(v.node, v.room, classify, f)
    ensures Tallies(seen + [v], classify, c', dropped')
  {
    hide Objects, Arrays, Leaves, Blocks, Embedded, IsBlock, IsEmbedded, Dropped, Contributes;
    OneMoreObject(seen, v);
    OneMoreArray(seen, v);
    OneMoreLeaf(seen, v);
    OneMoreBlock(seen, v);
    forall f ensures Dropped(seen + [v], classify, f) <==> Dropped(seen, classify, f) || Contributes(v.node, v.room, classify, f) {
      OneMoreDropped(seen, v, classify, f);
    }
  }

  lemma TallySkip(seen: seq<Visited>, classify: string -> set<FieldClass>, c: Counts, dropped: set<FieldClass>)
    requires Tallies(seen, classify, c, dropped)
    ensures Tallies(seen, classify, Truncate(c, 1), dropped)
  {
  }

  /** What a visited node adds to the unknown content: odd keys among those there was room for, and an undeclared block type. */
  lemma OddAtMeans(j: Json, room: nat)
    requires WellFormed(j)
    ensures OddAt(j, room) == (if j.Obj? then |OddPlaces(j.keys, Min(room, |j.keys|))| else 0) + if IsUnknownBlock(j) then 1 else 0
  {
    BlockTypeMeans(j);
    if j.Obj? {
      OddKeysMean(j.keys, Min(room, |j.keys|));
      if BlockType(j).Some? {
        assert Declares(j, BlockType(j).value);
        assert forall t :: Declares(j, t) ==> t == BlockType(j).value;
      }
    }
  }

  ghost function OddPlaces(keys: seq<string>, n: nat): set<nat>
    requires n <= |keys|
  {
    set i: nat | i < n && (keys[i] == "" || |keys[i]| > 128)
  }

  lemma OneMoreOddPlace(keys: seq<string>, n: nat)
    requires n < |keys|
    ensures |OddPlaces(keys, n + 1)| == |OddPlaces(keys, n)| + if keys[n] == "" || |keys[n]| > 128 then 1 else 0
  {
    assert OddPlaces(keys, n + 1) == if keys[n] == "" || |keys[n]| > 128 then OddPlaces(keys, n) + {n} else OddPlaces(keys, n);
  }

  lemma NoOddKeys(keys: seq<string>)
    ensures OddKeys(keys[..0]) == 0 && OddPlaces(keys, 0) == {}
  {
  }

  lemma {:induction false} OddKeysMean(keys: seq<string>, n: nat)
    requires n <= |keys|
    ensures OddKeys(keys[..n]) == |OddPlaces(keys, n)|
  {
    hide OddKeys, OddPlaces;
    if n == 0 {
      NoOddKeys(keys);
    } else {
      OddKeysMean(keys, n - 1);
      OddKeysTake(keys, n - 1);
      OneMoreOddPlace(keys, n - 1);
    }
  }

  /** The breadth-first walk under a node budget and a depth limit. */
  method Walk(root: Json, maxNodes: nat, maxDepth: nat, classify: string -> set<FieldClass>)
    returns (c: Counts, dropped: set<FieldClass>, ghost trail: seq<Json>, ghost lost: seq<Json>, ghost seen: seq<Visited>)
    requires WellFormed(root) && 1 <= maxNodes
    requires forall k: string :: RawScalar !in classify(k)
    ensures c.visited == |trail| <= maxNodes && KindsAgree(c, dropped)
    ensures multiset(trail) + NodesOf(lost) == Nodes(root) && c.truncated == Min(MAX_NODES, |lost|)
    ensures c.truncated == 0 <==> multiset(trail) == Nodes(root)
    ensures c.truncated == 0 <==> PayloadFits(root, maxNodes, maxDepth)
    ensures seen == VisitsOf(root, maxNodes, maxDepth) && c.unknown == UnknownCount(root, maxNodes, maxDepth)
    ensures |trail| == |seen| && forall i :: 0 <= i < |seen| ==> trail[i] == seen[i].node
    ensures Tallies(seen, classify, c, dropped)
    ensures c.unknown <= Oddities(root)
    ensures c.truncated == 0 ==> c.unknown == Oddities(root)
    ensures (root.Obj? ==> c.objects > 0) && (root.Arr? ==> c.arrays > 0) && (!root.Obj? && !root.Arr? ==> c.scalars > 0)
  {
    hide *;
    c, dropped, trail, lost, seen := NO_COUNTS, {}, [], [], [];
    var queue := [Item(root, 0)];
    StartWalk(root, maxNodes, maxDepth);
    StartFollows(root, maxNodes, maxDepth);
    StartTallies(classify);
    while queue != []
      invariant WalkState(root, maxNodes, maxDepth, trail, queue, lost, c, dropped)
      invariant Follows(root, maxNodes, maxDepth, queue, c, seen) && Tallies(seen, classify, c, dropped)
      invariant |trail| == |seen| && forall i :: 0 <= i < |seen| ==> trail[i] == seen[i].node
      decreases |NodesOf(Values(queue))|
    {
      ghost var queue0, c0, dropped0 := queue, c, dropped;
      StateAtHead(root, maxNodes, maxDepth, trail, queue, lost, c, dropped);
      var Item(value, depth) := queue[0];
      queue := queue[1..];
      if c.visited >= maxNodes || depth > maxDepth {
        SkipStep(root, maxNodes, maxDepth, trail, queue0, lost, c, dropped);
        FollowSkip(root, maxNodes, maxDepth, queue0, c, seen);
        TallySkip(seen, classify, c, dropped);
        c := Truncate(c, 1);
        lost := lost + [value];
        continue;
      }
      ghost var added, cut;
      c, queue, dropped, added, cut := Visit(value, depth, c, dropped, queue, maxNodes, classify);
      VisitStep(root, maxNodes, maxDepth, trail, queue0, lost, c0, dropped0, added, cut, c, dropped);
      FollowVisit(root, maxNodes, maxDepth, queue0, c0, seen, c, added);
      TallyVisit(seen, Visited(value, Budget(maxNodes, c.visited, |queue0| - 1)), classify, c0, dropped0, c, dropped);
      trail, lost := trail + [value], lost + cut;
      seen := seen + [Visited(value, Budget(maxNodes, c.visited, |queue0| - 1))];
    }
    EndFollows(root, maxNodes, maxDepth, c, seen);
    EndWalk(root, maxNodes, maxDepth, trail, lost, c, dropped);
  }

  /** What every iteration of the walk keeps. */
  ghost predicate WalkState(root: Json, maxNodes: nat, maxDepth: nat, trail: seq<Json>, queue: seq<Item>, lost: seq<Json>,
                            c: Counts, dropped: set<FieldClass>) {
    && |trail| == c.visited && c.visited + |queue| <= maxNodes
    && KindsAgree(c, dropped) && RootCounted(root, trail, c)
    && c.truncated == Min(MAX_NODES, |lost|)
    && (forall it :: it in queue ==> WellFormed(it.value))
    && Conserves(root, trail, queue, lost) && Predicts(root, queue, lost, maxNodes, maxDepth)
    && c.unknown + OdditiesOf(Values(queue)) <= Oddities(root)
    && (lost == [] ==> c.unknown + OdditiesOf(Values(queue)) == Oddities(root))
    && (trail == [] ==> lost == [] && queue == [Item(root, 0)])
  }

  lemma StateAtHead(root: Json, maxNodes: nat, maxDepth: nat, trail: seq<Json>, queue: seq<Item>, lost: seq<Json>,
                    c: Counts, dropped: set<FieldClass>)
    requires queue != [] && WalkState(root, maxNodes, maxDepth, trail, queue, lost, c, dropped)
    ensures WellFormed(queue[0].value) && KindsAgree(c, dropped) && c.visited + |queue| <= maxNodes
  {
    hide *;
    assert queue[0] in queue;
    UnfoldState(root, maxNodes, maxDepth, trail, queue, lost, c, dropped);
  }

  lemma UnfoldState(root: Json, maxNodes: nat, maxDepth: nat, trail: seq<Json>, queue: seq<Item>, lost: seq<Json>,
                    c: Counts, dropped: set<FieldClass>)
    requires WalkState(root, maxNodes, maxDepth, trail, queue, lost, c, dropped)
    ensures |trail| == c.visited && c.visited + |queue| <= maxNodes
    ensures KindsAgree(c, dropped) && RootCounted(root, trail, c)
    ensures c.truncated == Min(MAX_NODES, |lost|)
    ensures forall it :: it in queue ==> WellFormed(it.value)
    ensures Conserves(root, trail, queue, lost) && Predicts(root, queue, lost, maxNodes, maxDepth)
    ensures c.unknown + OdditiesOf(Values(queue)) <= Oddities(root)
    ensures lost == [] ==> c.unknown + OdditiesOf(Values(queue)) == Oddities(root)
    ensures trail == [] ==> lost == [] && queue == [Item(root, 0)]
  {
    hide KindsAgree, RootCounted, WellFormed, Conserves, Predicts, OdditiesOf, Oddities, Values;
  }

  lemma FoldState(root: Json, maxNodes: nat, maxDepth: nat, trail: seq<Json>, queue: seq<Item>, lost: seq<Json>,
                  c: Counts, dropped: set<FieldClass>)
    requires |trail| == c.visited && c.visited + |queue| <= maxNodes
    requires KindsAgree(c, dropped) && RootCounted(root, trail, c)
    requires c.truncated == Min(MAX_NODES, |lost|)
    requires forall it :: it in queue ==> WellFormed(it.value)
    requires Conserves(root, trail, queue, lost) && Predicts(root, queue, lost, maxNodes, maxDepth)
    requires c.unknown + OdditiesOf(Values(queue)) <= Oddities(root)
    requires lost == [] ==> c.unknown + OdditiesOf(Values(queue)) == Oddities(root)
    requires trail == [] ==> lost == [] && queue == [Item(root, 0)]
    ensures WalkState(root, maxNodes, maxDepth, trail, queue, lost, c, dropped)
  {
    hide KindsAgree, RootCounted, WellFormed, Conserves, Predicts, OdditiesOf, Oddities, Values;
  }

  lemma SkipStep(root: Json, maxNodes: nat, maxDepth: nat, trail: seq<Json>, queue: seq<Item>, lost: seq<Json>,
                 c: Counts, dropped: set<FieldClass>)
    requires queue != [] && WalkState(root, maxNodes, maxDepth, trail, queue, lost, c, dropped)
    requires queue[0].depth > maxDepth || c.visited >= maxNodes
    ensures WalkState(root, maxNodes, maxDepth, trail, queue[1..], lost + [queue[0].value], Truncate(c, 1), dropped)
    ensures |NodesOf(Values(queue[1..]))| < |NodesOf(Values(queue))|
  {
    hide *;
    UnfoldState(root, maxNodes, maxDepth, trail, queue, lost, c, dropped);
    SkipConserves(root, trail, queue, lost);
    SkipPredicts(root, queue, lost, maxNodes, maxDepth);
    TruncationCounts(root, trail, c, dropped, 1);
    MinAdds(|lost|, 1);
    FoldState(root, maxNodes, maxDepth, trail, queue[1..], lost + [queue[0].value], Truncate(c, 1), dropped);
  }

  lemma VisitStep(root: Json, maxNodes: nat, maxDepth: nat, trail: seq<Json>, queue: seq<Item>, lost: seq<Json>,
                  c: Counts, dropped: set<FieldClass>, added: seq<Item>, cut: seq<Json>, c': Counts, dropped': set<FieldClass>)
    requires queue != [] && WalkState(root, maxNodes, maxDepth, trail, queue, lost, c, dropped)
    requires queue[0].depth <= maxDepth
    requires KindsAgree(c', dropped') && c'.visited == c.visited + 1
    requires c'.objects == c.objects + (if queue[0].value.Obj? then 1 else 0) && c'.arrays == c.arrays + if queue[0].value.Arr? then 1 else 0
    requires Accounts(Children(queue[0].value), queue[0].depth + 1, added, cut)
    requires |added| <= Budget(maxNodes, c'.visited, |queue| - 1)
    requires cut == [] <==> KeepsChildren(queue[0].value, Budget(maxNodes, c'.visited, |queue| - 1))
    requires c'.truncated == Min(MAX_NODES, c.truncated + |cut|)
    requires c'.unknown == c.unknown + OddAt(queue[0].value, Budget(maxNodes, c'.visited, |queue| - 1))
    ensures WalkState(root, maxNodes, maxDepth, trail + [queue[0].value], queue[1..] + added, lost + cut, c', dropped')
    ensures |NodesOf(Values(queue[1..] + added))| < |NodesOf(Values(queue))|
  {
    hide *;
    UnfoldState(root, maxNodes, maxDepth, trail, queue, lost, c, dropped);
    BudgetIs(maxNodes, c'.visited, |queue| - 1);
    VisitConserves(root, trail, queue, lost, added, cut);
    VisitPredicts(root, trail, queue, lost, added, cut, maxNodes, maxDepth);
    assert queue[0] in queue;
    ChildrenWellFormed(queue[0].value, queue[0].depth + 1, added, cut);
    RootIsCounted(root, trail, queue[0].value, c, dropped, c', dropped');
    MinAdds(|lost|, |cut|);
    KeepsMeans(queue[0].value, Budget(maxNodes, c'.visited, |queue| - 1));
    OddAtMost(queue[0].value, Budget(maxNodes, c'.visited, |queue| - 1));
    FoldState(root, maxNodes, maxDepth, trail + [queue[0].value], queue[1..] + added, lost + cut, c', dropped');
  }

  lemma EndWalk(root: Json, maxNodes: nat, maxDepth: nat, trail: seq<Json>, lost: seq<Json>, c: Counts, dropped: set<FieldClass>)
    requires WalkState(root, maxNodes, maxDepth, trail, [], lost, c, dropped)
    ensures c.visited == |trail| <= maxNodes && KindsAgree(c, dropped)
    ensures multiset(trail) + NodesOf(lost) == Nodes(root) && c.truncated == Min(MAX_NODES, |lost|)
    ensures c.truncated == 0 <==> multiset(trail) == Nodes(root)
    ensures c.truncated == 0 <==> PayloadFits(root, maxNodes, maxDepth)
    ensures c.unknown <= Oddities(root)
    ensures c.truncated == 0 ==> c.unknown == Oddities(root)
    ensures (root.Obj? ==> c.objects > 0) && (root.Arr? ==> c.arrays > 0) && (!root.Obj? && !root.Arr? ==> c.scalars > 0)
  {
    hide *;
    UnfoldState(root, maxNodes, maxDepth, trail, [], lost, c, dropped);
    NothingPending(root, trail, lost, maxNodes, maxDepth);
    MinAdds(|lost|, 0);
    RootCountedMeans(root, trail, c);
  }

  lemma MinAdds(a: nat, b: nat)
    ensures Min(MAX_NODES, Min(MAX_NODES, a) + b) == Min(MAX_NODES, a + b)
    ensures Min(MAX_NODES, a) == 0 <==> a == 0
  {
  }

  lemma KeepsMeans(j: Json, available: nat)
    ensures KeepsChildren(j, available) ==> |Children(j)| <= available
  {
  }

  lemma NothingPending(root: Json, trail: seq<Json>, lost: seq<Json>, maxNodes: nat, maxDepth: nat)
    requires Conserves(root, trail, [], lost) && Predicts(root, [], lost, maxNodes, maxDepth) && |trail| <= maxNodes
    ensures multiset(trail) + NodesOf(lost) == Nodes(root)
    ensures lost == [] <==> multiset(trail) == Nodes(root)
    ensures lost == [] <==> PayloadFits(root, maxNodes, maxDepth)
    ensures OdditiesOf(Values([])) == 0
  {
    ConservesLength(root, trail, [], lost);
    NodesOutnumber(lost);
    assert |multiset(trail)| == |trail|;
    assert Values([]) == [];
    assert AllFit([], maxDepth);
  }

  ghost predicate RootCounted(root: Json, trail: seq<Json>, c: Counts) {
    trail != [] ==>
      (root.Obj? ==> c.objects > 0) && (root.Arr? ==> c.arrays > 0) && (!root.Obj? && !root.Arr? ==> c.scalars > 0)
  }

  lemma StartWalk(root: Json, maxNodes: nat, maxDepth: nat)
    ensures Conserves(root, [], [Item(root, 0)], []) && Predicts(root, [Item(root, 0)], [], maxNodes, maxDepth)
    ensures OdditiesOf(Values([Item(root, 0)])) == Oddities(root)
    ensures WellFormed(root) && maxNodes >= 1 ==> WalkState(root, maxNodes, maxDepth, [], [Item(root, 0)], [], NO_COUNTS, {})
  {
    assert Values([Item(root, 0)]) == [root];
    Single(root);
    assert AllFit([Item(root, 0)], maxDepth) <==> ItemFits(Item(root, 0), maxDepth);
  }

  lemma TruncationCounts(root: Json, trail: seq<Json>, c: Counts, dropped: set<FieldClass>, n: nat)
    requires KindsAgree(c, dropped) && n > 0 && RootCounted(root, trail, c)
    ensures KindsAgree(Truncate(c, n), dropped) && RootCounted(root, trail, Truncate(c, n))
    ensures Truncate(c, n) == c.(truncated := Min(MAX_NODES, c.truncated + n))
  {
  }

  lemma BudgetIs(maxNodes: nat, visited: nat, pending: nat)
    requires visited + pending <= maxNodes
    ensures Budget(maxNodes, visited, pending) == maxNodes - visited - pending
  {
  }

  lemma RootIsCounted(root: Json, trail: seq<Json>, value: Json, c: Counts, dropped: set<FieldClass>, c': Counts, dropped': set<FieldClass>)
    requires RootCounted(root, trail, c) && (trail == [] ==> value == root)
    requires c'.objects == c.objects + (if value.Obj? then 1 else 0) && c'.arrays == c.arrays + if value.Arr? then 1 else 0
    requires KindsAgree(c, dropped) && KindsAgree(c', dropped') && c'.visited == c.visited + 1
    ensures RootCounted(root, trail + [value], c')
  {
  }

  lemma RootCountedMeans(root: Json, trail: seq<Json>, c: Counts)
    requires RootCounted(root, trail, c) && trail != []
    ensures (root.Obj? ==> c.objects > 0) && (root.Arr? ==> c.arrays > 0) && (!root.Obj? && !root.Arr? ==> c.scalars > 0)
  {
  }

  lemma ChildrenWellFormed(j: Json, depth: nat, added: seq<Item>, lost: seq<Json>)
    requires WellFormed(j) && Accounts(Children(j), depth, added, lost)
    ensures forall it :: it in added ==> WellFormed(it.value)
  {
  }
}
