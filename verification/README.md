# Verified model of the Agentic Security Harness core

This project models the parts of the Agentic Security Harness whose behaviour is hard to see by
reading one function, and proves what they are for. `dafny verify dfyconfig.toml` checks all of it.

- **Retained ancestry store.** A database of records with hash-chained events, and a separate witness
  file that goes from `committed` to `pending(before, after)` and back. `AncestryRecords` defines
  histories and checkpoints, `LabelCodec` and `WitnessCodec` the stored texts, `LabelJson` and
  `WitnessJson` these read as JSON, `AncestryDatabase` the full scan, `AncestryRecovery` the recovery
  decision, `AncestryCandidate` the ancestor closure, `AncestryStore` the store as a class with a
  fault possible at every storage step, and `AncestryProtocol` the same operations as a step machine
  in which any number of processes compete for the lock and the holder may crash between any two
  steps.
- **Trajectory accounting.** `Kahn` is the removal count used to find cycles, `CanonicalOrder` the
  order of observations, `Trajectory` the recomputed facts, the builder and the validator,
  `TrajectoryOrder` how the order of arrival affects them, and `TrajectoryMeaning` what facts and
  rules say, position by position.
- **Structural MCP receipts.** `McpWalk` is the bounded breadth-first walk with its loss counters,
  `McpReceipt` the receipt made from them.
- **Controlled local adapter.** `JsonText` is what a JSON text means, `JsonCanonical` the canonical
  text, `JsonScanner` the lexical nesting scanner and the value check, `LocalTransport` the retried
  request, `LocalAdapter` one serialized invocation, its receipt, and the replay reservation.
- **Greedy pairwise design.** `GreedyCover`, for any finite factor table and feasibility predicate.
- **Agent Host.** `AgentRecording` holds recordings and their evaluation, `AgentSession` the
  append-only session and the owned workflow run.
- **Advisory ingress.** `AdvisoryIngress`, one transition and whole sessions of them.
- **Roadmap dependency check.** `RoadmapDag`, the depth-first search and the roadmap contract.

`Digraph`, `Worklist`, `Ordering` and `Wrappers` hold what several of these share.

Conventions. A digest is an injective constructor over what it commits to, with the zero digest
apart, so no two different contents share one. Where an order on digests or identifiers matters they
are naturals (trajectory, ingress), otherwise strings or constructors. An exception is a `Result`,
`Option` or `bool` result. Witness replacement and database commit are atomic, and work that was not
committed disappears when its process stops.

## Where the code differs from what one might expect

- `route_violation_event_ids` is sorted but not de-duplicated by the builder or by the recomputation
  (`companion_contracts.py:759-761`, `881-883`), while the validator demands uniqueness (`522-523`).
  `Trajectory.RepeatedViolationIsRefused` gives observations that keep every rule and for which no
  record is built; `Trajectory.Build` states exactly when one is.
- Canonical order sorts by a key that need not determine the observation, and of the observations of
  one event only the last is kept. So the order of arrival can decide which record is built
  (`TrajectoryOrder.OrderDecidesTheRecord`) and even whether one is
  (`TrajectoryOrder.OrderDecidesWhetherBuilt`). `TrajectoryOrder.OrderFreeExactly` says when every
  order has the same outcome; distinct event identifiers suffice.
- Of the MCP counters only the truncation count saturates. The unknown-content count can overrun its
  field, and then no receipt is issued: `McpReceipt.OverrunHappens` gives a payload within the byte
  limit, `McpReceipt.Summarize` the exact condition, and `McpReceipt.SmallWalksAlwaysReport` a node
  budget up to which it never happens.
- The lexical scanner counts an empty container as a level and the value check does not, so a value
  with twelve levels below the root and an empty container on the last passes the value check and is
  refused by the scanner. `JsonScanner.ChecksDisagreeExactly` shows that they disagree nowhere else.

## Model

| member | source | states |
|---|---|---|
| AncestryRecords.HeadBindsRecords | src/agentic_security_harness/ancestry_store.py:163-176 | Two record lists with the same event head are the same list. |
| AncestryRecords.CheckpointBindsHistory | src/agentic_security_harness/ancestry_store.py:512-549 | Two valid histories with equal checkpoints have the same root, length and records, whatever store they come from. |
| AncestryRecords.ParentIsEarlier | src/agentic_security_harness/ancestry_store.py:537-540 | Every parent of an admitted record is an admitted record with a strictly smaller sequence, and each scope label of the child is one of the parent. |
| AncestryRecords.AncestorsDominate | src/agentic_security_harness/ancestry_store.py:532-546 | For every transitive ancestor: its position is strictly smaller, and each scope label of the descendant is one of the ancestor. |
| AncestryRecords.EveryRecordReachesRoot | src/agentic_security_harness/ancestry_store.py:532-540 | Every admitted record reaches the first record through parents, and only the first record has no parents. |
| AncestryRecords.ValidMeans | src/agentic_security_harness/ancestry_store.py:107-150 | A record is valid exactly when its identifier, context, parents and scope are labels of the stated shape, tuples strictly ascend within 32 and 64, and the payload has at most 65536 bytes. |
| AncestryRecords.MayFollowMeans | src/agentic_security_harness/ancestry_store.py:527-543 | A valid record may follow a history exactly when its context fits, its identifier is new, it has parents unless it is the root, and every parent is an earlier record whose scope has each label of its own. |
| LabelCodec.DecodeIsInverse | src/agentic_security_harness/ancestry_store.py:521-529 | A stored column text is accepted as a label tuple exactly when it is the canonical text of that tuple: one tuple per text and one text per tuple. |
| LabelCodec.EncodingFits | src/agentic_security_harness/ancestry_store.py:498-503 | 32 parents of up to 128 characters fit the 4200 character limit and 64 scope labels the 8400 character limit. |
| LabelJson.EncodeIsCanonicalJson | src/agentic_security_harness/ancestry_store.py:154-156 | The stored text of a label tuple is byte for byte the plain JSON rendering of the array of its labels, which has nothing to reorder. |
| WitnessCodec.ReadIsInverseOfWrite | src/agentic_security_harness/ancestry_store.py:404-427 | A witness file is accepted exactly when it is the canonical text of a readable witness within 4096 bytes, and reading returns that witness. |
| WitnessCodec.WitnessFits | src/agentic_security_harness/ancestry_store.py:369-376 | Every witness over readable checkpoints, pending or not, fits 4096 bytes, so the size check never stops a write. |
| WitnessJson.WitnessIsCanonicalJson | src/agentic_security_harness/ancestry_store.py:369-374 | The witness text is byte for byte the plain JSON rendering of the object of committed checkpoint, pending transition and version, each checkpoint an object of its five fields. |
| WitnessJson.WitnessIsNormal | src/agentic_security_harness/ancestry_store.py:154-156 | That object has its keys in ascending order at every level and only settled numbers, so the rendering is its canonical text. |
| AncestryDatabase.DatabaseBindsHistory | src/agentic_security_harness/ancestry_store.py:429-439 | Different histories are stored as different rows and events. |
| AncestryDatabase.ValidRowsAreWithinLimits | src/agentic_security_harness/ancestry_store.py:494-503 | The row of any record the record constructor admits passes all column limits. |
| AncestryDatabase.AtMostReread | src/agentic_security_harness/ancestry_store.py:521-530 | A row whose texts do not decode stores no record, and any row stores at most the record it rereads as. |
| AncestryDatabase.TestsDecide | src/agentic_security_harness/ancestry_store.py:527-543 | The reread record passes the row tests exactly when it may follow the admitted records and the row and event are just what inserting it produces. |
| AncestryDatabase.CheckRow | src/agentic_security_harness/ancestry_store.py:515-546 | A row and its event are accepted exactly when some record could follow and be stored as just that row and event; that record is returned. |
| AncestryDatabase.VerifyDb | src/agentic_security_harness/ancestry_store.py:487-549 | The scan succeeds exactly when the database stores some valid history, and returns that history and its checkpoint. |
| AncestryDatabase.StoredRowsAre | src/agentic_security_harness/ancestry_store.py:429-439 | What each row and event of a stored history holds: sequence, record fields, both digests, and the head of the event before. |
| AncestryDatabase.CheckpointIs | src/agentic_security_harness/ancestry_store.py:545-549 | The checkpoint of a history is its identity, version 1, and the sequence and head of the last stored event. |
| AncestryDatabase.LastHeadBindsDatabase | src/agentic_security_harness/ancestry_store.py:163-176 | Two stored histories of one identity are the same database exactly when their last event heads agree. |
| AncestryRecovery.RecoveryExactly | src/agentic_security_harness/ancestry_store.py:556-580 | Recovery succeeds exactly on the three states of the two-phase write of one history (committed; prepared from it; prepared and already inserted), and always leaves the witness committed at the database checkpoint. |
| AncestryCandidate.OrderedListUnique | src/agentic_security_harness/ancestry_store.py:690 | Two lists of admitted records in admission order with the same members are equal. |
| AncestryCandidate.ClosureIsUnique | src/agentic_security_harness/ancestry_store.py:683-691 | The selected tuple is the ancestor closure of the target in admission order, and no other tuple is. |
| AncestryCandidate.ClosureEnds | src/agentic_security_harness/ancestry_store.py:669-691 | Any such closure starts with the root and ends with the target. |
| AncestryCandidate.Closure | examples/installed-ecosystem/ancestry_chain.py:37-48 | The tuple computed beside the store is empty for an unknown target and the unique closure for a retained one. |
| Worklist.AncestorClosure | src/agentic_security_harness/ancestry_store.py:683-689 | The worklist terminates, never looks up an unknown parent, and collects exactly what is reachable through parents. |
| AncestryStore.RecoveryDecides | src/agentic_security_harness/ancestry_store.py:554-581 | Given the verified history, the recovery decision fails exactly when database and witness agree on no history. |
| AncestryStore.Store.constructor | src/agentic_security_harness/ancestry_store.py:221-271 | A completed creation leaves a valid store holding the root alone, its witness committed at sequence 1. |
| AncestryStore.Store.WriteWitness | src/agentic_security_harness/ancestry_store.py:369-402 | The file becomes exactly the witness text, or is unchanged; a failure after the replacement may leave the new text. |
| AncestryStore.Store.LockedState | src/agentic_security_harness/ancestry_store.py:551-581 | For any database and file contents: integrity failure exactly when they agree on no history; success leaves the witness committed at the database checkpoint; an interruption leaves them recoverable. |
| AncestryStore.Store.State | src/agentic_security_harness/ancestry_store.py:583-597 | On a valid store no integrity failure is possible; success returns the whole history. |
| AncestryStore.Store.Snapshot | src/agentic_security_harness/ancestry_store.py:660-667 | Returns the whole history, and only under exactly its checkpoint; without faults it succeeds exactly then. |
| AncestryStore.Store.VerifyCandidate | src/agentic_security_harness/ancestry_store.py:669-691 | Accepts a tuple exactly when the target is retained and the tuple is its ancestor closure in admission order. |
| AncestryStore.Store.CheckAppend | src/agentic_security_harness/ancestry_store.py:618-628 | The checks of append pass exactly when the history extended by the record is again a valid history within 4096 records. |
| AncestryStore.AppendableMeans | src/agentic_security_harness/ancestry_store.py:618-628 | Appendable exactly when the context fits, there are parents, fewer than 4096 records, a new identifier, and parents whose scopes contain the record's. |
| AncestryStore.Store.Append | src/agentic_security_harness/ancestry_store.py:603-658 | Whatever step fails, the store stays valid and holds the old history or the old one plus this record; success means the latter, conflict and rejection the former; without faults and under the current checkpoint it succeeds exactly when the context fits, there are parents, the identifier is new, there is room, and every parent is an admitted record whose scope has each label of the new one. |
| AncestryStore.Store.Prepare | src/agentic_security_harness/ancestry_store.py:629-635 | After the prepare the witness agrees both with the history before the commit and with the one after it. |
| AncestryStore.Store.Commit | src/agentic_security_harness/ancestry_store.py:636-642 | Both rows become visible at once or not at all, and either way the store is valid. |
| AncestryStore.Store.Finish | src/agentic_security_harness/ancestry_store.py:643-656 | The verification after the commit always finds the announced checkpoint; success leaves the witness committed there. |
| AncestryProtocol.StepKeepsInv | src/agentic_security_harness/ancestry_store.py:603-658 | Every step of every process, crashes included, keeps the protocol invariant. |
| AncestryProtocol.CrashSafety | src/agentic_security_harness/ancestry_store.py:551-581 | At every moment of every run the database scans to exactly the root followed by the committed records in order, the witness is committed at that history or prepared around it, at most one process is inside an operation, and no integrity failure was ever raised. |
| AncestryProtocol.HistoryGrows | src/agentic_security_harness/ancestry_store.py:636-642 | Along a run the history only grows, by at most one record per step. |
| AncestryProtocol.CommitsAreExclusive | src/agentic_security_harness/ancestry_store.py:615-617 | In a log of right outcomes two commits never start from the same checkpoint. |
| AncestryProtocol.ReturnedWasCommitted | src/agentic_security_harness/ancestry_store.py:641-656 | In such a log an append that returned has an earlier commit of the same record with the same checkpoint. |
| AncestryProtocol.ReturnedStays | src/agentic_security_harness/ancestry_store.py:656-667 | In such a log an append that returned is in every later snapshot, at the position its checkpoint names. |
| AncestryProtocol.SnapshotsAgree | src/agentic_security_harness/ancestry_store.py:660-667 | Snapshots in any two such logs have equal checkpoints exactly when they have equal record lists. |
| AncestryProtocol.RunCommitsAreExclusive | src/agentic_security_harness/ancestry_store.py:615-617 | In no run do two commits start from the same checkpoint. |
| AncestryProtocol.RunReturnedWasCommitted | src/agentic_security_harness/ancestry_store.py:641-656 | In every run an append returns only after its own commit. |
| AncestryProtocol.RunReturnedStays | src/agentic_security_harness/ancestry_store.py:656-667 | In every run an append that returned is in every later snapshot, at the position its checkpoint names. |
| AncestryProtocol.RunSnapshotsAgree | src/agentic_security_harness/ancestry_store.py:660-667 | Snapshots of any two runs of one store identity have equal checkpoints exactly when they have equal record lists. |
| AncestryProtocol.AlwaysRecovers | src/agentic_security_harness/ancestry_store.py:583-601 | From every reachable state without a holder a reader that is left alone finishes, repairs the witness and sees the current history. |
| AncestryProtocol.TenureStep | src/agentic_security_harness/ancestry_store.py:610-658 | While a process is inside an append nobody else moves, and each step leaves the old history or the old one plus its record; returning implies the latter, deciding against the append the former. |
| AncestryProtocol.TenureOverRun | src/agentic_security_harness/ancestry_store.py:603-658 | The same over any stretch of a run in which the process keeps the lock, up to and including the step that ends it. |
| Kahn.BuildIndex | src/agentic_security_harness/companion_contracts.py:684-692 | The child sets hold exactly the edges between observed events, and each in-degree is the number of observed parents. |
| Kahn.Release | src/agentic_security_harness/companion_contracts.py:700-703 | The in-degree of each child falls by one and exactly those that reach zero are queued, each once. |
| Kahn.LeftoverHasCycle | src/agentic_security_harness/companion_contracts.py:697-704 | An exhausted queue with events left over exposes an actual directed cycle. |
| Kahn.CountRemovable | src/agentic_security_harness/companion_contracts.py:695-704 | The visited count equals the number of events exactly when the graph of observed parents is acyclic; a short count yields a cycle. |
| CanonicalOrder.CanonicalSorts | src/agentic_security_harness/companion_contracts.py:434-458 | The canonical order is a permutation of the observations sorted by the four-part key. |
| TrajectoryMeaning.CanonicalMeans | src/agentic_security_harness/companion_contracts.py:434-458 | A permutation in which event identifiers never fall, nor ordinals within one event, nor attempts, nor commitments. |
| CanonicalOrder.CanonicalIsStable | src/agentic_security_harness/companion_contracts.py:448-458 | Observations with equal keys keep their relative order. |
| CanonicalOrder.OrderIndependentExactly | src/agentic_security_harness/companion_contracts.py:434-458 | Every permutation of the observations has the same canonical form exactly when equal keys imply equal observations. |
| Trajectory.GraphFacts | src/agentic_security_harness/companion_contracts.py:684-704 | Leaves are the observed events without observed children, and the cycle verdict is exactly the existence of a directed cycle among observed events. |
| Trajectory.ExpectedFacts | src/agentic_security_harness/companion_contracts.py:632-769 | Succeeds exactly when all eight rules hold, otherwise names a broken rule; each fact equals its description, which `TrajectoryMeaning.FactsOfAre` spells out. |
| TrajectoryMeaning.FactsOfAre | src/agentic_security_harness/companion_contracts.py:712-769 | Every fact by position: invalid exactly for a cycle of observed parents or a shared event identifier or commitment; complete exactly when none of these holds, every parent is observed, the count is the expected one, nothing is censored and nothing unknown; and which edges, roots, leaves, unresolved parents, duplicates, violations, commitments and attempt identifiers are listed. |
| TrajectoryMeaning.AcceptedMeans | src/agentic_security_harness/companion_contracts.py:509-600 | The facts of any accepted record are these, of its own observations. |
| TrajectoryMeaning.RulesMean | src/agentic_security_harness/companion_contracts.py:648-711 | The eight rules by position: one operation, attempts and ordinals that determine each other without gaps and start in order, retries with an earlier parent, parents neither later nor of a later attempt. |
| TrajectoryMeaning.CycleMeans | src/agentic_security_harness/companion_contracts.py:684-704 | The parent graph is acyclic exactly when no path along the parents of counting observations returns to its start. |
| Trajectory.Validate | src/agentic_security_harness/companion_contracts.py:509-600 | A record is accepted exactly when bounds, unique violations, horizon, canonical order, rules, facts and identity all hold. |
| Trajectory.FactsFit | src/agentic_security_harness/companion_contracts.py:466-503 | Every fact recomputed from at most 4096 valid observations meets its size limit, so the limits of the record never reject it. |
| Trajectory.Build | src/agentic_security_harness/companion_contracts.py:772-892 | A record comes out exactly when the counts are in range, the rules hold and no event is reported twice over a forbidden route; it is the record of the observations in canonical order over their observed span, and the validator accepts it. |
| TrajectoryMeaning.BuildableMeans | src/agentic_security_harness/companion_contracts.py:772-892 | A record is built exactly when counts are in range, the rules hold by position, and no two forbidden-route observations share an event. |
| TrajectoryMeaning.BuiltMeans | src/agentic_security_harness/companion_contracts.py:825-892 | The built record holds the observations in canonical order, their first and last instants, and the facts as spelled out. |
| Trajectory.BuiltIsAcceptedExactly | src/agentic_security_harness/companion_contracts.py:840-892 | Of a record whose facts, horizon and identity are those of its observations in canonical order the validator can object only to the expected count, a broken rule or a repeated violation. |
| Trajectory.RepeatedViolationIsRefused | src/agentic_security_harness/companion_contracts.py:759-761 | Concrete observations keep every rule and yet have a repeated violation, so no record is built. |
| Trajectory.RetryChain | src/agentic_security_harness/companion_contracts.py:661-667 | Every event has a chain of observed parents with strictly decreasing attempt ordinals down to a first attempt. |
| Trajectory.CycleSharesOneInstant | src/agentic_security_harness/companion_contracts.py:686-692 | All events on a directed cycle carry the same timestamp. |
| Trajectory.CompleteDescendsFromRoots | src/agentic_security_harness/companion_contracts.py:712-726 | In an accepted record marked complete the events are distinct, acyclic and as many as expected, and every one descends from a recorded root. |
| Trajectory.UnobservedParentsDoNotMatter | src/agentic_security_harness/companion_contracts.py:812-824 | Graphs that agree on observed parents agree on being acyclic, whatever unobserved parents they name. |
| Trajectory.ArrivalOrderIsIrrelevant | src/agentic_security_harness/companion_contracts.py:784-892 | With distinct event identifiers the order of arrival changes neither whether a record is built nor which. |
| TrajectoryOrder.BuildableByChoice | src/agentic_security_harness/companion_contracts.py:648-711 | Whether a record is built depends on the order of arrival only through the observation kept for each event. |
| TrajectoryOrder.OrderMakesChoice | src/agentic_security_harness/companion_contracts.py:434-458 | Of each event an observation with the greatest key is kept. |
| TrajectoryOrder.ChoiceHasOrder | src/agentic_security_harness/companion_contracts.py:434-458 | Every way to choose one observation with the greatest key for each event is kept under some order of arrival. |
| TrajectoryOrder.SomeOrderBuilds | src/agentic_security_harness/companion_contracts.py:772-892 | Some order of arrival leads to a record exactly when the conditions that ignore the order hold and some choice keeps the retry, time and attempt rules. |
| TrajectoryOrder.EveryOrderBuilds | src/agentic_security_harness/companion_contracts.py:772-892 | Every order of arrival leads to a record exactly when those conditions hold and every choice keeps the rules. |
| TrajectoryOrder.OrderFreeExactly | src/agentic_security_harness/companion_contracts.py:772-892 | All orders of arrival have the same outcome exactly when the key determines the observation, or the conditions fail, or no choice keeps the rules. |
| TrajectoryOrder.OrderDecidesWhetherBuilt | src/agentic_security_harness/companion_contracts.py:648-667 | Two concrete arrivals of the same valid observations: one leads to a record, the other to none. |
| TrajectoryOrder.OrderDecidesTheRecord | src/agentic_security_harness/companion_contracts.py:840-856 | Two concrete arrivals of the same valid observations that lead to different records. |
| McpWalk.QueueFields | src/agentic_security_harness/companion_contracts.py:314-329 | Object members are queued up to the remaining room: exactly those among the first that many whose keys are short; the unknown count grows by the odd keys among them, the truncation count by the number of members lost, saturating, and a class is dropped exactly when it was before or is a class of one of the queued keys. |
| McpWalk.QueueItems | src/agentic_security_harness/companion_contracts.py:330-335 | Array items are queued up to the remaining room, and the truncation count grows by the number of the rest, saturating. |
| McpWalk.Walk | src/agentic_security_harness/companion_contracts.py:280-340 | Visited and lost subtrees together are the nodes of the payload; the visited nodes and the unknown count are exactly those described breadth first up to the depth limit; objects, arrays, scalars, blocks, embedded blocks and dropped classes are those of the visited nodes; the truncation count is the number of lost subtrees, saturating at 4096, and zero exactly when the payload fits the node, depth and key bounds. |
| McpWalk.OddAtMeans | src/agentic_security_harness/companion_contracts.py:296-325 | The unknown content of one node: its odd keys within the room, and one more for a content block whose type is none of the known ones. |
| McpWalk.TallyVisit | src/agentic_security_harness/companion_contracts.py:295-312 | One visit raises each count by one exactly for a node of its kind and adds exactly the classes that node contributes. |
| McpWalk.FollowVisit | src/agentic_security_harness/companion_contracts.py:290-335 | One iteration visits exactly the next node of the breadth-first description, with the room there is at that moment. |
| McpWalk.FollowSkip | src/agentic_security_harness/companion_contracts.py:292-294 | Once an entry is below the depth limit nothing more is visited, because every later entry is at least as deep. |
| McpReceipt.Summarize | src/agentic_security_harness/companion_contracts.py:253-373 | Out-of-range bounds are refused; otherwise a receipt is refused exactly when the unknown content counted by the walk exceeds 4096; an issued receipt is valid, counts the visited objects, arrays, scalars, blocks and embedded blocks, lists exactly the classes of queued keys, raw scalars and embedded resources, and is complete exactly for a payload that fits and has nothing unknown. |
| McpReceipt.OverrunHappens | src/agentic_security_harness/companion_contracts.py:197-205 | A payload of at most 65536 bytes with 4097 oddities among 4096 visited nodes. |
| McpReceipt.OverrunIsRefused | src/agentic_security_harness/companion_contracts.py:253-373 | For that payload, in any spelling within the byte limit, no receipt is issued. |
| McpReceipt.UnknownIsBounded | src/agentic_security_harness/companion_contracts.py:320-325 | The unknown content is at most twice the node budget plus one for every 132 bytes of the payload. |
| McpReceipt.SmallWalksAlwaysReport | src/agentic_security_harness/companion_contracts.py:253-268 | Within the byte limit a node budget of at most 1800, such as the default of 256, always yields a receipt. |
| McpReceipt.OnlyUnknownOverruns | src/agentic_security_harness/companion_contracts.py:209-240 | Of all demands of the receipt contract the counters of a walk can miss only the bound on unknown content. |
| JsonText.ValueIsRead | src/agentic_security_harness/controlled_local_adapter.py:897-905 | Every spelling of a value - any white space, any string escapes, surrogate pairs included - is read back as that value and nothing of what follows. |
| JsonText.TextMeansOneValue | src/agentic_security_harness/controlled_local_adapter.py:897-905 | A text is a spelling of at most one value. |
| JsonCanonical.SortKeepsMembers | src/agentic_security_harness/controlled_local_adapter.py:1191-1200 | Sorting the members of an object keeps every key with its value. |
| JsonCanonical.PlainPieceIsShortest | src/agentic_security_harness/controlled_local_adapter.py:1191-1200 | Each byte of a string is written in the shortest spelling there is, escapes with lower-case digits, and no other spelling is as short. |
| JsonCanonical.SettledExactly | src/agentic_security_harness/controlled_local_adapter.py:1191-1200 | Encoding leaves a literal alone exactly when it is one of the three words, an integer other than minus zero, or a float in the encoder's own spelling. |
| JsonCanonical.NormalizedIsNormal | src/agentic_security_harness/controlled_local_adapter.py:1191-1200 | What the encoder writes has strictly ascending keys at every level and numbers that encoding leaves as they are. |
| JsonCanonical.CanonicalExactly | src/agentic_security_harness/controlled_local_adapter.py:911-917 | A text is the canonical text of its value exactly when the value is in that normal form and the text is its plain rendering. |
| JsonScanner.Scan | src/agentic_security_harness/controlled_local_adapter.py:1114-1140 | The scanning loop accepts exactly the inputs its state machine accepts. |
| JsonScanner.AcceptsExactly | src/agentic_security_harness/controlled_local_adapter.py:1114-1140 | Any text of a value, whatever its white space and escapes and whatever brackets and quotes its strings contain, is accepted exactly when its containers nest at most `maxDepth` deep. |
| JsonScanner.CheckExactly | src/agentic_security_harness/controlled_local_adapter.py:1167-1188 | The recursive check passes exactly the values with at most twelve levels below the root and no container wider than 256. |
| JsonScanner.ScannedIsNeverTooDeep | src/agentic_security_harness/controlled_local_adapter.py:1167-1169 | On the value of any text accepted at depth 12, canonical or not, the recursive depth check never fires. |
| JsonScanner.LevelsAndNesting | src/agentic_security_harness/controlled_local_adapter.py:1114-1188 | The nesting the scanner counts is the number of levels below the root or one more. |
| JsonScanner.ChecksDisagreeExactly | src/agentic_security_harness/controlled_local_adapter.py:1114-1188 | On texts of values without over-wide containers the two checks disagree exactly at nesting thirteen with twelve levels, and the scanner is then the stricter. |
| JsonScanner.ScannerIsStricter | src/agentic_security_harness/controlled_local_adapter.py:1133-1134 | Thirteen nested arrays pass the value check and are refused by the scanner. |
| LocalTransport.RequestedIsWellShaped | src/agentic_security_harness/controlled_local_adapter.py:731-839 | Whatever the attempts run into, a body comes back exactly when there is no reason, reason and status belong together, and there were one to `maxRetries + 1` attempts. |
| LocalTransport.DecidingAttempt | src/agentic_security_harness/controlled_local_adapter.py:713-728 | The result is that of the first attempt that is not retried, or of the last one allowed; every attempt before it failed in a retried way. |
| LocalTransport.RequestLocal | src/agentic_security_harness/controlled_local_adapter.py:705-728 | The retry loop terminates with that result: every attempt before the last failed in a retried way; a body comes back exactly for status 200, content type JSON alone, no encodings, exactly one length in decimal between one and the limit, and as many bytes received, which it is; and each reason exactly in its case. |
| LocalTransport.DecidedMeans | src/agentic_security_harness/controlled_local_adapter.py:779-838 | When the deciding attempt leads to each of the transport reasons, to a body and to a status, each as an equivalence over the reply. |
| LocalTransport.DecimalExactly | src/agentic_security_harness/controlled_local_adapter.py:814-823 | A length field is accepted as n exactly when it is the decimal text of n, so without sign, space or leading zero. |
| LocalAdapter.HeadBindsLog | src/agentic_security_harness/controlled_local_adapter.py:184-188 | Two audit ledgers with the same head hold the same entries, so the head moves exactly when the count does. |
| LocalAdapter.DecodedExactly | src/agentic_security_harness/controlled_local_adapter.py:896-917 | A body decodes exactly when it is the canonical text - keys in order, numbers as encoded, no white space, no needless escapes - of an object within the nesting and width limits; it is non-canonical exactly when it is another text of such an object, and invalid JSON otherwise. |
| LocalAdapter.UnsortedIsNoncanonical | src/agentic_security_harness/controlled_local_adapter.py:914-916 | Any text of `{"b":1,"a":2}` in this key order is refused as non-canonical. |
| LocalAdapter.DecodeResponse | src/agentic_security_harness/controlled_local_adapter.py:896-917 | The reason returned says which it was: non-canonical for another text of an admissible object, invalid for what does not parse to one; a returned value is that of the body, which is its canonical text. |
| LocalAdapter.ReservedOnce | src/agentic_security_harness/controlled_local_adapter.py:535-548 | Over any series of reservation requests no identity is granted twice, batches are granted whole, the granted identities are exactly those seen, and there are at most 4096. |
| LocalAdapter.Gateway.CallTool | src/agentic_security_harness/runtime_gateway.py:693-714 | One audit record per call, and a result exactly when the policy allows the call. |
| LocalAdapter.Gateway.Execute | src/agentic_security_harness/provider_tool_adapters.py:143-171 | Calls are audited and dispatched one by one in order; nothing happens when the payload does not normalize. |
| LocalAdapter.DispatchMeansCompleted | src/agentic_security_harness/controlled_local_adapter.py:575-619 | Tool calls are dispatched exactly when the invocation completes with tool calls, at most eight of them. |
| LocalAdapter.TerminalStateHolds | src/agentic_security_harness/controlled_local_adapter.py:196-315 | On every path status, attempts, HTTP status, response, tools and audit delta are those the reason code calls for. |
| LocalAdapter.EveryPathIsCoherent | src/agentic_security_harness/controlled_local_adapter.py:180-321 | The receipt of every path satisfies the whole receipt contract, tool receipts included. |
| LocalAdapter.ReservedAreFresh | src/agentic_security_harness/controlled_local_adapter.py:621-630 | What an invocation reserves is free of repetition, was not seen before, and fits the capacity. |
| LocalAdapter.InvocationKeepsOnceOnly | src/agentic_security_harness/controlled_local_adapter.py:548-604 | No tool-call identity is dispatched twice over the life of an adapter, and every dispatched identity stays reserved. |
| LocalAdapter.ReasonExactly | src/agentic_security_harness/controlled_local_adapter.py:435-619 | Every reason arises exactly in its case, in terms of cancellation, transport result, meaning and canonicity of the body, normalized calls, identities repeated, seen or too many, and whether the response is finished. |
| LocalAdapter.EndingExactly | src/agentic_security_harness/controlled_local_adapter.py:435-680 | The audit entries of every ending (none; the response; each call with its decision and then the response), one receipt per dispatched call with a result exactly where allowed, the rest of the receipt, and exactly which identities become seen. |
| LocalAdapter.Adapter.Reserve | src/agentic_security_harness/controlled_local_adapter.py:621-630 | All or nothing: a refusal changes nothing, a grant adds the whole batch, none of which was seen. |
| LocalAdapter.Adapter.Dispatch | src/agentic_security_harness/controlled_local_adapter.py:535-619 | Duplicate check, reservation, late cancellation (which keeps the reservation) and dispatch, with the exact receipt, ledger and reserved set. |
| LocalAdapter.Adapter.Conclude | src/agentic_security_harness/controlled_local_adapter.py:473-619 | What each response body leads to: the reason exactly, audit entries, receipt and reserved identities. |
| LocalAdapter.Adapter.Invoke | src/agentic_security_harness/controlled_local_adapter.py:409-619 | Every invocation under the closed policy ends in a coherent receipt whose reason arises exactly in its case; audit entries, tool receipts and reserved identities are spelled out for each; the transport result is that of the deciding attempt; the adapter invariant is kept; a changed policy stops it before anything happens. |
| GreedyCover.ProductMembers | src/agentic_security_harness/covering_array.py:99-102 | The product lists exactly the rows that take one level of every factor. |
| GreedyCover.Candidates | src/agentic_security_harness/covering_array.py:97-102 | The candidates are exactly the feasible rows. |
| GreedyCover.PairUniverse | src/agentic_security_harness/covering_array.py:136-145 | The recount holds exactly the pairs that occur in some feasible row. |
| GreedyCover.PickBest | src/agentic_security_harness/covering_array.py:109-112 | The pick has the greatest key: most uncovered pairs, ties broken by row order. |
| GreedyCover.RowBeforeExactly | src/agentic_security_harness/covering_array.py:109-112 | The tie order: rows agree up to some column, where the first has the smaller level. |
| GreedyCover.BestIsGreedy | src/agentic_security_harness/covering_array.py:108-115 | While pairs are uncovered the pick covers some, and no feasible row, taken or not, covers more. |
| GreedyCover.Design | src/agentic_security_harness/covering_array.py:94-118 | For any table and predicate the loop terminates, the error is never raised, the selected rows are feasible and cover exactly the feasible pairs, and each is a greedy choice. |
| GreedyCover.EachChoiceGains | src/agentic_security_harness/covering_array.py:108-118 | If some k feasible rows cover everything, each choice removes at least a k-th of what is uncovered. |
| GreedyCover.GreedyBound | src/agentic_security_harness/covering_array.py:108-118 | After t choices at most (1 - 1/k)^t of the feasible pairs are uncovered. |
| GreedyCover.RowCountBound | src/agentic_security_harness/covering_array.py:108-118 | If (k - 1)^t times the number of feasible pairs is below k^t, for any cover by k feasible rows, the design has at most t rows. |
| GreedyCover.DefaultDesign | src/agentic_security_harness/covering_array.py:28-58 | For the default table and its constraints the pairs of the design equal the independent recount; every row has one listed level a column and none of the six excluded combinations, and two levels occur together in the design exactly when some such row has both. |
| GreedyCover.PlausibleExactly | src/agentic_security_harness/covering_array.py:28-58 | The feasible rows are exactly those with one listed level in each of the six columns and none of the six excluded combinations. |
| AgentRecording.CheckOrder | src/agentic_security_harness/agent_host_adapter.py:128-145 | The loop accepts exactly one-project lists with non-decreasing times in which every parent precedes its child and every commitment is that of its event. |
| AgentRecording.EventExactly | src/agentic_security_harness/portfolio_contract.py:106-155 | The event contract field by field: digests, time range, surface, activity token, at most 64 distinct parents other than the event itself. |
| AgentRecording.AggregateExactly | src/agentic_security_harness/agent_host_adapter.py:400-411 | The telemetry of a recording is the worst state an event shows, complete only if all are, and incomplete for no events. |
| AgentRecording.ParentsExactly | src/agentic_security_harness/agent_host_evaluator.py:439-450 | For distinct events the graph has one node per event, leading to the parents that event names. |
| AgentRecording.ValidateRecording | src/agentic_security_harness/agent_host_adapter.py:115-156 | A recording is accepted exactly when pattern, manifest, size, distinct identifiers, causal order, commitments, telemetry, status and identity fit. |
| AgentRecording.IdentityBindsRecording | src/agentic_security_harness/agent_host_adapter.py:414-438 | Two accepted recordings with the same identity are the same recording, event by event. |
| AgentRecording.TerminalCovers | src/agentic_security_harness/agent_host_evaluator.py:439-450 | True exactly when every event is the terminal event or one of its ancestors. |
| AgentRecording.Classify | src/agentic_security_harness/agent_host_evaluator.py:406-436 | The reason says what holds of the recording (which events are terminal, whether the last is, whether it covers the rest), the result satisfies the evaluation contract, and it names an event exactly when the recording is completed, completely observed and has one terminal event: that one. |
| AgentRecording.ReasonIsUnique | src/agentic_security_harness/agent_host_evaluator.py:406-436 | The eleven reasons exclude one another, so what a recording is determines its evaluation. |
| AgentRecording.DecisiveExactly | src/agentic_security_harness/agent_host_evaluator.py:165-199 | Pass, or finding, exactly when the recording is completed with complete telemetry and its last event is its only terminal one, has that activity and has all other events among its ancestors. |
| AgentSession.Session.Observe | src/agentic_security_harness/agent_host_workflow.py:183-241 | Raises and changes nothing exactly when the session is closed or the repository, time, surface, activity or commitments are out of contract; otherwise appends one event with exactly the given surface, activity and commitments, the next instant, the last event as only parent, and the identifier over all of these. |
| AgentSession.Session.Terminal | src/agentic_security_harness/agent_host_workflow.py:243-261 | Raises and changes nothing exactly when the session is closed or the repository or time is out of contract; otherwise appends the audit event of its kind, with its fixed activity and commitment, and closes. |
| AgentSession.AcceptsExactly | src/agentic_security_harness/agent_host_workflow.py:183-241 | An observation is accepted exactly on an open session with repository, time, surface, activity and commitments in contract, and the event is the one described. |
| AgentSession.SessionIsChain | src/agentic_security_harness/agent_host_workflow.py:183-241 | Whatever a workflow calls, the recorded events form a chain: consecutive sequence numbers and times, each event the only parent of the next. |
| AgentSession.ChainIsRecordable | src/agentic_security_harness/agent_host_adapter.py:115-156 | A chain is a list of distinct valid events in causal order with complete telemetry. |
| AgentSession.ClosedIsRecordable | src/agentic_security_harness/agent_host_adapter.py:237-263 | The recording of a settled session is valid exactly when the pattern is known and there are at most 2048 events. |
| AgentSession.ChainIsCovered | src/agentic_security_harness/agent_host_evaluator.py:439-450 | The last event of a chain always passes the coverage check. |
| AgentSession.ClosedByOneCall | src/agentic_security_harness/agent_host_workflow.py:255-261 | A closed session was closed by exactly one of the workflow's calls. |
| AgentSession.PassExactly | src/agentic_security_harness/agent_host_workflow.py:296-339 | A run passes exactly when a `boundary_preserved` call closed the session and no earlier event used a terminal activity; the same for a finding and `boundary_violated`. |
| AgentSession.AdapterErrorExactly | src/agentic_security_harness/agent_host_workflow.py:311-329 | A run is an adapter error exactly when the workflow raised or closed the session with `adapter_error`. |
| AgentSession.RunOwned | src/agentic_security_harness/agent_host_workflow.py:296-339 | When a run yields a result; that the recording is then valid, its events the chain of the configured session, its status told by the last activity, and the evaluation means what its reason says. |
| AdvisoryIngress.IngestExactly | src/agentic_security_harness/advisory_ingress.py:286-389 | Every outcome exactly: misuse; each refusal in its case and with the digest it reports; an admission for a well-addressed, fresh payload of the right size and label while there is room, with the state and receipt it leads to. |
| AdvisoryIngress.AdmissionStep | src/agentic_security_harness/advisory_ingress.py:317-388 | An admission adds exactly one digest, not consumed before, and its next state binds the receipt. |
| AdvisoryIngress.SessionSafety | src/agentic_security_harness/advisory_ingress.py:207-217 | Over any series of calls no digest is admitted twice, the consumed tuple is the sorted listing of the admitted digests, its size is the next sequence number, every state revalidates, and at most 64 results are admitted. |
| AdvisoryIngress.FreshIsAdmittedExactly | src/agentic_security_harness/advisory_ingress.py:324-343 | A well-addressed valid payload is admitted exactly when its digest was not admitted before and fewer than 64 were; a repeated one is a replay. |
| AdvisoryIngress.ChainRecordsSession | src/agentic_security_harness/advisory_ingress.py:357-376 | The receipt chain of the state lists the admitted digests in order of admission. |
| AdvisoryIngress.ReceiptBindsSession | src/agentic_security_harness/advisory_ingress.py:368-376 | Two sessions ending in the same receipt admitted the same results in the same order. |
| RoadmapDag.DagCheck.Visit | tools/ecosystem_docs.py:367-376 | A visit finishes the node and all it depends on, keeping the search invariant, or exposes a cycle. |
| RoadmapDag.BackEdgeClosesCycle | tools/ecosystem_docs.py:368-369 | Meeting a node that is still being visited exposes a directed cycle. |
| RoadmapDag.RequireDag | tools/ecosystem_docs.py:363-379 | When all dependencies are keys the search terminates, and returns normally exactly when the graph is acyclic. |
| RoadmapDag.CheckPhases | tools/ecosystem_docs.py:191-206 | The phases pass exactly when identifiers are distinct, each phase lists other existing phases, none twice and only complete ones if it is complete, and no chain of positions leads back to its start. |
| RoadmapDag.SemanticContract | tools/ecosystem_docs.py:188-209 | A roadmap passes exactly when component identifiers are distinct, its phases pass, and every output path is non-empty, has no backslash and no leading slash, and no part that is two dots. |
| RoadmapDag.PhasesExactly | tools/ecosystem_docs.py:191-206 | The phase contract by position: distinct identifiers, coherent dependencies, and no loop of positions each depending on the next. |
| RoadmapDag.PublicExactly | tools/ecosystem_docs.py:357-360 | A path is public exactly when it is non-empty, neither starts with a slash nor holds a backslash, and nowhere has two dots between slashes or ends. |
| RoadmapDag.CompleteIsTransitive | tools/ecosystem_docs.py:202-206 | In an accepted roadmap every transitive dependency of a complete phase is complete. |

## Left out

- AncestryStore.Store.constructor: takes only a root that creation accepts; the refusal of any other root, existing paths and an interrupted creation (which the store leaves to its owner) are not modelled.
- SQLite schema, column, index and pragma checks, column types, lock files and timeouts, fsync, temporary files and the stage bookkeeping of cleanup: a commit and a witness replacement are one step each.
- AncestryProtocol: the lock is a single holder; how the operating system grants it is not modelled.
- SHA-256 itself and the JSON library: digests are injective constructors, stored texts are defined by their canonical form.
- Trajectory tuples kept sorted and duplicate-free are sets, and the route violations a multiset; encoding a record to bytes and its byte limit are not modelled.
- McpReceipt.Summarize: takes the decoded payload and its length, which is at least that of the shortest text of the value; refused JSON and which key names belong to which field class are parameters or left out.
- GreedyCover: case identifiers, family hints and dispositions of the rows.
- LocalAdapter.Adapter.constructor: takes a gateway with the closed default policy; the refusal of any other, and the checks of request, model identifier and size made before the network, are not modelled.
- LocalAdapter: the JSON parser, the encoder's text for a float, the provider normalizer, the response test, the policy and the synthetic tools are parameters, of which it is required only that a parsed value is what the text means and repeats no key, that rewriting a float settles, and that a normalized payload has one to eight calls; bodies in an encoding other than UTF-8, which the library would detect and the canonical comparison refuse, are not modelled; the digests of request, model, endpoint and configuration, the receipt's own digest and failures of the audit ledger are left out.
- LocalTransport: sockets, deadlines and header parsing; an attempt is what it ran into, a reply its parsed fields, content types in lower case.
- AgentRecording: the fields of the host descriptor, which is a single value here; `AgentSession.RunOwned` takes the byte limits as a parameter.
- AgentSession: the quickstart bundle, summaries and file publication.
- AdvisoryIngress: the decoding and contract checks of a source payload are a parameter, the connector and gateway outcome of an admission are left out.
- File brokers and the controlled-file session, the advisory connector, attestation policy, consent campaign, extension candidates, schema and release tooling, reports and the command line.
