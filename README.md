# RankTieredOrchestator, modelled in Dafny

Rundeck's example orchestrator plugin decides, one request at a time, which
target node of a job may receive work next. `RankTieredOrchestator` keeps the
job's nodes in rank order and releases them in *tiers*: nodes whose rank
attribute has the same value. A node is handed out only when nothing is in
flight, when nothing was handed out before, or when it ties with the node
handed out last. So a later tier opens only once every node of the current
tier has been returned.

The model has three modules:

- `Wrappers` (wrappers.dfy): the `Option` type that stands in for Java's
  nullable references.
- `NodeRank` (node_rank.dfy): the `Node` datatype, whose attributes are an
  `Option<map<string, string>>`. It defines the rank value of a node
  (`RankValue`) and Java's `String.compareTo` (`CompareTo`, with its exact
  return value). It defines the private `NodeAttributeComparator.compare` as
  `Compare`. Lemmas tie `CompareTo` to an independent definition of
  lexicographic order (`LexLess`) and `Compare` to the rank order
  (`RankBefore`). `Compare`'s postcondition makes a tie the same as
  equal rank values, so "ties with the previous node" is an equivalence.
  `ChainedTiesFormOneTier` turns a run of consecutive ties into one tier.
- `Orchestrator` (orchestrator.dfy): the class `RankTieredOrchestator`. It has
  the source's fields `list: seq<Node>`, `count: int` and
  `previousNode: Option<Node>`, plus the comparator's attribute as a `const`.
  `NextNode` and `ReturnNode` are methods that change these fields.
  When no rank attribute is configured, the comparator ranks by `nodename`
  (line 44 of the source), so nodes do not all tie.
  `IsComplete` is a function. Ghost fields record the history the fields
  summarise:
  - the initial list;
  - every node handed out, in order;
  - the number of returns;
  - the multiset of nodes in flight;
  - the current tier, meaning the nodes handed out since `count` was last 0.

  `Valid()` ties these to the real fields. The module-level lemmas
  `DispatchPreserves` and `ReturnPreserves` prove that the two mutators keep
  it.
- `Scenarios` (scenarios.dfy): client methods that drive the orchestrator
  using only its contracts. They cover ranks 1, 1, 2, 2, 3; a ranked node
  followed by two nodes without a rank value, which wait for it and then go
  out together as one tier; and an empty node list.

## Model

| member | source | states |
|---|---|---|
| `NodeRank.RankValue` | plugins/orchestrator-plugin/src/main/java/org/rundeck/plugin/example/RankTieredOrchestator.java:99-100 | a node has a rank value exactly when it has an attribute map and that map holds the rank attribute; a missing map counts as an absent value |
| `NodeRank.Compare` | plugins/orchestrator-plugin/src/main/java/org/rundeck/plugin/example/RankTieredOrchestator.java:98-108 | the comparator answers 0 exactly when the two rank values are equal: both absent, or the same string |
| `NodeRank.CompareMatchesRankOrder` | plugins/orchestrator-plugin/src/main/java/org/rundeck/plugin/example/RankTieredOrchestator.java:101-107 | the comparator is negative exactly when the first rank value comes first and positive exactly when the second does. Two present values are ordered lexicographically. A present value comes before an absent one. |
| `NodeRank.CompareAntisymmetric` | plugins/orchestrator-plugin/src/main/java/org/rundeck/plugin/example/RankTieredOrchestator.java:101-107 | swapping the two nodes negates the comparator's answer |
| `NodeRank.CompareTransitive` | plugins/orchestrator-plugin/src/main/java/org/rundeck/plugin/example/RankTieredOrchestator.java:98-108 | the comparator's strict order is transitive, as the `Comparator` contract asks |
| `NodeRank.CompareTo` | plugins/orchestrator-plugin/src/main/java/org/rundeck/plugin/example/RankTieredOrchestator.java:102 | `compareTo` as the JDK defines it when one string is a prefix of the other: the difference of the lengths |
| `NodeRank.CompareToFirstDifference` | plugins/orchestrator-plugin/src/main/java/org/rundeck/plugin/example/RankTieredOrchestator.java:102 | `compareTo` as the JDK defines it when the strings differ at some index: at the first such index, the difference of the two characters |
| `NodeRank.CompareToZeroIff` | plugins/orchestrator-plugin/src/main/java/org/rundeck/plugin/example/RankTieredOrchestator.java:102 | `compareTo` on two present values is 0 exactly when the strings are equal |
| `NodeRank.CompareToAntisymmetric` | plugins/orchestrator-plugin/src/main/java/org/rundeck/plugin/example/RankTieredOrchestator.java:102 | `compareTo(b, a)` is exactly `-compareTo(a, b)` |
| `NodeRank.CompareToNegativeIffLexLess` | plugins/orchestrator-plugin/src/main/java/org/rundeck/plugin/example/RankTieredOrchestator.java:102 | `compareTo` is negative exactly when the first string is lexicographically smaller, a proper prefix counting as smaller |
| `NodeRank.CompareToTransitive` | plugins/orchestrator-plugin/src/main/java/org/rundeck/plugin/example/RankTieredOrchestator.java:102 | `compareTo`'s strict order is transitive |
| `NodeRank.ChainedTiesFormOneTier` | plugins/orchestrator-plugin/src/main/java/org/rundeck/plugin/example/RankTieredOrchestator.java:72-73 | if each node of a run ties with the node before it, which is the test the gate makes against the previous node, then every two nodes of the run tie |
| `NodeRank.AbsentRunIsOneTier` | plugins/orchestrator-plugin/src/main/java/org/rundeck/plugin/example/RankTieredOrchestator.java:104-105 | any two nodes that both lack the rank value tie, so such a run forms one tier |
| `Orchestrator.Admits` | plugins/orchestrator-plugin/src/main/java/org/rundeck/plugin/example/RankTieredOrchestator.java:72 | the gate admits the head exactly when `count` is 0, or there is no previous node, or the head has the previous node's rank value |
| `Orchestrator.DispatchPreserves` | plugins/orchestrator-plugin/src/main/java/org/rundeck/plugin/example/RankTieredOrchestator.java:71-75 | an admitted hand-out keeps every invariant. The list keeps equal to the initial list minus the hand-outs. `count` stays hand-outs minus returns, which is the in-flight count. The previous node stays the last hand-out. The current tier still holds every in-flight node and shares one rank value. |
| `Orchestrator.ReturnPreserves` | plugins/orchestrator-plugin/src/main/java/org/rundeck/plugin/example/RankTieredOrchestator.java:83 | returning an in-flight node keeps the accounting and the tier invariant; the tier closes when `count` reaches 0 |
| `Orchestrator.RankTieredOrchestator.constructor` | plugins/orchestrator-plugin/src/main/java/org/rundeck/plugin/example/RankTieredOrchestator.java:43-63 | the comparator's attribute is the configured one, or `nodename` when none is configured. The list is the given ordered list. `count` is 0 and there is no previous node. |
| `Orchestrator.RankTieredOrchestator.NextNode` | plugins/orchestrator-plugin/src/main/java/org/rundeck/plugin/example/RankTieredOrchestator.java:67-79 | an empty list gives None. Otherwise a node is handed out exactly when the gate admits the head, and always when `count` is 0. A hand-out returns the old head, leaves the old tail, adds one to `count` and makes the head the previous node. Otherwise nothing changes, so a gated poll is idempotent. A node handed out while others are in flight has their rank value. |
| `Orchestrator.RankTieredOrchestator.ReturnNode` | plugins/orchestrator-plugin/src/main/java/org/rundeck/plugin/example/RankTieredOrchestator.java:82-84 | `count` goes down by exactly one. `list` and `previousNode` are untouched. The node and its outcome only remove it from the ghost in-flight multiset. |
| `Orchestrator.RankTieredOrchestator.IsComplete` | plugins/orchestrator-plugin/src/main/java/org/rundeck/plugin/example/RankTieredOrchestator.java:86-88 | the orchestrator is complete exactly when every initial node has been handed out and none is in flight; the query changes nothing |
| `Orchestrator.RankTieredOrchestator.InFlightInOneTier` | plugins/orchestrator-plugin/src/main/java/org/rundeck/plugin/example/RankTieredOrchestator.java:72-83 | in a valid state `count` is never negative, and a positive `count` implies a previous node. Every in-flight node has the previous node's rank value, so no later tier is out while an earlier one is in flight. |

## Left out

- `INodeEntryComparator.rankOrderedNodes` (lines 46-50) is a library sort whose code is not part of this model. The constructor takes its output, the already-ordered list, as an argument. That call receives the raw configured rank attribute, which may be null. The tier comparator instead uses the attribute defaulted to `nodename` (line 44). So the two may rank by different attributes when none is configured. The model keeps this as the code has it.
- `getNodeRankAttribute` becomes the constructor's `configuredRankAttribute`. `isNodeRankOrderAscending` feeds only the sort and the log line, both left out, so it is not a parameter.
- The informational log line written at construction (lines 52-60) is I/O with no effect on state.
- Thread safety: the fields are updated without synchronisation. Calls are modelled as sequential.
- Orchestrator.RankTieredOrchestator.ReturnNode: the `NodeStepResult` argument is dropped, and `success` is kept but unused. Its precondition `node in inFlight` is ghost. It is the caller's obligation to return each handed-out node exactly once, which the code does not check. A caller that breaks it can drive `count` below 0, and that case is not modelled.
- NodeRank.CompareTo works on Dafny characters, which are Unicode scalar values. Java's `String.compareTo` works on UTF-16 code units. The two can order strings with characters outside the Basic Multilingual Plane differently. The zero-iff-equal behaviour and the gate are unaffected.
- Java's `int` overflow of `count` is not modelled. `count` never exceeds the number of nodes handed out, which is at most the size of a Java list.
- Node identity: Java compares node objects by reference. The model's nodes are values, so two nodes with identical attributes cannot be told apart. This matters only to the ghost bookkeeping, and the gate never looks at identity.
- An attribute map that holds the key with a `null` value reads as absent in the source. The model's maps hold only strings, so that case shows up as a missing key.
