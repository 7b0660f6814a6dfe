# Verified models of the graph database engine

A Dafny project that models the logic-heavy parts of the C++ engine under `cpp-reference/src` and proves what
they promise, for all inputs and all runs. `dafny verify dfyconfig.toml` checks everything.

| component | modules |
|---|---|
| Logical plans, their rows and three-valued predicates | `Plans`, `PlanFacts` |
| Filter push-down | `FilterPushDown`, `FilterPushDownProof`, `FilterPushDownCross`, `FilterPushDownEffect`, `FilterPushDownOptimizer` |
| Semi masks between the sides of a hash join | `SemiMask`, `SemiMaskProof`, `SemiMaskPass`, `SemiMaskOperators`, `SemiMaskChoice` |
| Reduced group keys | `GroupKeys`, `GroupKeysProof` |
| Versioned catalog, undo records, checkpoint | `Catalog`, `CatalogInvariant`, `CatalogSteps`, `CatalogTransactions`, `CatalogReachable`, `CatalogGuards`, `CatalogSnapshots`, `CatalogProperties`, `CatalogOutcomes`, `CatalogOids`, `CatalogLookups`, `CatalogStability`, `CatalogSet` |
| Null masks, word by word | `Words`, `NullMask`, `NullMaskRange` |
| MD5 as a stream | `Md5Spec`, `Md5`, `Md5Stream`, `ByteOrder` |
| Nested values: text, order, hash | `NestedVectors`, `ListText`, `ListTextProof`, `ListStoreProof`, `ListCast`, `NestedOrder`, `NestedCompare`, `NestedHash` |
| Lambda slices and CASE | `ListSlices`, `CaseEvaluator` |
| Substring search, DECIMAL arithmetic | `Find`, `Decimal` |

Code that updates things in place is modelled by classes, arrays and loops (`FilterPushDownOptimizer`, `CatalogSet`,
`NullMask`, `Md5Stream.MD5`, `ListCast`, `NestedCompare`, `NestedHash`, `ListSlices`, `CaseEvaluator`, `Find`); each such
method is tied to a specification that the lemmas are about. The rest is functions and lemmas.

## Assumptions

- Expressions, operators and leaf functions are deterministic. What a plan operator that is not opened up returns, how a
  leaf is hashed, compared or combined, and what a relationship scan yields, are arbitrary functions.
- `Plans.Database`, `FilterPushDownProof.WellFormed` and `SemiMaskProof.NodesScoped` state what the binder and the
  planner guarantee: rows have the expressions of the schema, the sides of a cross product do not compute each other's
  expressions, node IDs known to both sides of a join are join keys, primary keys are unique and not null in their table.
- A locked section of the catalog is one step. Transaction IDs start at 2^63 and fewer than 2^63 transactions commit.
- Altering a table keeps its OID, and reading an entry back sets its timestamp to zero, as `TableCatalogEntry::alter` and
  `CatalogEntry::deserialize` do.

## Where the code falls short of the property

Each of these is stated as it is in the code, with the inputs that show it and the condition under which the property holds.

- Short null-mask copies cut positions to 32 bits (`NullMask.ShortCopyExact`). What they return is a flag of the bits they
  read: it is right for all contents exactly when nothing is copied, or nothing is inverted and no position read is cut
  (`NullMask.ShortFlagExact`).
- Filter push-down treats an optional cross product like any other. It keeps its rows exactly when the null row that
  stands in for an empty build side does no harm (`OptionalVisitExact`, `OptionalCounterexample`), and when it becomes a
  join it keeps its schema exactly when it has no mark (`OptionalMarkExact`).
- The semi-mask pass does not ask what lies between a join and the scans it masks; below a limit, masks change the rows
  (`LimitCounterexample`). An operator in between is harmless exactly when what it returns for some keys of the node does
  not depend on the rows of other keys (`OperatorExact`), as for projections, distinct and order-by.
- Grouping by a primary key over several tables loses groups. The reduction is right for every graph exactly when each
  dependent key has the internal ID of its variable beside it or a variable of one table (`ReducibleExact`).
- Drops and alters do not test for write conflicts. A drop keeps the undo records right exactly when no other transaction
  has an uncommitted version in the chain (`DropExact`), an alter exactly when the top of the chain is no conflict
  (`AlterExact`, `AlterRecordExact`). With one writer at a time there is none (`SingleWriterNoConflict`); with several,
  updates are lost (`LostUpdate`) and records are left without their version (`DanglingRecord`). A transaction goes on
  finding the same version exactly when no commit or rollback has a record for the version below it (`SnapshotExact`).
- A rename that fails halfway leaves a tombstone without an undo record (`RenameExact`, `FailedRenameStays`). With one
  writer at a time snapshots stay stable all the same (`SnapshotStable`), but the commit of a later alter goes to the
  tombstone, and the entry is gone for everyone (`AlterLosesEntry`). A commit publishes what was written exactly when a
  record names the version below (`CommitPublishes`).
- Lookup by OID compares with the top of a chain, not with the visible version. It finds what is live under an OID exactly
  when above no visible entry another one has arrived last, by a create or a rename (`OidLookupExact`, `LookupLost`);
  otherwise entries are missed (`RecreateHidesOid`) or found twice (`RenameHidesOid`). After conflicts and failed renames,
  tombstones and versions of other entries count as well (`OidLookupEvents`).
- A list of one null prints like an empty list; print and parse are inverse exactly without such lists (`RoundTrip`).
- A null struct is hashed by its members (`NullStructsDiffer`). The hash is a function of the value exactly when the members
  of null structs are null, empty lists, or structs of such members (`HashIsOfValue`).
- The result type of a DECIMAL sum or difference gains a digit in its fraction and none for a carry (`CarryGoesToFraction`,
  `CarryThrows`).
- Searching for an empty string goes on into the search (`Find.Operation`).

## Model

| member | source | states |
|---|---|---|
| `FilterPushDownCross.VisitCorrect` | cpp-reference/src/optimizer/filter_push_down_optimizer.cpp:26-136 | For every well-formed plan without index scans of its own whose optional cross products are safe (the exact condition is `OptionalVisitExact` and `OptionalMarkExact`), and predicates over its schema, what the visitor returns has the schema of the plan and exactly its rows on which all pending predicates are true, in the same order |
| `FilterPushDownCross.VisitFilter` | cpp-reference/src/optimizer/filter_push_down_optimizer.cpp:61-76 | Under the same conditions, visiting a filter, literal or not, returns the rows on which its own predicate and all pending ones are true, and the schema |
| `FilterPushDownCross.VisitAllCorrect` | cpp-reference/src/optimizer/filter_push_down_optimizer.cpp:50-59 | Under the same conditions, children of other operators, each under a push-down of its own, keep their rows |
| `FilterPushDownCross.ProductPushed` | cpp-reference/src/optimizer/filter_push_down_optimizer.cpp:83-123 | Pushing each predicate to the side that can evaluate it and applying all of them again above gives the filtered product |
| `FilterPushDownCross.JoinPushed` | cpp-reference/src/optimizer/filter_push_down_optimizer.cpp:83-135 | An inner join on the equalities between the sides, with pushed predicates below and the others above, gives the filtered product |
| `FilterPushDownCross.ConditionsHold` | cpp-reference/src/optimizer/filter_push_down_optimizer.cpp:104-120 | Equalities hold of a joined row exactly when the converted ones match as join keys, nulls included, and the rest hold |
| `FilterPushDownCross.OptionalJoin` | cpp-reference/src/optimizer/filter_push_down_optimizer.cpp:121-135 | With at least one join condition and no constant in the schema of the build side, an optional cross product without a mark may become an inner join: the rows are those of the filtered optional product |
| `FilterPushDownCross.OptionalVisitExact` | cpp-reference/src/optimizer/filter_push_down_optimizer.cpp:78-123 | An optional cross product left in place keeps its filtered rows if and only if its build side is empty, or a build row passes the pushed predicates, or no probe row extended by nulls passes the pending ones |
| `FilterPushDownCross.OptionalMarkExact` | cpp-reference/src/optimizer/filter_push_down_optimizer.cpp:121-135 | An optional cross product that becomes a join keeps its schema if and only if it has no mark, where the mark is new to both sides |
| `FilterPushDownCross.UnusedHarmless` | cpp-reference/src/optimizer/filter_push_down_optimizer.cpp:83-123 | An optional cross product is safe, whatever its rows, when no predicate goes to its build side alone or a pending equality, itself no column of either side, has an operand that is a column of the build side |
| `FilterPushDownCross.OptionalCounterexample` | cpp-reference/src/optimizer/filter_push_down_optimizer.cpp:78-123 | For a test for null over an optional build side, a well-formed plan and its rewritten form return different rows |
| `FilterPushDownProof.ScanCorrect` | cpp-reference/src/optimizer/filter_push_down_optimizer.cpp:180-208 | A scan, turned into an index scan or not, returns the rows on which the pending predicates hold |
| `FilterPushDownProof.KeyScanRows` | cpp-reference/src/optimizer/filter_push_down_optimizer.cpp:195-201 | The index scan by a constant key returns the rows of the scan on which the comparison holds, whichever side the key is on |
| `FilterPushDownProof.ScanPutBack` | cpp-reference/src/optimizer/filter_push_down_optimizer.cpp:202-207 | A comparison put back with its operands swapped filters the same rows |
| `FilterPushDownProof.AppendFiltersRows` | cpp-reference/src/optimizer/filter_push_down_optimizer.cpp:257-275 | Stacked filters keep the rows on which all predicates are true, and the schema |
| `FilterPushDown.FirstKeyComparison` | cpp-reference/src/optimizer/filter_push_down_optimizer.cpp:298-322 | The first equality that compares the primary key of the variable, none before it does |
| `FilterPushDownEffect.IndexExact` | cpp-reference/src/optimizer/filter_push_down_optimizer.cpp:160-208 | The scan of one table, below the filters that are put on it, becomes an index scan exactly when the first pending equality with its primary key, either way round, is with a literal or a parameter, cast or not, and then looks up that value with exactly the other predicates tested above it; otherwise it stays the scan |
| `FilterPushDownEffect.ScanStays` | cpp-reference/src/optimizer/filter_push_down_optimizer.cpp:180-208 | A scan of several tables, and one without an equality with its primary key, stays what it is, with the pending predicates above it |
| `FilterPushDownEffect.JoinExact` | cpp-reference/src/optimizer/filter_push_down_optimizer.cpp:78-136 | A cross product of plans that are visited correctly becomes an inner hash join exactly when some pending equality is between a column of each side and is not for one side alone; every such equality is a condition of the join, exactly the predicates that are neither such nor for one side alone are tested above it, and either way each side is visited with its own predicates |
| `FilterPushDownEffect.SidesExact` | cpp-reference/src/optimizer/filter_push_down_optimizer.cpp:84-97 | A pending predicate goes down the probe side exactly when that side can evaluate it and the other cannot, likewise down the build side, and remains otherwise |
| `FilterPushDownOptimizer.PredicateSet.AddPredicate` | cpp-reference/src/optimizer/filter_push_down_optimizer.cpp:277-283 | Equalities and other predicates are kept apart, in order |
| `FilterPushDownOptimizer.PredicateSet.PopNodePKEqualityComparison` | cpp-reference/src/optimizer/filter_push_down_optimizer.cpp:298-322 | Takes out the first key comparison, normalised, and leaves the others in order; none means nothing changed |
| `FilterPushDownOptimizer.Optimizer.VisitOperator` | cpp-reference/src/optimizer/filter_push_down_optimizer.cpp:26-76 | The visitor that consumes its predicate set returns the plan that the correctness theorem is about |
| `FilterPushDownOptimizer.Optimizer.Partition` | cpp-reference/src/optimizer/filter_push_down_optimizer.cpp:80-93 | The loop sorts the pending predicates into those of the probe side, of the build side and the rest |
| `FilterPushDownOptimizer.Optimizer.CollectJoinConditions` | cpp-reference/src/optimizer/filter_push_down_optimizer.cpp:104-120 | The loop turns equalities between the sides into join conditions, probe side first, and keeps the others |
| `FilterPushDownOptimizer.Optimizer.VisitCrossProductReplace` | cpp-reference/src/optimizer/filter_push_down_optimizer.cpp:78-136 | The cross product as rewritten with its visited children |
| `FilterPushDownOptimizer.Optimizer.VisitScanNodeTableReplace` | cpp-reference/src/optimizer/filter_push_down_optimizer.cpp:180-208 | The scan as rewritten, with what is left of the predicate set on top |
| `SemiMaskProof.SipCorrect` | cpp-reference/src/optimizer/acc_hash_join_optimizer.cpp:206-307 | A well-formed plan whose joins pass only node IDs that are their own keys, build to probe for inner joins only, to scans below operators that respect the keys and, where they are on a build side that is not that of an inner join or a regular cross product, under the condition given for `PassCorrect`, returns its rows unchanged, in order, whatever the masks let through beyond the keys |
| `SemiMaskProof.MaskedCorrect` | cpp-reference/src/optimizer/acc_hash_join_optimizer.cpp:158-237 | Under any masks that may reach its scans, such a plan returns rows that agree with its own on everything the masks allow |
| `SemiMaskProof.InnerMasked` | cpp-reference/src/optimizer/acc_hash_join_optimizer.cpp:239-307 | If both inputs of an inner join agree with the unmasked ones as far as their masks allow, so does the join, whichever way it passes masks |
| `SemiMaskProof.OuterMasked` | cpp-reference/src/optimizer/acc_hash_join_optimizer.cpp:239-263 | Inner, left, mark and count joins agree with the unmasked join as far as masks from above allow, when masks of join keys go from probe to build |
| `SemiMaskProof.LeftMasked` | cpp-reference/src/optimizer/acc_hash_join_optimizer.cpp:239-263 | A left join agrees with the unmasked one, as far as masks from above allow, also when masks on columns of its build side reach the scans there: the row of nulls is one that no mask allows |
| `SemiMaskProof.AccumulatedMasked` | cpp-reference/src/optimizer/acc_hash_join_optimizer.cpp:158-174 | So does the build side of an optional cross product |
| `SemiMaskProof.Unscanned` | cpp-reference/src/optimizer/acc_hash_join_optimizer.cpp:156-174 | Only masks of nodes that are scanned below have an effect |
| `SemiMaskPass.PassCorrect` | cpp-reference/src/optimizer/acc_hash_join_optimizer.cpp:127-133 | The bottom-up pass, with the masks it chooses, preserves the rows of a well-formed plan, provided each masked node is a key of both sides, operators between the join and a scan of it respect its keys, and where the scan is on the build side of a left join or an optional cross product it is a column there, of a mark or count join a key |
| `SemiMaskPass.PlainJoin` | cpp-reference/src/optimizer/acc_hash_join_optimizer.cpp:309-324 | A join of any type whose two sides consist of scans, filters, extends, inner and left joins and cross products, optional or not, and meet the proviso themselves, keeps its rows where the nodes it may mask are keys of both sides |
| `SemiMaskPass.PassSafe` | cpp-reference/src/optimizer/acc_hash_join_optimizer.cpp:309-324 | Under that proviso, what the pass chooses are node IDs that are keys of both sides, from build to probe only for inner joins, with only such operators before their scans |
| `SemiMaskPass.LimitCounterexample` | cpp-reference/src/optimizer/acc_hash_join_optimizer.cpp:279-307 | With a limit between the scan and the join, in a well-formed plan and with masks that let exactly the keys through, a join without rows returns one |
| `SemiMaskOperators.OperatorExact` | cpp-reference/src/optimizer/acc_hash_join_optimizer.cpp:158-237 | Every inner join on a node over an operator keeps its rows when the inputs of the operator are masked, for all inputs and all lists of keys, if and only if what the operator returns for some keys does not depend on the rows of other keys |
| `SemiMaskProof.RespectsMasks` | cpp-reference/src/optimizer/acc_hash_join_optimizer.cpp:158-237 | An operator that respects the keys of each node respects all masks together |
| `SemiMaskOperators.ProjectionRespects` | cpp-reference/src/optimizer/acc_hash_join_optimizer.cpp:158-237 | Projections, and other operators that work row by row and keep the node, respect its keys |
| `SemiMaskOperators.DistinctRespects` | cpp-reference/src/optimizer/acc_hash_join_optimizer.cpp:158-237 | So does distinct |
| `SemiMaskOperators.OrderByRespects` | cpp-reference/src/optimizer/acc_hash_join_optimizer.cpp:158-237 | So does a stable order-by |
| `SemiMask.CollectMaskedNodes` | cpp-reference/src/optimizer/acc_hash_join_optimizer.cpp:288-297 | The loop over the join node IDs keeps those with a scan on the other side |
| `SemiMaskChoice.ChoiceExact` | cpp-reference/src/optimizer/acc_hash_join_optimizer.cpp:239-324 | A join whose probe side is not accumulated and that is not prohibited passes masks from build to probe exactly when it is inner, that direction is forced or the build side has a filter or an index scan, and a node ID among its keys is scanned on the probe side; else, whatever its type, from probe to build exactly when that is not prohibited, the probe side has a filter or an index scan and such a node is scanned on the build side; the masks are of all such nodes, and otherwise the setting stays |
| `SemiMaskChoice.SelectiveExact` | cpp-reference/src/optimizer/acc_hash_join_optimizer.cpp:135-144 | A side is selective exactly when some operator in it is a filter or a scan by primary key |
| `SemiMaskChoice.PassVisitsAll` | cpp-reference/src/optimizer/acc_hash_join_optimizer.cpp:127-133 | In the plan that the pass returns every join has the choice that its sides there call for, and nothing but choices has changed |
| `GroupKeys.ResolveKeysAndDependentKeys` | cpp-reference/src/optimizer/agg_key_dependency_optimizer.cpp:42-88 | Kept and dependent keys are a rearrangement of the input, and each dependent key has a kept key that identifies its variable |
| `GroupKeys.DependentExact` | cpp-reference/src/optimizer/agg_key_dependency_optimizer.cpp:49-86 | A key is dependent exactly when it is a property or a pattern, is neither an internal ID nor a primary key on all tables, and some key of its variable is one of these; all other keys are kept |
| `GroupKeysProof.ReducibleExact` | cpp-reference/src/optimizer/agg_key_dependency_optimizer.cpp:42-88 | In every graph rows agree on the kept keys exactly when they agree on all keys, if and only if every dependent key has an internal ID beside it or a variable of one table |
| `GroupKeysProof.SameGroups` | cpp-reference/src/optimizer/agg_key_dependency_optimizer.cpp:27-39 | For such keys, grouping by the kept keys gives the same groups, in the same order |
| `GroupKeysProof.NotReducible` | cpp-reference/src/optimizer/agg_key_dependency_optimizer.cpp:58-75 | For any other keys and whatever the primary keys are, there are two rows that the reduction puts in one group wrongly |
| `GroupKeysProof.MultiLabelKeys` | cpp-reference/src/optimizer/agg_key_dependency_optimizer.cpp:64-72 | Two tables whose primary keys have one name are such a case |
| `CatalogSnapshots.SnapshotStable` | cpp-reference/src/catalog/catalog_set.cpp:65-221 | With one writer at a time: in every reachable state, and over any run of steps by others, failed renames included, a transaction finds the same version under every name |
| `CatalogSnapshots.StepUnseen` | cpp-reference/src/catalog/catalog_set.cpp:121-135 | In a guarded state, no begin, create, drop, alter, rename, commit or rollback by another transaction, conflicting or not, changes what a transaction finds |
| `CatalogSnapshots.RunValid` | cpp-reference/src/catalog/catalog_set.cpp:65-208 | Runs of safe steps keep the invariant: the undo records of a transaction are about exactly the versions it wrote |
| `CatalogReachable.ReachableVisible` | cpp-reference/src/catalog/catalog_set.cpp:121-135 | In every state that a run reaches from an empty or a restored catalog, conflicts and failed renames included, every chain has a version that every running transaction sees |
| `CatalogReachable.RunBounded` | cpp-reference/src/catalog/catalog_set.cpp:65-221 | Every run keeps the bounds: the last version of a chain has timestamp zero, every other timestamp is a commit time that has passed or the ID of a transaction that has begun, and live entries have OIDs that were given out |
| `CatalogSnapshots.StepExact` | cpp-reference/src/catalog/catalog_set.cpp:65-208 | A step keeps the invariant if and only if it is safe: drops find no uncommitted version of another transaction on top, alters and renames no conflict, and a rename that begins also ends |
| `CatalogSnapshots.HarmlessStable` | cpp-reference/src/catalog/catalog_set.cpp:65-221 | With several writers, a condition on the steps of a run that is enough: drops do not go on top of another transaction's uncommitted version and alters and renames have only remains of ended transactions above the version they are about; renames may fail |
| `CatalogStability.SnapshotExact` | cpp-reference/src/catalog/catalog_set.cpp:65-221 | With any number of writers, from every reachable state and over every run of steps by others, a transaction finds the same version under a name if and only if no commit or rollback of the run takes it: has, when it gets to it, an undo record for the version below |
| `CatalogStability.StepStableExact` | cpp-reference/src/storage/undo_buffer.cpp:164-270 | For one step: a version that is not taken is found as before, and one that is taken is lost |
| `CatalogStability.OrderedTakenOut` | cpp-reference/src/storage/undo_buffer.cpp:171-270 | A rollback whose records for the chain are in order takes out a version if and only if a record names the one below |
| `CatalogStability.GuardedTakesNone` | cpp-reference/src/storage/undo_buffer.cpp:164-270 | In guarded states, which are all reachable ones with one writer, nothing is taken |
| `CatalogGuards.SingleWriterHarmless` | cpp-reference/src/transaction/transaction_manager.cpp:33-47 | With one writer at a time every step is of that kind |
| `CatalogGuards.StepGuarded` | cpp-reference/src/storage/undo_buffer.cpp:164-176 | Such steps keep the guard: above the version that an undo record names there are only versions of its transaction and of ended ones, and later records name newer versions |
| `CatalogSnapshots.UndoDefined` | cpp-reference/src/storage/undo_buffer.cpp:199-270 | In guarded states, what commit and rollback assert of each record as they get to it holds: it finds its version, with one above |
| `CatalogSnapshots.WriteUnseen` | cpp-reference/src/catalog/catalog_set.cpp:65-208 | In every reachable state, no write of another transaction is seen |
| `CatalogSnapshots.SafeHarmless` | cpp-reference/src/catalog/catalog_set.cpp:65-208 | Where the invariant holds, safe steps are harmless |
| `CatalogSnapshots.SingleWriterSafe` | cpp-reference/src/transaction/transaction_manager.cpp:33-47 | With one writer at a time, a step keeps the invariant if and only if it is not a rename that fails halfway |
| `CatalogInvariant.ConflictExact` | cpp-reference/src/catalog/catalog_set.cpp:26-31 | A transaction has a write conflict with exactly the versions it does not see |
| `CatalogInvariant.NeverStillThere` | cpp-reference/src/catalog/catalog_set.cpp:81-97 | In a valid state the second existence test of a create, after the conflict test, never fails |
| `CatalogInvariant.SingleWriterNoConflict` | cpp-reference/src/transaction/transaction_manager.cpp:33-47 | A single writer never meets a conflict |
| `CatalogSteps.CreateValid` | cpp-reference/src/catalog/catalog_set.cpp:65-103 | A create, successful or not, keeps the invariant |
| `CatalogSteps.DropExact` | cpp-reference/src/catalog/catalog_set.cpp:147-169 | A drop keeps the invariant if and only if there is nothing to drop or the top of the chain is committed or the transaction's own |
| `CatalogSteps.AlterValid` | cpp-reference/src/catalog/catalog_set.cpp:171-203 | An alter without a conflict on top keeps the invariant |
| `CatalogSteps.AlterExact` | cpp-reference/src/catalog/catalog_set.cpp:171-203 | An alter keeps the invariant if and only if there is nothing to alter or the top of the chain is no conflict |
| `CatalogSteps.RenameValid` | cpp-reference/src/catalog/catalog_set.cpp:183-192 | A rename without a conflict that ends keeps the invariant |
| `CatalogTransactions.CommitEntries` | cpp-reference/src/storage/undo_buffer.cpp:164-204 | Committing the undo records relabels exactly the versions of the transaction with the commit time |
| `CatalogTransactions.RollbackEntries` | cpp-reference/src/storage/undo_buffer.cpp:171-270 | Rolling back the undo records, last first, removes exactly the versions of the transaction, which are on top |
| `CatalogTransactions.CommitValid` | cpp-reference/src/transaction/transaction_manager.cpp:56-81 | A commit keeps the invariant |
| `CatalogTransactions.RollbackValid` | cpp-reference/src/transaction/transaction_manager.cpp:86-102 | A rollback keeps the invariant |
| `CatalogTransactions.BeginValid` | cpp-reference/src/transaction/transaction_manager.cpp:20-54 | A transaction that may begin keeps the invariant |
| `CatalogOutcomes.BeginOutcome` | cpp-reference/src/transaction/transaction_manager.cpp:20-54 | In every reachable state a transaction is refused exactly when it wants to write, one writer is allowed and there is one; otherwise it gets an ID above all others, has written nothing, finds of every name exactly the live committed version, and everything else is as before |
| `CatalogOutcomes.CreateOutcome` | cpp-reference/src/catalog/catalog_set.cpp:65-103 | In every reachable state a create succeeds exactly when the transaction finds no entry of the name and there is no chain or it sees the top of it; otherwise the error is that the entry exists, if it finds one, or else a write conflict, and only the OID is used up |
| `CatalogOutcomes.SingleWriterCreates` | cpp-reference/src/catalog/catalog_set.cpp:65-103 | With one writer at a time, in a valid state, a create succeeds exactly when the writer finds no entry of the name |
| `CatalogOutcomes.DropOutcome` | cpp-reference/src/catalog/catalog_set.cpp:147-169 | A drop succeeds exactly when the transaction finds the entry; otherwise it is not found and nothing changes |
| `CatalogOutcomes.AlterOutcome` | cpp-reference/src/catalog/catalog_set.cpp:171-208 | An alter succeeds exactly when the transaction finds the entry; otherwise it is not found and nothing changes |
| `CatalogOutcomes.RenameOutcome` | cpp-reference/src/catalog/catalog_set.cpp:171-208 | In every reachable state a rename succeeds exactly when the transaction finds the entry and the new name is the old one or one under which it could create an entry; otherwise the error is that the entry is not found, that the new name exists or a write conflict, in this order |
| `CatalogProperties.CreateSeen` | cpp-reference/src/catalog/catalog_set.cpp:65-103 | After a successful create the creator sees the new entry, under a new OID, and everything else as before |
| `CatalogProperties.DropSeen` | cpp-reference/src/catalog/catalog_set.cpp:147-169 | After a successful drop the dropper no longer sees the entry, and everything else as before |
| `CatalogProperties.AlterSeen` | cpp-reference/src/catalog/catalog_set.cpp:171-203 | After a successful alter its transaction sees the change, under the same OID, and everything else as before |
| `CatalogProperties.RenameSeen` | cpp-reference/src/catalog/catalog_set.cpp:183-192 | After a successful rename its transaction sees the entry, with its OID and content, under the new name, nothing under the old one, and everything else as before |
| `CatalogProperties.ValidPublishes` | cpp-reference/src/storage/undo_buffer.cpp:199-204 | Where the invariant holds, transactions that begin after a commit find what the writer saw under the names it wrote |
| `CatalogStability.CommitPublishes` | cpp-reference/src/storage/undo_buffer.cpp:199-204 | In every reachable state, transactions that begin after a commit find the newest version of a chain that the writer wrote if and only if a record of the writer names the version below; then they find what the writer saw |
| `CatalogStability.AlterLosesEntry` | cpp-reference/src/storage/undo_buffer.cpp:199-204 | On a tombstone that an ended transaction left, a writer that sees the version below alters it: it sees its change, and after its commit every later transaction finds no entry |
| `CatalogProperties.RenameAtomic` | cpp-reference/src/catalog/catalog_set.cpp:171-208 | In every reachable state, after a successful rename to a name without a chain the renamer sees the entry under the new name only; every other transaction sees what it saw under the old name and nothing under the new one |
| `CatalogLookups.RenameByOID` | cpp-reference/src/catalog/catalog_set.cpp:223-237 | In orderly runs (drops pass the OID that is seen, nothing meets a conflict, renames end), after a rename to a name without a chain the OID leads the renamer to the new name only, and another transaction that sees the old name to that only, where above no entry that they see another one has arrived; with one writer at a time this is asked of the other transaction alone |
| `CatalogLookups.OidLookupExact` | cpp-reference/src/catalog/catalog_set.cpp:223-237 | In every state that an orderly run reaches, lookups by OID find exactly what is live under the OID if and only if above no live entry that is seen another one has arrived last, by a create or a rename into its chain after a deletion |
| `CatalogLookups.OidLookupEvents` | cpp-reference/src/catalog/catalog_set.cpp:223-237 | After any run, with conflicts and failed renames, lookups by OID find exactly what is live under the OID if and only if above no live entry that is seen the last event (an arrival, a tombstone of another entry, a version of another entry) has brought the OID of another one |
| `CatalogLookups.OrderlyEvents` | cpp-reference/src/catalog/catalog_set.cpp:65-208 | In orderly runs every such event is an arrival |
| `CatalogLookups.LookupLost` | cpp-reference/src/catalog/catalog_set.cpp:223-237 | After an orderly step of another transaction that is no rollback, an entry that was found by its OID is no longer found if and only if the step creates an entry of that name or renames one with another OID to it |
| `CatalogLookups.OneFound` | cpp-reference/src/catalog/catalog_set.cpp:223-237 | Where above no entry that a transaction sees another one has arrived, the OID of a live entry leads to its name only |
| `CatalogLookups.RenameFound` | cpp-reference/src/catalog/catalog_set.cpp:223-237 | After a rename to a name without a chain, the OID leads the renamer to the new name only if and only if it led it to no name but the old one before; and it leads another transaction that sees the old name to that only if and only if it did so before |
| `CatalogOids.LiveUnique` | cpp-reference/src/catalog/catalog_set.cpp:65-221 | In every state that a safe run reaches, no transaction sees two live entries with one OID |
| `CatalogOids.RestoredApart` | cpp-reference/src/catalog/catalog_set.cpp:268-283 | This holds of a catalog that was written out in such a state and read back |
| `CatalogLookups.RecreateHidesOid` | cpp-reference/src/catalog/catalog_set.cpp:223-237 | In every reachable state, after a writer drops a name and creates it again, another transaction finds its old entry by name but not by its OID, and finds it by the new OID |
| `CatalogLookups.RenameHidesOid` | cpp-reference/src/catalog/catalog_set.cpp:223-237 | After a writer drops an entry and renames a second one to its name, another transaction that sees both finds the OID of the second one under both names |
| `CatalogLookups.RenamedBack` | cpp-reference/src/catalog/catalog_set.cpp:223-237 | After a writer renames an entry and renames it back, an arrival is above the version that others see, and they find it by its OID as before |
| `CatalogProperties.CheckpointExact` | cpp-reference/src/catalog/catalog_set.cpp:137-145 | Writing out in any reachable state, whatever is uncommitted or was left behind, and reading back gives every transaction, under every name, the entry that a transaction beginning at that moment finds |
| `CatalogProperties.RestoredStart` | cpp-reference/src/catalog/catalog_set.cpp:268-283 | The set that is read back is a catalog to start with |
| `CatalogProperties.AlterRecordExact` | cpp-reference/src/catalog/catalog_set.cpp:177-201 | In every reachable state, the undo record of an alter is about the new version if and only if the top of the chain is no write conflict |
| `CatalogProperties.LostUpdate` | cpp-reference/src/storage/undo_buffer.cpp:199-204 | Where a transaction without earlier writes alters an entry that another one has changed, its commit gives the commit time to the change of the other, leaves its own version unpublished, and the other finds another version than the one it wrote |
| `CatalogProperties.DanglingRecord` | cpp-reference/src/storage/undo_buffer.cpp:253-270 | A drop over an uncommitted change has an undo record whose version is gone once that change is rolled back |
| `CatalogSteps.RenameExact` | cpp-reference/src/catalog/catalog_set.cpp:183-192 | A rename keeps the invariant if and only if there is nothing to rename, or the top of the chain is no conflict and both halves succeed |
| `CatalogProperties.FailedRenameStays` | cpp-reference/src/catalog/catalog_set.cpp:183-192 | The tombstone that a failed rename, alone in its transaction, leaves survives the rollback and is a write conflict for every other transaction |
| `CatalogSet.CatalogSet.TraverseVersionChains` | cpp-reference/src/catalog/catalog_set.cpp:121-135 | The loop returns the newest version the transaction wrote or that was committed when it began |
| `CatalogSet.CatalogSet.GetEntry` | cpp-reference/src/catalog/catalog_set.cpp:38-63 | The live entry under a name, if the visible version is not deleted |
| `CatalogSet.CatalogSet.CreateEntry` | cpp-reference/src/catalog/catalog_set.cpp:65-103 | Entries, next OID, error and undo record are those of the create whose success `CreateOutcome` and whose effect `CreateSeen` states |
| `CatalogSet.CatalogSet.DropEntry` | cpp-reference/src/catalog/catalog_set.cpp:147-169 | Entries, error and undo record are those of the drop of `DropOutcome` and `DropSeen` |
| `CatalogSet.CatalogSet.AlterTableEntry` | cpp-reference/src/catalog/catalog_set.cpp:171-203 | Entries, error and undo record are those of the alter of `AlterOutcome` and `AlterSeen` |
| `CatalogSet.CatalogSet.RenameTableEntry` | cpp-reference/src/catalog/catalog_set.cpp:183-192 | Entries, error and undo records are those of the rename whose success `RenameOutcome` and whose effect `RenameSeen` states, including the state a failure leaves |
| `CatalogSet.CatalogSet.CommitUndo` | cpp-reference/src/storage/undo_buffer.cpp:164-169 | The loop commits every record in the order of the buffer |
| `CatalogSet.CatalogSet.RollbackUndo` | cpp-reference/src/storage/undo_buffer.cpp:171-176 | The loop rolls back every record in the opposite order |
| `CatalogSet.CatalogSet.GetEntryOfOID` | cpp-reference/src/catalog/catalog_set.cpp:223-237 | Whatever the order of the chains, the result is a live entry of a chain whose top has the OID, and none when there is no such chain |
| `CatalogSet.CatalogSet.SerializeEntries` | cpp-reference/src/catalog/catalog_set.cpp:239-266 | The loop writes the committed live entry of each chain |
| `CatalogSet.CatalogSet.DeserializeEntries` | cpp-reference/src/catalog/catalog_set.cpp:268-283 | The loop emplaces what was written, with timestamps of zero |
| `NullMask.CopyNullMask` | cpp-reference/src/common/null_mask.cpp:23-71 | On every path, bits in range become the (inverted) source bits and all others stay, except that copies of up to three bits read and write at positions cut to 32 bits; the flag tells whether a copied bit is null, or, for a short copy, whether one of the bits it read is |
| `NullMask.CopyUnaligned` | cpp-reference/src/common/null_mask.cpp:73-135 | The word-wise loop copies exactly the bits in range, for all offsets and lengths, and reports whether a copied bit is null |
| `NullMask.CopyByteAligned` | cpp-reference/src/common/null_mask.cpp:36-68 | First bits, whole bytes and last bits together copy the range |
| `NullMask.CopyShort` | cpp-reference/src/common/null_mask.cpp:27-35 | The bit-by-bit path with positions cut to 32 bits, its flag included, and the exact copy where none is cut |
| `NullMask.ShortCopyExact` | cpp-reference/src/common/null_mask.cpp:27-35 | The short path is right for all contents if and only if no position needs more than 32 bits |
| `NullMask.ShortFlagExact` | cpp-reference/src/common/null_mask.cpp:28-34 | What the short path returns tells, for all contents, whether a bit of an exact copy is null if and only if nothing is copied, or nothing is inverted and no position that is read is cut to 32 bits |
| `NullMask.SetNull` | cpp-reference/src/common/null_mask.cpp:13-21 | Sets or clears exactly one bit |
| `NullMaskRange.SetNullRange` | cpp-reference/src/common/null_mask.cpp:164-207 | Changes exactly the bits of the range, across first, middle and last words |
| `NullMaskRange.GetMinMax` | cpp-reference/src/common/null_mask.cpp:216-278 | Whether all bits of a range are set and whether some bit is; neither for an empty range |
| `NullMaskRange.CountNulls` | cpp-reference/src/common/null_mask.cpp:280-288 | The number of set bits |
| `Md5Stream.MD5.MD5Update` | cpp-reference/src/common/md5.cpp:139-181 | After any update the context is the fold of the compression function over all full blocks of the message so far, the buffered remainder and the bit length modulo 2^64 |
| `Md5Stream.MD5.MD5Init` | cpp-reference/src/common/md5.cpp:129-137 | The context of the empty message |
| `Md5Stream.MD5.MD5Final` | cpp-reference/src/common/md5.cpp:183-218 | The digest of the message padded as in sections 3.1 and 3.2 of RFC 1321, whatever the compression function; the context is cleared |
| `Md5Stream.MD5.FinishMD5` | cpp-reference/src/include/common/md5.h:82-93 | The base-16 text, as `DigestText` states it, of the digest of everything added since the last result, however it was divided: that of RFC 1321 when the blocks go through the transform; the last result when nothing was added |
| `Md5Stream.DigestText` | cpp-reference/src/common/md5.cpp:220-230 | The text of the digest of any message is 32 characters from 0 to 9 and a to f, and characters 2i and 2i + 1 are the high and the low digit of byte i |
| `Md5Stream.Base16Exact` | cpp-reference/src/common/md5.cpp:220-230 | The same of any sequence of bytes |
| `Md5Stream.OutputWords` | cpp-reference/src/common/md5.cpp:213-216 | Read as words, low-order byte first, the digest is the words A, B, C and D of the state |
| `Md5Stream.MD5.AddToMD5` | cpp-reference/src/include/common/md5.h:71-80 | Adding text extends the message, starting a new one after a result |
| `Md5Stream.CounterStep` | cpp-reference/src/common/md5.cpp:145-150 | The two counter words, with carry, hold the bit length modulo 2^64 |
| `Md5Stream.PadTwoBlocks` | cpp-reference/src/common/md5.cpp:195-205 | With a remainder of 56 bytes or more, the padded message is absorbed as one block that ends in zeros and one that ends in the length |
| `Md5.TransformIsCompress` | cpp-reference/src/common/md5.cpp:49-127 | The 64 lines with their own constants, shifts, message words and fixed registers are the compression function of section 3.4 of RFC 1321 |
| `Md5.FourSteps` | cpp-reference/src/common/md5.cpp:46-71 | Four lines that assign to fixed registers in turn are four steps with the roles passed on |
| `Md5.AuxiliaryForms` | cpp-reference/src/common/md5.cpp:40-44 | The optimised auxiliary functions are those of RFC 1321 |
| `ByteOrder.ReadAfterReverse` | cpp-reference/src/common/md5.cpp:31-38 | On a host of either byte order, words read after the reversal are the little-endian words of the message |
| `ByteOrder.DigestAfterReverse` | cpp-reference/src/common/md5.cpp:208-217 | On a host of either byte order, the digest bytes after the reversal are those of RFC 1321 |
| `ListStoreProof.SpacedRoundTrip` | cpp-reference/src/function/cast_from_string_functions.cpp:301-409 | Any nested list over plain tokens, nulls allowed, printed and then spread with any white space around its brackets, commas and elements, at every depth, is accepted by any vector of its type, changes no other value of the vector, and reads as itself if and only if no list in it is one null |
| `ListStoreProof.RoundTrip` | cpp-reference/src/function/cast_from_string_functions.cpp:301-409 | The same of the printed text itself, and of a single token |
| `ListStoreProof.ParseWritten` | cpp-reference/src/function/cast_from_string_functions.cpp:301-409 | Any text of nested lists with any white space, whose elements are words with blanks and double quotes inside, single-quoted text, double-quoted text and braces with commas in them, the word null in any case, or nothing, is accepted and reads as the value it stands for; nothing else changes |
| `ListStoreProof.CopyPrinted` | cpp-reference/src/function/cast_from_string_functions.cpp:882-888 | A printed value is accepted and stored as itself with every list of one null emptied |
| `ListStoreProof.CopyFrame` | cpp-reference/src/function/cast_from_string_functions.cpp:388-409 | Storing any text that is accepted, however nested, changes no other value of the vector |
| `ListStoreProof.AcceptedIsList` | cpp-reference/src/function/cast_from_string_functions.cpp:301-349 | Any text that a list vector accepts stands for null, or begins and ends with brackets when trimmed |
| `ListStoreProof.NullWritten` | cpp-reference/src/function/cast_from_string_functions.cpp:251-269 | Text written so stands for null exactly when the value it is written for is null |
| `ListTextProof.SplitWritten` | cpp-reference/src/function/cast_from_string_functions.cpp:301-349 | Such a list is split into the texts of its elements, without the white space before each; brackets with only white space between them give none |
| `ListTextProof.SplitWord` | cpp-reference/src/function/cast_from_string_functions.cpp:301-349 | A word at the start of an element is passed over whole: commas, brackets and braces between single quotes, and commas between double quotes or braces, do not split it |
| `ListTextProof.SplitLosesNothing` | cpp-reference/src/function/cast_from_string_functions.cpp:301-349 | Of any text that is a list, the brackets, the parts with a comma and white space between them, and white space around, are all there is |
| `ListTextProof.CloseItems` | cpp-reference/src/function/cast_from_string_functions.cpp:223-249 | The bracket that closes the elements of such a list, nested brackets, quotes and braces passed over, is found one level down |
| `ListTextProof.CloseLevel` | cpp-reference/src/function/cast_from_string_functions.cpp:223-249 | For any text, where a bracket or brace closes, the target stands and the level is one lower after a bracket, the same after a brace |
| `ListTextProof.SkipSpacesExact` | cpp-reference/src/function/cast_from_string_functions.cpp:180-193 | White space and nothing else is passed over, up to the end or a character that is none |
| `ListTextProof.SpacesAre` | cpp-reference/src/function/cast_from_string_functions.cpp:180-193 | White space is the blank, tab, line feed, vertical tab, form feed and carriage return |
| `ListTextProof.TrimExact` | cpp-reference/src/function/cast_from_string_functions.cpp:195-199 | A text is white space, the trimmed text, and white space, and the trimmed text neither begins nor ends with white space |
| `ListTextProof.IsNullExact` | cpp-reference/src/function/cast_from_string_functions.cpp:251-269 | A text stands for null exactly when it is, trimmed, empty or the word null in any case |
| `ListTextProof.NormalizedExact` | cpp-reference/src/common/type_utils.cpp:183-197 | Emptying lists of one null changes a value other than a struct exactly when it has one |
| `ListCast.ListToString` | cpp-reference/src/common/type_utils.cpp:183-197 | The loop over a list entry prints the list that is stored there |
| `ListCast.EntryToString` | cpp-reference/src/common/type_utils.cpp:104-110 | The text of the value at a position, nothing for null |
| `ListCast.SkipToClose` | cpp-reference/src/function/cast_from_string_functions.cpp:223-249 | The recursive loop finds the closing character and the level there, or none |
| `ListCast.SplitCStringList` | cpp-reference/src/function/cast_from_string_functions.cpp:301-349 | The parts handed on, which counting and filling share, and whether the text is a list, as `SplitWritten` and `SplitLosesNothing` state them |
| `ListCast.CopyStringToVector` | cpp-reference/src/function/cast_from_string_functions.cpp:861-888 | The vector after a text was stored at a position, as `ParseWritten` states it, or none when it is not of the type |
| `ListCast.FillParts` | cpp-reference/src/function/cast_from_string_functions.cpp:285-299 | The loop stores the parts, trimmed as `TrimExact` states, one after the other |
| `ListCast.IsNullText` | cpp-reference/src/function/cast_from_string_functions.cpp:251-269 | Whether a text stands for null, which `IsNullExact` states |
| `NestedOrder.Trichotomy` | cpp-reference/src/function/comparison_functions.cpp:104-222 | For a strict total order of the leaves, of two values of one type exactly one of greater, equal and less holds |
| `NestedOrder.Transitive` | cpp-reference/src/function/comparison_functions.cpp:166-222 | For a strict total order of the leaves, greater-than is transitive on the values of one type |
| `NestedOrder.NullLargest` | cpp-reference/src/function/comparison_functions.cpp:166-173 | Null is larger than every other value, and nothing is larger than null |
| `NestedOrder.LeafOrder` | cpp-reference/src/function/comparison_functions.cpp:166-184 | Leaves that are not null are ordered as their type says |
| `NestedOrder.Lexicographic` | cpp-reference/src/function/comparison_functions.cpp:186-222 | Lists and structs are ordered like their elements at the first difference; if there is none, one is greater exactly when the other is a proper prefix of it |
| `NestedCompare.NestedEqual` | cpp-reference/src/function/comparison_functions.cpp:104-113 | Decides equality of the stored values, null being equal to null only |
| `NestedCompare.ListEquals` | cpp-reference/src/function/comparison_functions.cpp:115-133 | Decides equality of lists, whatever their offsets |
| `NestedCompare.NestedGreaterThan` | cpp-reference/src/function/comparison_functions.cpp:166-184 | Decides equality and the order that `NullLargest`, `LeafOrder` and `Lexicographic` state |
| `NestedCompare.ListGreaterThan` | cpp-reference/src/function/comparison_functions.cpp:186-204 | Decides that order for lists, whatever their offsets |
| `NestedCompare.StructGreaterThan` | cpp-reference/src/function/comparison_functions.cpp:206-222 | Decides that order for structs |
| `NestedHash.EqualHashAlike` | cpp-reference/src/function/vector_hash_functions.cpp:123-202 | Equal values of one type at such positions hash alike, whatever the offsets, the neighbours and the vectors |
| `NestedHash.HashExact` | cpp-reference/src/function/vector_hash_functions.cpp:147-202 | When leaves and combinations never collide, two values of a type have one hash exactly when they are equal, null lists taken for empty ones and null structs for structs of nulls: every element, every member and their order count |
| `NestedHash.HashOrder` | cpp-reference/src/function/vector_hash_functions.cpp:147-198 | Null hashes to 2^64 - 1; elements are combined into the hash of what came before, starting from that of null; a member is combined with the hash of those before it on its right |
| `NestedHash.HashIsOfValue` | cpp-reference/src/function/vector_hash_functions.cpp:147-202 | However leaves are hashed and hashes combined, the hash at a position is a function of the value there and its type, if and only if at every null struct that is reached from it leaf members are null, list members null or empty, and struct members likewise |
| `NestedHash.NullStructsDiffer` | cpp-reference/src/function/vector_hash_functions.cpp:185-198 | Null structs over members that are not null may hash differently |
| `NestedHash.ComputeHash` | cpp-reference/src/function/vector_hash_functions.cpp:204-226 | Every selected value is hashed to its result position, and no other position changes |
| `NestedHash.ComputeDataVecHash` | cpp-reference/src/function/vector_hash_functions.cpp:123-145 | Chunks of at most the vector capacity together hash every value of the data vector |
| `NestedHash.FinalizeDataVecHash` | cpp-reference/src/function/vector_hash_functions.cpp:147-164 | Given the hashes of the data vector, every selected list is hashed to its result position, and no other position changes |
| `NestedHash.ComputeStructVecHash` | cpp-reference/src/function/vector_hash_functions.cpp:185-198 | Every selected struct is hashed, field by field, to its result position, and no other position changes |
| `ListSlices.EvaluateSlices` | cpp-reference/src/expression_evaluator/lambda_evaluator.cpp:54-67 | The loop ends; its slices, one after the other, are the elements of the selected lists in offset order, and all but the last are full |
| `ListSlices.ElementsCount` | cpp-reference/src/expression_evaluator/list_slice_info.cpp:25-49 | Each element of a selected list that is not null occurs as often as its list is selected, with the position of that list, and nothing else occurs |
| `ListSlices.ElementsOrdered` | cpp-reference/src/expression_evaluator/list_slice_info.cpp:13-21 | The lists come by ascending offset |
| `ListSlices.ElementsConsecutive` | cpp-reference/src/expression_evaluator/list_slice_info.cpp:25-36 | Each element is followed by the next one of its list, and the last one of a list by the first one of another |
| `ListSlices.ListSliceInfo.UpdateSelVector` | cpp-reference/src/expression_evaluator/list_slice_info.cpp:91-103 | A slice is the next part of what remains, full unless it is the last |
| `ListSlices.ListEntryTracker.constructor` | cpp-reference/src/expression_evaluator/list_slice_info.cpp:10-23 | The selected positions sorted by offset; all their elements remain |
| `ListSlices.ListEntryTracker.GetNextDataOffset` | cpp-reference/src/expression_evaluator/list_slice_info.cpp:25-36 | Moves past exactly the current element |
| `ListSlices.ListEntryTracker.UpdateListEntry` | cpp-reference/src/expression_evaluator/list_slice_info.cpp:38-49 | Skips null and empty lists only |
| `CaseEvaluator.CaseExpressionEvaluator.Evaluate` | cpp-reference/src/expression_evaluator/case_evaluator.cpp:27-49 | Every selected position gets the value of its first true alternative, else the default, for any mix of flat and unflat inputs and despite the early exit; no other position changes |
| `CaseEvaluator.CaseFirst` | cpp-reference/src/expression_evaluator/case_evaluator.cpp:27-49 | The value of a row is that of the alternative whose condition is the first true one, and the default when none is |
| `CaseEvaluator.AllFilled` | cpp-reference/src/expression_evaluator/case_evaluator.cpp:43-45 | When as many positions are filled as are selected, all selected ones are |
| `CaseEvaluator.AlternativeFills` | cpp-reference/src/expression_evaluator/case_evaluator.cpp:29-42 | An alternative that fills the positions where it is true advances the row-wise meaning by one |
| `CaseEvaluator.CaseExpressionEvaluator.FillSelected` | cpp-reference/src/expression_evaluator/case_evaluator.cpp:82-105 | Exactly the given positions that were not filled are filled |
| `CaseEvaluator.SelectInternal` | cpp-reference/src/expression_evaluator/case_evaluator.cpp:51-68 | For a selection no longer than that of the result, the in-place compaction moves the chosen positions to the front of the buffer, in order, and leaves the rest of the buffer beyond the selection alone |
| `CaseEvaluator.ChosenIsFilter` | cpp-reference/src/expression_evaluator/case_evaluator.cpp:55-66 | On the selection of the result, that is a stable filter |
| `Find.FindNeedle` | cpp-reference/src/function/find_function.cpp:95-127 | For every non-empty needle, the leftmost occurrence, and -1 exactly when there is none |
| `Find.UnalignedNeedleSizeFind` | cpp-reference/src/function/find_function.cpp:10-42 | The window shifted through a word finds the leftmost occurrence |
| `Find.AlignedNeedleSizeFind` | cpp-reference/src/function/find_function.cpp:44-58 | Loading a word at every offset finds the leftmost occurrence |
| `Find.GenericFind` | cpp-reference/src/function/find_function.cpp:60-91 | The rolling sum modulo 2^32 never rules out an occurrence, and the leftmost one is found |
| `Find.FromFirstByte` | cpp-reference/src/function/find_function.cpp:97-102 | A search from the first occurrence of the first byte misses nothing |
| `Find.Operation` | cpp-reference/src/include/function/string/functions/find_function.h:12-20 | The position counted from one, zero when there is none; for an empty needle, the position of the byte that follows the needle |
| `Decimal.AddExact` | cpp-reference/src/function/vector_arithmetic_functions.cpp:496-505 | Addition throws exactly when the true sum reaches the power of ten, is exact otherwise, and nothing computed on the way overflows |
| `Decimal.SubtractExact` | cpp-reference/src/function/vector_arithmetic_functions.cpp:520-529 | The same of subtraction |
| `Decimal.MultiplyExact` | cpp-reference/src/function/vector_arithmetic_functions.cpp:541-564 | A product has a type exactly when the precisions of its operands add up to less than 38. Then multiplication never overflows, fits precision and storage, and is exact: the result at its scale is the product of the operands at theirs |
| `Decimal.FloorExact` | cpp-reference/src/function/vector_arithmetic_functions.cpp:635-648 | The floor is the mathematical one |
| `Decimal.CeilExact` | cpp-reference/src/function/vector_arithmetic_functions.cpp:656-669 | The ceiling is the mathematical one |
| `Decimal.RoundingFits` | cpp-reference/src/function/vector_arithmetic_functions.cpp:632-672 | Rounding overflows nowhere and its result has the precision of the operand |
| `Decimal.ParamsValid` | cpp-reference/src/function/vector_arithmetic_functions.cpp:507-563 | Result types of sums, and of products that have one, have 0 <= scale <= precision <= 38, and sums have no more digits before the point than their operands; which types they are is stated by `CarryGoesToFraction` and `MultiplyExact` |
| `Decimal.CarryGoesToFraction` | cpp-reference/src/function/vector_arithmetic_functions.cpp:507-514 | Below the limit, the digit a sum gains is one of its fraction; at the limit, the precision is 38, the scale the larger one of the operands, and what is left are the digits before the point |
| `Decimal.CarryThrows` | cpp-reference/src/function/vector_arithmetic_functions.cpp:496-539 | Below the precision limit, the sum or the difference of numbers of any two types throws if and only if it needs one more digit before the point than the wider of them has |

## Left out

- Filter push-down: operators are values, so changing a shared operator or a shared predicate in place is not captured.
- Zone-map predicates on scans, extends and table functions, which do not change rows.
- Recursive extends as mask targets and as a reason to qualify a build side; intersections; path and graph-algorithm masks.
- PassCorrect: the condition is exact for an operator below an inner join (`OperatorExact`); for what else lies between a join and a scan it is sufficient.
- CollectMaskedNodes: recursive extends, which are tried as targets before scans, are not modelled.
- The accumulate operator that a probe-to-build join puts on its probe side, which only materialises rows.
- Locks, the write-ahead log and storage versions; the data of tables under a rolled-back or dropped entry.
- SerializeEntries: function entries in the catalog, which are not written out, are not modelled.
- HarmlessStable: the condition on the steps is sufficient only; the exact one, on what their undo records name, is that of `SnapshotExact`.
- OidLookupExact: runs with conflicts or failed renames are covered by `OidLookupEvents` only, which does not say which of its events single-writer runs have.
- ReachableVisible, CheckpointExact, SnapshotExact: a commit or rollback whose undo record has lost its version, against which the code asserts, leaves the chain alone; `UndoDefined` says when that cannot happen.
- CopyStringToVector: a leaf is stored as its text, and array lengths are not validated.
- ParseWritten: brackets, braces and single quotes between double quotes are not covered; the code lets double quotes protect them in the innermost list only.
- Maps, structs and unions as text, string leaves, and lists without brackets.
- ComputeHash: nodes and relationships, hashed by their ID alone, are not modelled, and structs have a member.
- ComputeStructVecHash: likewise.
- Order and hash of floating-point numbers; field names of structs, which the type comparison covers.
- The evaluation of lambda bodies and of the conditions and results of CASE: they are parameters.
- SelectInternal: the values of the result are a parameter; `KU_ASSERT` demands selections of equal, non-zero size, of which only what the loop needs is required.
- The order std::sort gives to lists of equal offset: some sorted order is taken, and the proofs hold for any.
- Case folding of entry names: names are equal when their characters are.
- Loads of whole words in the substring search are sequences of bytes, so alignment and host byte order do not appear there.
- Division and modulo of DECIMAL numbers, and casts between DECIMAL types.
- Operation: the byte that follows an empty needle is a parameter.
- C and Python interfaces, parser, binder, planner, storage and settings.
