# Verified model of the contract compiler and its healer

This project models the parts of the system where several pieces have to agree, and proves
what they promise together: the compiler's dependency graph and its two algorithms, schema
evolution from the differ to the migration runner that every generated worker executes, the
IR passes and the semantic validator, the healer's ticket protocol with its limiter, its
spend governor, its contract writer and its tokens, and the normaliser, scanners and
extracted workflows around them.

Where the original keeps state in objects, the model is a class with the same fields (the
graph, its heap, the IR objects, the ticket table, the limiter, the pipeline); loops are
loops, proved against functions about which the theorems are then stated. What many processes
do to one database is a state machine whose steps are single committed statements, and every
theorem about it is about all runs.

## How it is organised

| files | part of the system |
|---|---|
| `Fqns`, `MinHeap`, `Digraph`, `DependencyGraph`, `ContractGraph`, `ContractDependencies`, `ContractMentions` | dependency lists, cycle search, compilation order |
| `Schema`, `Differ`, `MigrationRunner` | tables, the differ, the startup protocol of the generated workers |
| `Naming`, `Ir`, `IrPasses`, `IrPassLaws`, `PassMeaning`, `Semantics`, `Coherence` | the IR objects, the four passes, what they make of each field, table and path, the validator, what its silence means |
| `HealerQueue`, `HealerPipeline`, `HealerProtocol` | the ticket table, the pipeline's methods, all interleavings of them |
| `RateLimiter`, `RateLimiterEviction`, `SpendGovernor` | token buckets over the reals, budget and breaker |
| `Splitting`, `Normalizer`, `NamePieces`, `ContractTree`, `ContractPaths`, `AtomicWrite` | names and their words, contracts as trees, the deterministic proposer, the contract file |
| `Base64Url`, `Tokens` | the token codec, actors, forms and nonces |
| `JsonScanner`, `TypeSplitter`, `TypeGrammar`, `ExtractedWorkflows` | the object scanner, the TypeScript splitters, recovered workflows |
| `Collections` | options, outcomes and the insertion-ordered dictionary |

## What came out

Main results, each for all inputs or all runs:

- The cycle search reports a cycle for every closed walk there is: each takes the closing arc of
  a reported one, and no arc closes two. It finds nothing exactly on acyclic graphs, which is
  exactly when the sort succeeds; so after the compiler's gate the sort never raises. The order
  it returns is the least one there is, and therefore a function of the contracts alone.
- Migrations generated by the differ satisfy everything the runner relies on exactly when the
  differ is exact at every step (below); then, in every interleaving of any number of booting
  workers, of any releases, with crashes and failing statements anywhere, each migration takes
  effect at most once and in order, the ledger names exactly what the schema contains, and a
  worker that finishes leaves its release; for the newest one, exactly the tables of the newest
  contracts.
- The passes are idempotent on every IR and leave every bound machine unshared; what entities do
  share afterwards are the reference objects of mixin fields, and nothing else; the validator
  is silent exactly on coherent IRs; every run of a bound machine stays in the `state` enum.
- Ticket status only moves along the documented edges, each ticket is claimed once and writes
  its contract at most once, and no wakeup is lost.
- Sliding-window bounds hold for the limiter over all contracts together and for the governor, in
  tokens and in dollars, whatever the usage table held before. Evicting idle buckets is
  invisible, a denied call leaves no trace, and one contract stays within its burst and rate,
  exactly when the configuration refills in time (below).
- Scanner, splitters, normaliser and codec invert what they should. `normalize_name` gives back
  the words of every camel-case name, and every name of letters and digits is one; it undoes
  `pascal_case` exactly when the words can be told apart in Pascal case
  (`NamePieces.PascalRoundTripExactly`).
- What a function computes is also told without it: by what is found under a name after the
  passes (`PassMeaning`), by what stands at a path of a contract (`ContractPaths`,
  `ContractMentions`), by the grammar of types (`TypeGrammar`), by which requests, tokens, calls,
  model calls and proposals are let through, all of them and no others.

Where the code does not keep what its documentation says, the model follows the code and the
exact condition is proved:

- `forge/targets/migrations/differ.py` is exact exactly when no table goes from a removed entity
  to a new one, the kept entities share out among themselves the tables they had, and whatever
  table an entity takes over fits the changes of its own fields (`Differ.DiffIsExactly`).
  `forge/targets/migrations/generator.py` promises that a migration and `schema.sql` cannot differ
  in a column, but `CREATE TABLE` fixes the columns of a uuid `id` and of every `number` while
  `ALTER TABLE` reads the field. When every kept entity keeps its table, the differ is therefore
  exact exactly when no name is recycled, no `number` and no uuid `id` is added to a kept entity,
  a uuid `id` stays one without becoming nullable or getting another default, and a `number`
  gets no type but one of text, no default, and does not become required (`Differ.DiffIsExact`,
  `Differ.StaysRight`). Inputs: `Differ.ReusedTableIsLost`, `Differ.RenamedTableIsMissed`,
  `Differ.AddedNumberIsWrong`, `Differ.RequiredNumberIsWrong`, `Differ.OptionalKeyIsWrong`; two
  entities with equal fields may swap tables unharmed (`Differ.SwappedTablesAreCarried`).
- The migration runner takes an empty schema for a new database. Its ledger matches the schema in
  every run of given workers exactly when none of them would create tables in a later release's
  empty schema (`MigrationRunner.DeployableExactly`; such a run: `MigrationRunner.NotDeployable`).
- The limiter's comment says an evicted bucket is always full again. That holds exactly when
  `burst < 1` or `burst <= 900 * rate`, and so do three promises: that eviction changes no
  decision, that a denied call changes no other, and that one contract gets at most
  `burst + rate * t` calls through in `t` seconds (`RateLimiterEviction.EvictionIsInvisibleExactly`,
  `RateLimiterEviction.DenialIsInvisibleExactly`, `RateLimiterEviction.KeyWindowExactly`; input:
  `RateLimiterEviction.DenialCanBeSeen`). The `Retry-After` header rounds down and is long enough
  exactly for waits of at most a second or of whole seconds (`RateLimiter.HeaderIsEnoughExactly`;
  input: `RateLimiter.HeaderCanBeShort`).
- A human stands between a model's proposal and a contract exactly when the auto-apply
  threshold exceeds one half (`HealerProtocol.HumanInTheLoop`).
- After a drain that ended in an exception, a queued ticket can wait for the poll timeout
  (`HealerProtocol.AbnormalDrainWaits`).
- Normalising a contract is settled after one round exactly when each of its references names
  a domain of its own or the contract's domain has no underscore next to a slash, and no
  normalised graph edge has a digit directly before a letter: `v2x` becomes `V2X` and then
  `V2_X` (`ContractTree.NormalizeSettlesExactly`, `Normalizer.NormalizeEdgeSettles`).
- The validator does not look at the default of a bound `state` field, so a build can pass
  with a default that is no state (`Coherence.DefaultInEnumExactly`, `Coherence.DefaultCanEscape`).
- `_split_union` returns the parts that were joined, each of which stands alone, exactly when no
  quotation mark in a part starts a literal that the text after the part closes; a literal that
  closes by strict reading never does (`TypeSplitter.UnionRoundTripExactly`,
  `TypeSplitter.UnionRoundTrip`; input: `TypeSplitter.LooseQuotesDoNotSplit`).
- `safe_contract_name` returns a legal name exactly when the fallback is one or the first ASCII
  letter or digit of the raw name is a letter; callers pass the empty string
  (`ExtractedWorkflows.SafeNameIsLegalExactly`; input: `ExtractedWorkflows.DigitsAreNoName`). The
  display field `cross_reference` picks for a target that comes later in the list exists in the
  end exactly when one of the preferred names is there, or else the first text field, or the
  first field where there is none, has a name that is already safe (`ExtractedWorkflows.DisplayFieldExistsExactly`; input: `ExtractedWorkflows.DisplayFieldCanVanish`).
- The plural that names a table is the same for two names of one domain exactly when they differ
  by an `e` that it swallows, as `box` and `boxe` or `city` and `citie`
  (`NamePieces.TablesClashExactly`); the validator reports such a clash.
- `py_identifier` yields ASCII exactly when its input has no word character beyond ASCII
  (`Naming.PyIdentifierIsLegal`; input: `Naming.PyIdentifierCanLeaveAscii`).
- `_atomic_write` may raise although the new bytes are in place, exactly when the exception comes
  between the rename and the end of the `try` (`AtomicWrite.OldOrNew`).

## Premises

- Times passed to the limiter, and times of recorded usage, do not decrease; the code reads
  them before taking its lock and does not enforce it.
- Approve and reject are serialised with each other, as the HTTP handlers are on one event
  loop; a second process using the command line is outside the model. They do interleave with
  the workers.
- A database about to be migrated holds a prefix of the sorted migration files and the schema
  they make; a version with any table has one whose name does not begin with an underscore; the
  workers are deployable in the sense above. Every entity has a field, since the generator
  refuses a table without columns.
- A usage table at the start of a run holds its rows in order of time; costs are not negative.
- No two entities of one version share a table, which the validator enforces.
- An IR comes from contracts: field names are unique within an entity, a machine's transitions
  have each source once, and every compiled object is new.
- HMAC is an arbitrary function; of the JSON codec only that decoding inverts encoding is used.
  Letters are ASCII in the normaliser and the splitters.

## Model

| member | source | states |
|---|---|---|
| MinHeaps.MinHeap.Push | forge/parser/graph.py:247-247 | a push adds one element and keeps the heap order of `heapq` |
| MinHeaps.MinHeap.Pop | forge/parser/graph.py:239-240 | a pop removes an element that is at most every other |
| DependencyGraphs.DependencyGraph.AddNode | forge/parser/graph.py:105-113 | one more node, no new edge, both dictionaries still each other's transpose |
| DependencyGraphs.DependencyGraph.AddEdge | forge/parser/graph.py:115-123 | exactly one more edge, in both dictionaries, which stay each other's transpose; the new entry comes last in its row unless it was there, a new row comes last, and all other rows stay as they were |
| DependencyGraphs.DependencyGraph.FindUnresolved | forge/parser/graph.py:125-143 | reports exactly the edges to contracts that do not exist, each once |
| DependencyGraphs.DependencyGraph.SearchStep | forge/parser/graph.py:171-193 | one turn of the explicit-stack loop keeps the frames, the path and the sets consistent and gets strictly closer to the end |
| DependencyGraphs.DependencyGraph.SearchFrom | forge/parser/graph.py:163-193 | the search from one root ends with an empty stack and the root visited |
| DependencyGraphs.DependencyGraph.DetectCycles | forge/parser/graph.py:145-204 | terminates; every list is a closed walk that repeats no contract; every closed walk of the graph takes the closing arc of a reported one, and no arc closes two; there is none exactly when the graph is acyclic |
| DependencyGraphs.DependencyGraph.TopologicalOrder | forge/parser/graph.py:206-257 | succeeds exactly on acyclic graphs, with the least order; otherwise the error names the largest set of contracts that wait for each other |
| DependencyGraphs.KahnStep | forge/parser/graph.py:239-247 | pops the least ready contract and leaves exactly the contracts ready after it, counts included |
| Fqns.LtExactly | forge/parser/graph.py:218-222 | the order of names that both algorithms use: the first difference decides, and a proper prefix comes first |
| Digraphs.TopologicalIsAcyclic | forge/parser/graph.py:206-216 | a graph with an order that puts dependencies first has no closed walk |
| Digraphs.GreedyIsLeastOrder | forge/parser/graph.py:218-222 | always compiling the least ready contract gives the least of all valid orders |
| Digraphs.LeastOrderUnique | forge/parser/graph.py:218-222 | a graph has at most one such order |
| Digraphs.RemainderIsLargestStuck | forge/parser/graph.py:249-255 | what greedy compilation leaves is the largest set in which everything waits for a member |
| Digraphs.AcyclicIffOrderable | forge/parser/graph.py:145-257 | acyclic, orderable and nothing stuck are the same thing |
| ContractDependencies.AddMany | forge/parser/dependencies.py:67-79 | appends the references among the strings of a value, each once |
| ContractDependencies.ExtractNested | forge/parser/dependencies.py:82-90 | appends the references at any depth of a value |
| ContractDependencies.MergeDependencies | forge/parser/dependencies.py:11-64 | the loops of both functions compute the merged list, or raise on the same shapes |
| ContractDependencies.MergedExactly | forge/parser/dependencies.py:57-64 | that list holds exactly the references a contract mentions, once each, in the order of first mention, the declared ones first |
| ContractMentions.MentionedExactly | forge/parser/dependencies.py:11-54 | a string is in that list exactly when it is a reference and stands in `requires` or at one of the places that the kind of contract refers from: mixins, state machine, field targets and hooks of an entity, entity and side effects at any depth of a route, entity of a page, input of an agent, field targets of a mixin |
| ContractMentions.RaisesExactly | forge/parser/dependencies.py:11-54 | reading a contract raises exactly for a kind that is a list or a mapping, a spec of a known kind that is no mapping, and fields, hooks or endpoints that cannot be gone through |
| ContractMentions.FqnIsRef | forge/parser/dependencies.py:8-8 | every normalised fully qualified name of reference characters is recognised as a reference |
| ContractGraphs.BuildDependencyGraph | forge/parser/graph.py:304-388 | the graph of a set of contracts: one node each, one edge per dependency but no self-edge, an error exactly for each declared self-reference |
| ContractGraphs.CompilationOrder | forge/ir/compiler.py:138-147 | an order comes out exactly when nothing references itself, everything resolves and there is no cycle; the sort behind the gate never raises; an error holds every self-reference, every dangling edge and a cycle for every closed walk |
| ContractGraphs.OrderIgnoresInsertion | forge/parser/graph.py:218-222 | loading the same contracts in another order compiles them in the same order |
| ContractGraphs.DependenciesFirst | forge/parser/graph.py:206-216 | every contract comes after everything it depends on |
| Schemas.TablesOf | forge/targets/postgres/gen_ddl.py:112-213 | the database `schema.sql` creates for a version: one table per entity, a column per field with its column type, rendered default, nullability and key, where a uuid `id` is always the primary key with a generated default and every `number` is unique nullable text |
| Schemas.ColumnExactly | forge/targets/postgres/gen_ddl.py:112-166 | a column that the database fills is never null and ignores the contract's default; any other has the contract's default or none and is not null exactly where the field is required |
| Schemas.TypesTellApart | forge/targets/typemap.py:65-78 | two listed types share a column type only as the two kinds of JSON, and text is what all other types become |
| Differ.DiffEntityFields | forge/targets/migrations/differ.py:72-177 | the field loops compute added, removed and modified columns in the emitted order |
| Differ.DiffEntities | forge/targets/migrations/differ.py:28-69 | the entity loops compute created, dropped and altered tables in the emitted order |
| Differ.FieldsExec | forge/targets/migrations/differ.py:72-177 | the column changes of an entity turn any given table into the one `CREATE TABLE` would make of the new version exactly when it fits them: every column belongs to a field, a kept field has a column that agrees with what is set and what is left alone, a new field has the right one, or none and is neither a `number` nor a uuid `id` |
| Differ.OwnColumnAgrees | forge/targets/migrations/sql_writer.py:118-221 | for a field kept in its own table that is always so, but for a uuid `id` and a `number`, whose exact conditions it gives |
| Differ.DiffIsExactly | forge/targets/migrations/differ.py:28-69 | for all pairs of versions, moved tables included: running the changes on the old tables succeeds and gives exactly the new tables if and only if the changes can carry them |
| Differ.DiffIsExact | forge/targets/migrations/differ.py:28-69 | when entities keep their tables, that is if and only if no created table reuses a dropped one's name and all `id` and `number` fields stay right |
| Differ.ReusedTableIsLost | forge/targets/migrations/differ.py:46-63 | versions, with any fields, for which the first part fails |
| Differ.AddedNumberIsWrong | forge/targets/postgres/gen_ddl.py:175-178 | a `number` added to an entity: `INTEGER NOT NULL` by migration, `TEXT UNIQUE` by `schema.sql` |
| Differ.RequiredNumberIsWrong | forge/targets/postgres/gen_ddl.py:175-178 | a `number` that becomes required: the same tables, and yet a migration that changes them |
| Differ.OptionalKeyIsWrong | forge/targets/postgres/gen_ddl.py:172-173 | a uuid `id` that becomes optional: the same tables, and a migration that does not carry them over |
| Differ.MovedTableIsMissed | forge/targets/migrations/differ.py:63-67 | an entity that moves to a table no kept entity had is never migrated correctly |
| Differ.RenamedTableIsMissed | forge/targets/migrations/differ.py:63-67 | a renamed table, with any fields, for which not even a statement is emitted |
| Differ.SwappedTablesAreCarried | forge/targets/migrations/differ.py:63-67 | entities with equal fields that swap their tables are migrated correctly |
| Differ.DiffEmptyExactly | forge/targets/migrations/differ.py:28-177 | for all versions, there are no changes exactly when the entities are the same and each has the same field names, types, rendered defaults and nullability |
| Differ.DiffEmptyIffSame | forge/targets/migrations/differ.py:28-177 | when entities keep their tables and no name is reused, that is exactly when the two versions describe the same tables and no field says anything beyond its column that differs |
| Differ.DiffDefaultsFirst | forge/targets/migrations/differ.py:121-177 | each column's default change comes before its nullability change |
| Differ.HistoryIsChained | forge/targets/migrations/differ.py:28-69 | every migration of a history carries its version to the next exactly when the differ is exact at every step |
| Differ.HistoryIsExact | forge/targets/migrations/differ.py:28-69 | then the concatenated migrations carry any version to any later one |
| MigrationRunner.StepKeepsInv | forge/targets/fastapi_prod/gen_app.py:220-275 | every statement, commit, crash and failure of any worker keeps ledger, schema, lock and transactions consistent |
| MigrationRunner.LedgerMatchesSchema | forge/targets/fastapi_prod/gen_app.py:223-228 | at every moment of every run the ledger names exactly the migrations the schema contains, and at most one worker is past the lock |
| MigrationRunner.CommitsAreExact | forge/targets/fastapi_prod/gen_app.py:242-271 | the database changes only by committing a baseline into an empty schema or the one next migration with its ledger row |
| MigrationRunner.ReplaysAreOrdered | forge/targets/fastapi_prod/gen_app.py:262-271 | migrations are replayed at most once each and in sorted order |
| MigrationRunner.FinishedIsUpToDate | forge/targets/fastapi_prod/gen_app.py:220-275 | once a worker has finished, the database holds its release for ever; for the newest release exactly the full schema |
| MigrationRunner.RunsAreFinite | forge/targets/fastapi_prod/gen_app.py:236-275 | no run is longer than the work there was at boot |
| MigrationRunner.SomebodyCanMove | forge/targets/fastapi_prod/gen_app.py:236-275 | while a worker is neither finished nor crashed, somebody can take a step that is no crash and no failure |
| MigrationRunner.CleanBootCompletes | forge/targets/fastapi_prod/gen_app.py:220-275 | without crashes and failures, a run that can go no further has booted every worker |
| MigrationRunner.NotDeployable | forge/targets/fastapi_prod/gen_app.py:242-258 | a run in which a worker fills a newer but empty schema, so that ledger and schema part |
| MigrationRunner.DeployableExactly | forge/targets/fastapi_prod/gen_app.py:242-258 | the ledger matches the schema at every moment of every run of given workers exactly when no worker would do that |
| MigrationRunner.GeneratedMigrationsWork | forge/targets/migrations/differ.py:28-69 | the migrations of a history that starts without entities satisfy all the runner needs, baseline and replay giving the same tables, exactly when the differ is exact at every step and every version with an entity has a table the runner counts |
| MigrationRunner.NewestContractsAreLive | forge/targets/fastapi_prod/gen_app.py:220-275 | then, from contracts to database, by baseline or by replay: once a worker of the newest release has finished, the database holds exactly the tables of the newest contracts |
| Naming.PyIdentifierIsLegal | forge/targets/naming.py:57-91 | for every input a legal, non-reserved identifier; ASCII exactly when the input has no word character beyond ASCII |
| Naming.PyIdentifierCanLeaveAscii | forge/targets/naming.py:57-91 | an input whose identifier is not ASCII |
| Naming.PyIdentifierIdempotent | forge/targets/naming.py:57-91 | deriving an identifier from an identifier changes nothing |
| NamePieces.CleanedRejoins | forge/targets/naming.py:83-84 | an identifier keeps the word characters in their order, each run of separators between them as one underscore |
| NamePieces.PyIdentifierKeeps | forge/targets/naming.py:86-91 | what is a legal identifier then is left alone; a keyword gets an underscore, a digit at the start or nothing at all an `x` |
| NamePieces.PascalRaisesWords | forge/targets/naming.py:94-102 | every word has its first letter raised and nothing else changes |
| NamePieces.PascalRoundTripExactly | forge/normalize.py:23-59 | `normalize_name` undoes `pascal_case` exactly when every later word begins with a letter and none after a single letter could be taken for more of it |
| NamePieces.TablesClashExactly | forge/targets/naming.py:124-136 | two names of one domain get one table exactly when they differ by an `e` that the plural swallows |
| NamePieces.ModulesTellApart | forge/targets/naming.py:168-176 | one name in two domains has two modules exactly in a build of several domains |
| NamePieces.ClassesTellApart | forge/targets/naming.py:139-154 | and two classes; two names of one domain always have two, as far as Pascal case tells them apart |
| IrPasses.AddMixin | forge/ir/passes/mixin_expansion.py:60-74 | grafts a mixin's missing fields, in order, as new field objects that keep the very reference object of the mixin's field, and touches no existing field |
| IrPasses.ExpandEntity | forge/ir/passes/mixin_expansion.py:43-79 | one entity afterwards is the expansion of its value before; mixins are unchanged |
| IrPasses.ExpandMixins | forge/ir/passes/mixin_expansion.py:27-81 | every entity is expanded; no two entities come to share an object that a pass writes to, and the reference objects an entity gains are all those of mixin fields |
| IrPasses.InferTableNames | forge/ir/passes/table_name_inference.py:38-58 | every entity becomes the entity with its table named, and entities stay apart; what that name is, `PassMeaning.TableIsKept` and `PassMeaning.TablesTellApart` say |
| IrPasses.EnsureState | forge/ir/passes/state_machine_binding.py:62-82 | the first `state` field takes the workflow's states and, lacking a default, its initial state; otherwise one field is added |
| IrPasses.BindEntity | forge/ir/passes/state_machine_binding.py:36-82 | a declared and existing workflow is bound as a fresh copy, anything else changes nothing |
| IrPasses.BindStateMachines | forge/ir/passes/state_machine_binding.py:20-84 | every entity is bound; workflows and mixins are unchanged |
| IrPasses.InferBasePaths | forge/ir/passes/base_path_inference.py:26-43 | every route bound to an entity has a base path |
| IrPasses.RunAllPasses | forge/ir/passes/__init__.py:30-55 | the IR afterwards is a function of the IR before; no machine object is shared between entities or with the list of workflows; every entity keeps its reference objects and gains only those of mixin fields |
| IrPasses.SharedReferences | forge/ir/passes/mixin_expansion.py:71-73 | so two entities that shared no reference object before share none afterwards but those of mixin fields |
| PassMeaning.FieldsOfPassed | forge/ir/passes/mixin_expansion.py:43-74 | under every name an entity then has the field it declared, or else the whole field of the first mixin that has one, with its default, enum and reference; the `state` field of a bound machine has its states, and its initial state where it had no default |
| PassMeaning.PlacesAreKept | forge/ir/passes/mixin_expansion.py:47-74 | the fields an entity declares keep their places |
| PassMeaning.MachineOfPassed | forge/ir/passes/state_machine_binding.py:36-62 | the machine becomes that of the last workflow of the name the entity refers to, and stays where there is none |
| PassMeaning.MixinsOfPassed | forge/ir/passes/mixin_expansion.py:48-79 | an entity that names mixins records exactly those that were found |
| PassMeaning.TableIsKept | forge/ir/passes/table_name_inference.py:48-51 | a declared table is kept, and every entity has one afterwards |
| PassMeaning.TablesTellApart | forge/ir/passes/table_name_inference.py:48-51 | two inferred tables are the same for one name exactly when the build or the domain is one, and for one domain exactly when the names differ by a swallowed `e` |
| PassMeaning.PathOfPassed | forge/ir/passes/base_path_inference.py:35-43 | a declared path is kept; a route bound to an entity gets a slash and the plural of what comes after the last slash |
| IrPassLaws.PassesAreIdempotent | forge/ir/passes/__init__.py:11-12 | running the passes twice is running them once, on every IR; mixins and workflows never change |
| IrPassLaws.PassesKeepNamesUnique | forge/ir/passes/mixin_expansion.py:47-74 | field names stay unique within an entity |
| Semantics.ValidateEntity | forge/ir/semantic.py:146-275 | reports exactly the missing mixins, type conflicts, missing workflows, broken references and unreadable guard fields |
| Semantics.ValidateWorkflow | forge/ir/semantic.py:278-326 | reports exactly the undeclared initial states, sources, targets and guard transitions |
| Semantics.CheckClaims | forge/ir/semantic.py:110-129 | reports exactly the entities whose derived name an earlier entity has |
| Semantics.CheckRoute | forge/ir/semantic.py:59-85 | reports exactly a missing entity or the required fields it lacks |
| Semantics.ValidateSemantics | forge/ir/semantic.py:25-87 | reports exactly the errors there are, no more and no fewer |
| Coherence.ValidIffCoherent | forge/ir/semantic.py:25-34 | after the passes the validator is silent exactly when every mixin exists with its fields and types on the entity, references, displays, guards, pages and routes resolve, machines are sound, and table, class and module names are injective |
| Coherence.RunsStayInEnum | forge/ir/passes/state_machine_binding.py:7-9 | then every run of a bound machine stays in the enum of the `state` field, and its guards sit on declared transitions and read real fields |
| Coherence.DefaultInEnumExactly | forge/ir/passes/state_machine_binding.py:66-70 | the bound default names a state exactly when the contract declares none or a state |
| Coherence.DefaultCanEscape | forge/ir/semantic.py:25-87 | an IR that passes validation although its default is no state |
| HealerQueues.HealerQueue.Enqueue | healer/queue.py:116-142 | a new row, or nothing for an id that exists |
| HealerQueues.HealerQueue.ClaimNext | healer/queue.py:165-186 | claims something exactly when a ticket is queued, and then one that no queued ticket precedes in priority or, among equals, in age; only its status changes |
| HealerQueues.ResolvedExactly | healer/queue.py:188-234 | over any sequence of updates the resolution time is that of the last terminal status, nothing takes it back, and no other row changes |
| HealerQueues.UpdatesKeepOrder | healer/queue.py:205-227 | updating a ticket that is not queued, its priority included, leaves the order of the queue alone |
| HealerQueues.UpdatesCommute | healer/queue.py:188-234 | updates of different tickets commute, and so do updates of different columns of one ticket |
| HealerQueues.HealerQueue.ConsumeTokenNonce | healer/queue.py:268-296 | succeeds exactly the first time a nonce is presented |
| HealerPipelines.HealerPipeline.ProcessNext | healer/pipeline.py:61-67 | claims a next ticket and leaves exactly the rows and writes of its processing |
| HealerPipelines.HealerPipeline.ProcessTicket | healer/pipeline.py:86-166 | a ticket fails exactly when it is not fixable, nothing is proposed, or its automatic fix does not apply; it is applied, with exactly one write, exactly when it is of tier 1, at the threshold and applies; every other proposal waits for approval, and every proposal for a fixable ticket is stored |
| HealerPipelines.HealerPipeline.ApplyAndNotify | healer/pipeline.py:219-256 | writes the contract and marks the ticket applied, or marks it failed and writes nothing |
| HealerPipelines.HealerPipeline.ApproveTicket | healer/pipeline.py:69-75 | acts exactly on a ticket awaiting approval, which is then applied with one write of its stored proposal, or failed with none |
| HealerPipelines.HealerPipeline.RejectTicket | healer/pipeline.py:77-84 | acts exactly on a ticket awaiting approval, which is then rejected and resolved |
| HealerPipelines.ProcessIsAPath | healer/pipeline.py:61-166 | each undisturbed run of the processing code is a stretch of protocol steps with the same rows and writes |
| HealerPipelines.ApproveIsAPath | healer/pipeline.py:69-75 | so is each undisturbed approval |
| HealerPipelines.RejectIsAPath | healer/pipeline.py:77-84 | and each undisturbed rejection |
| HealerProtocol.StepKeepsInv | healer/pipeline.py:61-256 | every step of every worker, handler, ingest and drain keeps ownership, approval, writes and the wakeup signal consistent |
| HealerProtocol.StatusMoves | healer/pipeline.py:69-166 | status moves only along the allowed edges, a resolved row is frozen, and `applied` is reported only for a written contract |
| HealerProtocol.NeverRequeued | healer/queue.py:188-227 | over any stretch of a run a ticket only moves forward, and until it is claimed its row does not change |
| HealerProtocol.TicketsAreSafe | healer/queue.py:188-203 | in every run the resolution time is set exactly on resolved tickets, each ticket writes at most once, and failed or rejected ones never |
| HealerProtocol.ClaimedOnce | healer/queue.py:165-186 | across all workers no ticket is claimed twice |
| HealerProtocol.DrainIsSorted | healer/queue.py:165-186 | without arrivals, claims come out in order of priority and age, whoever makes them |
| HealerProtocol.NoLostWakeup | healer/api/server.py:96-112 | the drain worker is never blocked on a clear signal, after a drain that ended normally, while a ticket of a completed ingest is queued |
| HealerProtocol.AbnormalDrainWaits | healer/api/server.py:105-112 | after a drain that did not, it can be |
| HealerProtocol.HumanInTheLoop | healer/pipeline.py:151-166 | no model-authored proposal is written without an approval, in any run, exactly when the threshold exceeds one half |
| RateLimiter.TokenBucketLimiter.CheckKey | healer/ratelimit.py:85-106 | the method updates its buckets and answers as the one-call function does |
| RateLimiter.TokenBucketLimiter.constructor | healer/ratelimit.py:57-83 | a new limiter has no buckets, and a full global one of a minute of the global rate, at least one token |
| RateLimiter.CheckExactly | healer/ratelimit.py:85-127 | under every configuration a call is admitted exactly when its key and then the global bucket have a whole token of what they had and have earned since, and takes one from each; a key without one does not touch the global bucket; every other key keeps its bucket or is forgotten after 900 idle seconds |
| RateLimiterEviction.FirstVolley | healer/ratelimit.py:90-106 | a fresh limiter admits its whole burst at once, if the global bucket holds that much |
| RateLimiter.RunOk | healer/ratelimit.py:118-127 | under every configuration, in every trace, all tokens stay between zero and capacity |
| RateLimiter.RefillComposes | healer/ratelimit.py:120-122 | refilling now and again later is refilling once, later |
| RateLimiter.EvictionIsInvisible | healer/ratelimit.py:108-115 | the evicting limiter decides every trace as one that never evicts, given enough refill rate |
| RateLimiterEviction.EvictionIsInvisibleExactly | healer/ratelimit.py:32-34 | and in general exactly when the burst refills in 900 seconds or is below one token |
| RateLimiter.DenialIsInvisible | healer/ratelimit.py:85-86 | given enough refill rate, taking a denied call out of a trace changes no other decision |
| RateLimiterEviction.DenialIsInvisibleExactly | healer/ratelimit.py:85-86 | and in general exactly when the burst refills in 900 seconds or is below one token |
| RateLimiterEviction.DenialCanBeSeen | healer/ratelimit.py:108-127 | a trace in which it does change one |
| RateLimiter.KeyWindowBound | healer/ratelimit.py:85-106 | given enough refill rate, in any stretch of `t` seconds at most `burst + rate * t` calls of one contract are admitted |
| RateLimiterEviction.KeyWindowExactly | healer/ratelimit.py:85-115 | and in general exactly when the burst refills in 900 seconds or is below one token |
| RateLimiter.GlobalWindowBound | healer/ratelimit.py:69-106 | under every configuration, in any stretch of `t` seconds at most `capacity + globalRate * t` calls are admitted overall |
| RateLimiter.RetryIsExact | healer/ratelimit.py:118-127 | a refused bucket holds a token after exactly the announced wait, if it can hold one at all |
| RateLimiter.RefusalIsHonest | healer/ratelimit.py:96-102 | the same for a whole refusal, by the key's bucket or the global one, under every configuration |
| RateLimiter.HeaderIsEnoughExactly | healer/api/server.py:253-257 | waiting for the rounded header is enough exactly for waits of at most a second or of whole seconds |
| RateLimiter.HeaderCanBeShort | healer/api/server.py:253-257 | a wait for which it is not |
| SpendGovernor.UsageTable.RecordUsage | healer/queue.py:298-318 | the new row becomes the newest outcome, and adds to a total exactly when it is not older than the cutoff |
| SpendGovernor.UsageTable.TotalsSince | healer/queue.py:320-338 | sums tokens, and dollars rounded to six places, over exactly the rows since the cutoff |
| SpendGovernor.VerdictExactly | healer/cost.py:190-246 | a call is refused exactly when the last `threshold` calls all failed and one of them less than a cooldown ago, else when the window has used up its tokens, else when a ceiling is set and the model has no price, else when the ceiling is reached; every other call is allowed |
| SpendGovernor.RoundedExactly | healer/queue.py:336-336 | the dollars compared are the nearest millionths, the even ones of two |
| SpendGovernor.WindowBudget | healer/cost.py:190-222 | with at most `k` calls in flight of at most `m` each, some of which may never report, any window of the configured length records at most `budget - 1 + k * m` tokens and at most `limit + k * m` dollars but for rounding, or what the table held of it when the run began |
| SpendGovernor.BreakerBound | healer/cost.py:230-246 | run one at a time, an interval of failures of length `t` holds at most `threshold + floor(t / cooldown)` calls, rows from before the run included as far as they are spaced themselves |
| Normalizer.NormalizeNameIsNormal | forge/normalize.py:54-59 | every name comes out without capitals, doubled or outer underscores, and apart from case and underscores unchanged; where underscores are put, the rows of `NamePieces` say |
| Normalizer.NormalIffFixed | forge/normalize.py:23-31 | the names left alone are exactly those |
| NamePieces.CamelCaseSplits | forge/normalize.py:20-31 | the words of a camel-case name, acronyms included, come out in small letters joined by underscores |
| NamePieces.EveryNameSplits | forge/normalize.py:20-31 | and every name of letters and digits is made of such words |
| NamePieces.UnderscoreSeparates | forge/normalize.py:54-59 | an underscore separates whatever stands on its two sides |
| NamePieces.OnlyCapitalsAreCut | forge/normalize.py:54-59 | where no capital follows a letter or digit, a name is only put in small letters and loses its needless underscores |
| NamePieces.TodoListIsCut | forge/normalize.py:26-26 | `TodoList` becomes `todo_list` |
| NamePieces.AcronymIsCut | forge/normalize.py:20-20 | `HTTPServer` becomes `http_server` |
| Normalizer.NormalizedSegments | forge/normalize.py:67-102 | the exact segments of a normalised reference: its own kind or the default one, its own domain or the contract's, each normalised |
| Normalizer.InferredKindExactly | forge/normalize.py:181-200 | the kind of a `requires` entry: its first segment if that is one, else a workflow for a word of one anywhere, else a mixin, else an entity |
| Normalizer.EdgeIsRaised | forge/normalize.py:108-116 | a graph edge is the normalised name in capitals |
| Normalizer.NormalizeFqnSettles | forge/normalize.py:67-102 | a second normalisation changes nothing exactly when the reference has its own domain segment or the domain has no underscore next to a slash |
| Normalizer.NormalizeRequiresSettles | forge/normalize.py:181-200 | the same for an entry of `requires`, whose kind is inferred |
| Normalizer.NoSlashIsIdempotent | forge/normalize.py:67-102 | in a domain without a slash it never does |
| Normalizer.SlashDomainTakesTwoRounds | forge/normalize.py:96-98 | a domain for which it does change something |
| Normalizer.NormalizeEdgeSettles | forge/normalize.py:108-116 | a graph edge is settled after one round exactly when its normalised name has no digit directly before a letter |
| Normalizer.EdgeTakesTwoRounds | forge/normalize.py:108-116 | an edge that is not |
| ContractTree.StripIsProjection | healer/applier.py:31-50 | stripping leaves no underscore key at any depth and changes exactly the trees that have one |
| ContractTree.StripIdempotent | healer/applier.py:31-50 | so stripping twice is stripping once |
| ContractPaths.StripFinds | healer/applier.py:31-50 | a path through public keys leads to what it led to, stripped; a path through an underscore key leads nowhere |
| ContractPaths.NormalizesExactly | forge/normalize.py:122-178 | normalising raises exactly where a name, reference or edge is no string, or a place for several of them cannot be gone through |
| ContractPaths.DomainIs | forge/normalize.py:134-136 | references are completed with the normalised domain of the metadata |
| ContractPaths.MetadataNormalized | forge/normalize.py:138-144 | name and domain are normalised, the rest of the metadata stays |
| ContractPaths.RequiresNormalized | forge/normalize.py:146-149 | every entry of `requires` becomes a qualified name of the kind it is read as |
| ContractPaths.SpecNormalized | forge/normalize.py:165-171 | the state machine becomes a workflow's name and the entity an entity's; other keys of the spec stay |
| ContractPaths.MixinsNormalized | forge/normalize.py:173-176 | every mixin becomes a mixin's name |
| ContractPaths.FieldNormalized | forge/normalize.py:151-163 | under a field nothing changes but its references |
| ContractPaths.ReferenceNormalized | forge/normalize.py:158-163 | a field's target becomes an entity's name and its graph edge a normalised edge |
| ContractPaths.RestStays | forge/normalize.py:122-178 | outside of metadata, `requires` and spec a contract stays as it is |
| ContractTree.NormalizeSettlesExactly | forge/normalize.py:122-178 | normalising a normalised contract never raises, and changes nothing exactly under the condition above for its references and edges |
| ContractTree.ProposalFixpoint | healer/proposer/deterministic.py:23-61 | a proposed contract is clean, and proposing on it again finds nothing under the same exact condition |
| ContractTree.NothingToFixExactly | healer/proposer/deterministic.py:27-37 | nothing is proposed exactly for contracts that are clean and normalised |
| AtomicWrite.CheckedIsSound | healer/applier.py:80-130 | bytes that pass the checks load as exactly the stripped, validated proposal |
| AtomicWrite.CheckedExactly | healer/applier.py:80-130 | a proposal is accepted exactly when, stripped, it is valid, has a file to go to and comes back from its bytes, and an empty contract is valid if it strips to nothing; every refusal names the first of these that fails |
| AtomicWrite.WriteCompletes | healer/applier.py:168-186 | undisturbed, the write returns and the file holds the new bytes |
| AtomicWrite.OldOrNew | healer/applier.py:168-186 | at every moment, exceptions, kills and power losses included, the contract file holds the old bytes or all of the new ones: the new ones once the write has returned, and once it has raised exactly when that was after the rename |
| AtomicWrite.UnsyncedRenameIsUnsafe | healer/applier.py:161-183 | for the same write without the sync, a run after which the file holds anything at all |
| AtomicWrite.TheSyncDecides | healer/applier.py:161-183 | so the guarantee holds exactly with the sync before the rename |
| AtomicWrite.ReaderFindsSoundBytes | healer/applier.py:57-136 | so a reader finds the bytes from before or a validated proposal |
| AtomicWrite.HealingFixpoint | healer/proposer/deterministic.py:23-37 | after a deterministic fix has been written and read back, proposing again finds nothing exactly when one round was enough |
| Base64Url.RoundTrip | healer/security.py:204-210 | decoding inverts the unpadded encoding for every byte string (section 5 of RFC 4648), and an encoding has no dot |
| Base64Url.ThreeByteVector | healer/security.py:204-205 | the three-byte test vector of section 10 of RFC 4648 |
| Base64Url.TwoByteVector | healer/security.py:204-205 | the two-byte one, without its padding |
| Base64Url.OneByteVector | healer/security.py:204-205 | the one-byte one, without its padding |
| Base64Url.UrlSafeLetters | healer/security.py:204-205 | the two letters of the URL-safe alphabet |
| Tokens.IssuedParts | healer/security.py:227-247 | an issued token splits into exactly three parts |
| Tokens.VerifiesExactly | healer/security.py:250-281 | an issued token verifies exactly for its own type, ticket and action, before expiry, under a secret with the same signature, and yields its own claims |
| Tokens.OnlySignedVerify | healer/security.py:250-281 | of all tokens whatever, exactly those verify that carry a signature under the secret, for this type, ticket and action, and have not expired |
| Tokens.PurposesAreSeparate | healer/security.py:271-274 | a token of one type is refused for the other, although the secret may be the same |
| Tokens.Authenticate | healer/security.py:423-437 | the first signed-looking candidate decides; without one the scheme defers |
| Tokens.CsrfIsBound | healer/security.py:371-376 | a CSRF token is good for exactly the actors of the principal it was minted for |
| Tokens.OnlyOwnCsrfPasses | healer/security.py:371-376 | of all CSRF tokens exactly the signed, unexpired ones for this ticket, action and principal pass |
| Tokens.PrincipalsTellApart | healer/security.py:155-175 | a link stands for the person it was minted for; other actors have one principal only when kind and name are the same |
| Tokens.FormIsHonoured | healer/api/server.py:388-403 | a form posted in time authenticates a link actor of the same principal, for whom its CSRF token verifies exactly when that principal is not empty |
| Tokens.LinksAreSingleUse | healer/api/server.py:203-227 | over any sequence of requests a link gets through at most once, and a request refused for its CSRF token does not use it up; both follow from the next row |
| Tokens.DecidedExactly | healer/api/server.py:203-227 | over any sequence of requests, one gets through exactly when its CSRF check passed if it was ambient or a form post, and its link was unused and no earlier request with it got through |
| JsonScanner.BalancedObjectSpans | engine/structured.py:62-97 | the one-pass scanner returns exactly the spans that open outside strings at level zero and end at the first return to it, ordered and disjoint |
| JsonScanner.SurrogatePairIsAnEscape | engine/structured.py:8-14 | the twelve characters of a surrogate pair are an escape as section 7 of RFC 8259 allows |
| JsonScanner.PrintedObjectIsFound | engine/structured.py:8-14 | in prose without quotation marks and braces, a JSON object by any printer that escapes as section 7 of RFC 8259 says, surrogate pairs included, is the only span |
| JsonScanner.PrintedObjectIsTheResult | engine/structured.py:62-97 | so the scanner returns that one span |
| JsonScanner.SpansCompose | engine/structured.py:62-97 | behind a text that ends outside of strings and objects the scan starts anew: the objects are those of the two parts |
| JsonScanner.QuotedIsNothing | engine/structured.py:75-84 | in prose too, what stands between quotation marks is no object |
| JsonScanner.StrayBraceIsNothing | engine/structured.py:90-95 | a closing brace without an opening one is nothing |
| JsonScanner.UnclosedIsNothing | engine/structured.py:62-97 | an object that is never closed hides what comes after it |
| TypeSplitter.MatchingBrace | extractor/analyzers/typescript_types.py:164-184 | the first closing brace outside literals that brings the nesting to zero, and -1 exactly when there is none |
| TypeSplitter.BlockIsMatched | extractor/analyzers/typescript_types.py:164-184 | a block whose braces nest and whose literals close is matched by its own closing brace |
| TypeSplitter.SplitUnion | extractor/analyzers/typescript_types.py:268-292 | the loop returns the non-blank parts of the text cut at `|` at depth zero |
| TypeSplitter.SplitMembers | extractor/analyzers/typescript_types.py:187-214 | the loop returns the stripped non-blank parts cut at the three separators |
| TypeSplitter.SplitLosesNothing | extractor/analyzers/typescript_types.py:268-292 | on every text, the cut parts join back to the text |
| TypeSplitter.EndInContext | extractor/analyzers/typescript_types.py:73-73 | in the whole text a literal ends where it ends in its part, unless it can run over the end of the part and the text after closes it |
| TypeSplitter.UnionRoundTripExactly | extractor/analyzers/typescript_types.py:268-292 | splitting inverts joining, for non-blank parts that each stand alone, exactly when no quotation mark in a part starts a literal that the text after the part closes |
| TypeSplitter.UnionRoundTrip | extractor/analyzers/typescript_types.py:268-292 | in particular for parts with balanced brackets, literals that close within them by strict reading and no top-level separator |
| TypeSplitter.MembersRoundTrip | extractor/analyzers/typescript_types.py:187-214 | the same for members, whichever separators are between them |
| TypeGrammar.UnionOfTypes | extractor/analyzers/typescript_types.py:268-292 | for types of names, literals and nested brackets of the four kinds, splitting a union gives back the types that were joined, but for the blank ones |
| TypeGrammar.MembersOfTypes | extractor/analyzers/typescript_types.py:187-214 | and splitting members, whichever separators were between |
| TypeGrammar.StripExactly | extractor/analyzers/typescript_types.py:212-213 | stripping takes off all white space at both ends and nothing else, and leaves nothing exactly of a blank part |
| TypeSplitter.LooseQuotesDoNotSplit | extractor/analyzers/typescript_types.py:73-73 | two parts that each stand alone and come back as one |
| ExtractedWorkflows.SafeNameIsSafe | extractor/models.py:20-33 | the result is a legal, normal name or the fallback |
| ExtractedWorkflows.SafeNameExactly | extractor/models.py:20-33 | a safe name is the normalised words without other characters, the fallback for nothing, and with a legal fallback in front where it starts with a digit |
| ExtractedWorkflows.SafeNameIsLegalExactly | extractor/models.py:20-33 | it is legal exactly when the fallback is or the first ASCII letter or digit of the raw name is a letter |
| ExtractedWorkflows.DigitsAreNoName | extractor/models.py:20-33 | a raw name without a legal form |
| ExtractedWorkflows.SafeNameIdempotent | extractor/models.py:20-33 | making a safe name safe changes nothing |
| ExtractedWorkflows.ToEmitterData | extractor/models.py:203-250 | the loops compute the emitter's data |
| ExtractedWorkflows.StatesExactly | extractor/models.py:203-250 | the states are the safe names of the raw ones in order of first mention, or `active`; a declared initial state is kept |
| ExtractedWorkflows.TransitionsExactly | extractor/models.py:203-250 | a recovered table is kept: a state has a row exactly when one of its rows names a declared target, and then that of the last; only when there is none does each state lead to the next |
| ExtractedWorkflows.EmitWorkflow | factory/emitters/workflow_emitter.py:26-62 | refuses exactly the incoherent machines and names every undeclared state |
| ExtractedWorkflows.ExtractedIsAccepted | extractor/models.py:203-250 | every extracted workflow is accepted by the emitter and passes the validator; a state is terminal exactly when nothing leads out of it |
| ExtractedWorkflows.DetectedExactly | extractor/cross_ref.py:75-78 | a workflow is detected exactly when two different safe names are among the values |
| ExtractedWorkflows.DetectedIsAChain | extractor/cross_ref.py:75-88 | a detected workflow keeps its states in order, every state is reachable, and only the last is terminal |
| ExtractedWorkflows.ResolveTarget | extractor/cross_ref.py:97-112 | the longest suffix, cut at underscores, that names an entity, and the empty string exactly when none does |
| ExtractedWorkflows.DisplayFieldExactly | extractor/cross_ref.py:128-142 | the display field is the first of the preferred names that a field has, or else the first text field, or else the first field |
| ExtractedWorkflows.DisplayFieldExistsExactly | extractor/cross_ref.py:128-142 | a display field picked before its entity was renamed exists afterwards exactly when a preferred name is among the fields, or else the first text field, or the first field where there is none, has a safe name |
| ExtractedWorkflows.DisplayFieldCanVanish | extractor/cross_ref.py:128-142 | a display field that does not |
| ExtractedWorkflows.DisplayFieldOfProcessed | extractor/cross_ref.py:128-142 | one picked afterwards always exists |

## Left out

- MigrationRunner.GeneratedMigrationsWork: file names are an abstract sorted list; that zero-padded numbers sort as text only up to their width is not modelled.
- Differ.DiffIsExactly: foreign keys, indexes, triggers, column order and decimal precision, which the differ does not compare; and data that violates a new constraint, or a value or default that a new type cannot be cast to, which the runner's protocol covers as a failing statement.
- RateLimiter.TokenBucketLimiter.CheckKey: buckets are values in the map rather than shared objects, and arithmetic is over the reals.
- MinHeaps.MinHeap.Pop: sifts down directly instead of to a leaf and back up as `heapq` does; the element it returns is the same.
- IrPasses.RunAllPasses: states, guards and transitions are values inside a machine object; `type_overrides`, labels and side effects, which neither passes nor validator read, are not modelled. Of what `model_copy()` shares between a field and its copy, the reference is an object and the list of enum values and the `constraints` dictionary are not; no pass writes into either.
- Tokens.VerifiesExactly: a claim is a fixed record, so a signed payload with missing or oddly typed claims is not distinguished; the comparison of digests is equality, without its timing and its exception for text beyond ASCII.
- ContractTree.NormalizeSettlesExactly: contracts are trees of values, so aliases within one contract and a half-rewritten contract after an exception are not modelled; the diff is empty exactly when the trees are equal.
- ContractDependencies.MergeDependencies: the graph model takes the merged list of each contract as given by name; loading and validating contract files is outside it.
- SpendGovernor.WindowBudget: prices are inputs of a call; the estimate of dollars per token and its price table are left out.
- ExtractedWorkflows.SafeNameIsSafe: fallbacks other than the two that callers pass, the empty string and a legal name.
- The language-model providers, prompts, YAML extraction and the sanitising of a model's contract: network and heuristics; their outcome is an input of the protocol.
- `_candidates` and the fenced blocks of `engine/structured.py`: a list of attempts in fixed order around the scanner.
- The rest of `cross_reference`: route matching and the notes it appends.
- Entities' `to_emitter_data`, the route, page and Python analyzers, the error classifiers: tables of heuristics without an independent specification.
- HTTP rendering, webhooks, both command lines, telemetry, session and diff persistence, code templates other than the migration runner.
