# Data-movement scripts: a Dafny model with proofs

The scripts that move, clone, purge and canonicalise the platform's data all work on one relational store: tables of
rows, rows with an `id`, foreign-key columns, nullable self-references and JSON-like values. This project models that
store (`Relational.dfy`) and, on it, the logic of eight scripts. Loops, dictionaries that grow and records that are
updated in place are methods and classes; each of them is proved against a specification, and the properties the
scripts are for are theorems about those specifications.

| files | script |
|---|---|
| `Kahn.dfy`, `ManifestOrder.dfy`, `WorkPackets.dfy` | `scripts/validate_agentic_manifest.py`: Kahn's algorithm with counted indegrees |
| `TableOrder.dfy` | Kahn's algorithm with sets, in the cloner and the purge |
| `Remap.dfy`, `Collector.dfy`, `Cloner.dfy`, `CloneContents.dfy`, `CloneRun.dfy`, `CloneTheorems.dfy`, `InsertOrder.dfy`, `CloneScript.dfy`, `CloneOntoNote.dfy`, `IdempotencyKeys.dfy` | `scripts/clone_local_project_session.py` |
| `Sanitizer.dfy`, `SanitizerShape.dfy`, `SanitizerRun.dfy` | `scripts/generate_stage0_baseline.py`: the snapshot sanitiser |
| `Purge.dfy`, `PurgeCycle.dfy` | `scripts/run_react_runtime_clone_comparison.py`: the purge of generated state |
| `NaturalKeys.dfy`, `SnapshotRewrite.dfy`, `KeysByName.dfy`, `PassImport.dfy`, `ImportChains.dfy`, `MaterializedImport.dfy`, `References.dfy` | `scripts/import_materialized_project_snapshot.py` |
| `SessionImport.dfy`, `ImportedByName.dfy`, `ImportCommits.dfy`, `ImportTwice.dfy`, `SnapshotTwice.dfy`, `Collisions.dfy` | `scripts/import_session_snapshot.py` |
| `Dedupe.dfy`, `DedupeOrder.dfy`, `DedupeRun.dfy` | `scripts/dedupe_acp_questions.py` |
| `Sync.dfy`, `SyncEffects.dfy`, `SyncRun.dfy`, `WorkspaceMaps.dfy` | `scripts/sync_local_truth_to_target.py` |

`Names.dfy` holds Python's `sorted` on names, `Strings.dfy` its `strip` and `lower`, `Wrappers.dfy` an option type.

What the scripts leave behind is described twice: by functions that follow the code step by step, and in words of
tables, columns, rows and fields (`CloneContents`, `SanitizerShape`, `KeysByName`, `ImportedByName`, `DedupeOrder`,
`SyncEffects`, `WorkPackets` and the predicates called "by name"). The methods promise both.

How the parts the scripts take from outside appear: the store is a map from table names to sequences of rows; the
schema, with its columns and foreign keys, is a parameter; `uuid4()` is a function `draw` whose values differ from each
other and from every id in the store; clocks are parameters; a failed transaction is a result that leaves the store as
it was; a piece of text is a sequence of tokens (a character, a UUID, a timestamp), so that replacing one UUID never
creates another by accident.

## What the code does not do

Where a promised property does not hold of the code as written, the theorem gives the exact condition, or an input.

- A node listed twice is reported as a cycle by `topological_order` even when there is none
  (`ManifestOrder.RepeatedNode`).
- Replacing strings one source id after another is a simultaneous substitution exactly when no target of an earlier
  item is the source of a later one (`Remap.RemapIsSimultaneous`), and independent of the dictionary's order exactly
  when no target is a source that is rewritten to something else (`Remap.OrderNeverMatters`). One value is renamed at
  once exactly when none of its longer texts holds an id that is rewritten twice (`Remap.RenamedIffNoneInText`). In a
  clone that can only be the session's own id, and only when the target is the id of a collected row: the new rows are
  then copies exactly when no collected text names the session (`CloneScript.CloneSession`,
  `CloneOntoNote.NoteIsNoCopy`).
- Moving `sessions` to the front keeps the order valid exactly when `sessions` references none of the tables
  (`TableOrder.SessionsFirstIsValid`, `TableOrder.SessionsWithAParent`).
- The saturation loops visit a table once. A table that already holds rows is not looked at again, so a row of another
  session that references a selected one stays unselected and the purge fails on it (`Purge.SaturationIsNotClosure`).
- Users and workspaces reference each other, and the tables from which that circle can be reached are deleted in
  reverse alphabetical order. A purge succeeds exactly when the selection is closed under incoming references and no
  doomed row references one whose table comes later in the order, as on an acyclic schema none does
  (`Purge.PurgeGeneratedState`); a closed selection that is rejected is `PurgeCycle.ClosedButRejected`.
- A snapshot id that is new to the target but equals an id some other snapshot row is matched to makes two rows one.
  References keep their meaning exactly without such a collision (`References.ReferencesFollow`,
  `Collisions.ReferenceGoesAstray`). Two memberships can end under one natural key (`Collisions.KeyHeldTwice`): keys
  stay unique exactly when all rows looked up under one key are matched to a row of the target
  (`SessionImport.ImportKeepsKeysUnique`), as they are when the users and workspaces that keys refer to keep apart from
  the matched ones (`SessionImport.ApartIsMatched`).
- Importing a table's rows twice equals importing them once exactly when every row that loses its target row to a later
  new one has its own id taken by a later matched row (`ImportTwice.TwiceIsOnceIffCovered`,
  `Collisions.TwiceIsNotOnce`). A table without a natural key stays as it is exactly when no row that stays refers to a
  user or workspace that loses its target row (`SnapshotTwice.PlainTableSettled`); together they decide about the whole
  snapshot when no table with a natural key has such a reference (`SnapshotTwice.ImportTwiceIsOnce`).
- The files are committed one by one, users first. The import goes through exactly when every row that stays names, by
  each foreign key, a row that the target had or that a file so far has brought (`ImportCommits.CommitsIff`); a user
  whose default workspace is new to the target is refused (`ImportCommits.NewDefaultWorkspace`).
- The second commit of the deferred merge is free of dangling self-references exactly when each target is in the table
  or in the snapshot (`SessionImport.CommitsAreSound`).
- A UUID inside the text of an `id` or `_id` field is not aliased: a snapshot has a canonical form exactly when it has
  none of those (`Sanitizer.CanonicalIffPlain`, `Sanitizer.EmbeddedIdIsKept`).
- After `--apply`, the dedupe report ranks every group again and names a superseded duplicate as the kept record unless
  one of the group was resolved (`Dedupe.ReportIsRightIffResolved`).
- The extras reported by a sync are the target-only keys exactly when one side's keys are all among the other's
  (`Sync.ExtrasAreABound`, `Sync.ExtrasAreUnderReported`); a created record keeps its source id, so the commit fails
  exactly when one of those ids is taken (`Sync.CommitsWhenIdsAreFree`).
- Inserts are accepted exactly when the computed order puts each collected row behind the collected rows it references
  (`InsertOrder.AllFitIff`). No order accepts a row that references a later one of its own table through a field that
  is not deferred (`InsertOrder.LateParent`).
- Idempotency keys stay unique for every target, but not when the target is a collected row's id that one of the keys
  names (`IdempotencyKeys.TargetInKey`).
- The clone's title is built from the stored title, not from the remapped one, and an uncollected self-reference is set
  to null while any other uncollected reference is kept (`Cloner.ClonedColumns`).

## Model

| member | source | states |
|---|---|---|
| ManifestOrder.TopologicalOrder | scripts/validate_agentic_manifest.py:22-44 | Succeeds iff the nodes are distinct, every dependency is a node and the graph is acyclic; the result is a schedule (a permutation, every dependency before its dependents) in nondecreasing order of the longest chain; the first unknown dependency in reading order is the one reported; otherwise a failure on distinct nodes comes with a concrete cycle |
| ManifestOrder.RepeatedNode | scripts/validate_agentic_manifest.py:22-44 | A node listed twice, without any dependency, is reported as a cycle |
| WorkPackets.ListedIsFaithful | scripts/validate_agentic_manifest.py:52 | With distinct ids the dictionary built from the packets gives back the dependencies each one declares |
| ManifestOrder.FillTables | scripts/validate_agentic_manifest.py:23-30 | The indegree and follower dictionaries count and list exactly the edges read, repeated `depends_on` entries included, or the first unknown dependency stops the reading |
| ManifestOrder.Drain | scripts/validate_agentic_manifest.py:32-41 | Counting indegrees down gives the same sequence as removing finished nodes from dependency sets |
| ManifestOrder.PendingZero | scripts/validate_agentic_manifest.py:38-41 | A counter is zero iff every dependency, however often listed, has been emitted |
| WorkPackets.ValidateStageWorkPackets | scripts/validate_agentic_manifest.py:47-59 | Repeated packet ids are refused first; otherwise it succeeds iff every entry of a `depends_on` list names a packet and no packets depend on each other in a circle; then the ids come in layers, each behind all it depends on; an entry that names no packet is reported, the first one packet by packet, and else there is a circle |
| WorkPackets.ReportedIs | scripts/validate_agentic_manifest.py:26-30 | The entry reported is, of all that name no packet, the first one of the first packet that has one |
| WorkPackets.AcyclicIff | scripts/validate_agentic_manifest.py:43-55 | The graph built from the packets is acyclic iff no packets depend on each other in a circle |
| Kahn.OrderIsCycleFree | scripts/clone_local_project_session.py:176-184 | The emitted nodes are exactly those from which no dependency cycle can be reached |
| Kahn.OrderComplete | scripts/validate_agentic_manifest.py:35-43 | All nodes are emitted iff the graph has no cycle, by a pigeonhole argument on walks |
| Kahn.StuckWalk | scripts/validate_agentic_manifest.py:43 | From a node that is never emitted there are dependency walks of any length |
| Kahn.UpToBoundsWalks | scripts/validate_agentic_manifest.py:32-41 | A node is in layer k or below iff all its dependency walks have at most k + 1 nodes |
| Kahn.RunIsLayered | scripts/validate_agentic_manifest.py:35-41 | The queue invariant: at most two adjacent layers wait at any time, so the run emits layer after layer |
| Kahn.OrderIsLayered | scripts/validate_agentic_manifest.py:32-41 | Nodes come out in nondecreasing order of their longest dependency chain |
| TableOrder.TopologicalOrder | scripts/run_react_runtime_clone_comparison.py:110-132 | Discarding parents from sets yields the Kahn order of the foreign-key graph followed by the sorted remainder: first the tables from which foreign keys lead into no circle, each behind the tables its keys name, then the others in alphabetical order |
| TableOrder.CloneOrder | scripts/clone_local_project_session.py:164-192 | The same with `sessions` taken out and put in front |
| TableOrder.FullOrderByKeys | scripts/run_react_runtime_clone_comparison.py:110-132 | The graph in words of the foreign keys: an edge for each key that names another table of the set, none for a key to the table itself |
| TableOrder.PrefixIsCycleFree | scripts/clone_local_project_session.py:176-188 | With cycles, the Kahn prefix holds exactly the tables from which no cycle is reachable, parents first |
| TableOrder.CloneOrderIsPermutation | scripts/clone_local_project_session.py:186-192 | Whatever the cycles, the result lists every table once |
| TableOrder.SessionsFirstIsValid | scripts/clone_local_project_session.py:189-191 | Moving `sessions` to the front keeps parents before children iff `sessions` has no parent in the set |
| TableOrder.SessionsWithAParent | scripts/clone_local_project_session.py:189-191 | A valid order that moving `sessions` to the front breaks |
| TableOrder.CyclicCloneOrder | scripts/clone_local_project_session.py:176-192 | With cycles, and no parent of `sessions`: first `sessions`, then exactly the other tables from which no cycle is reachable, parents first, then the rest |
| TableOrder.OrderersAgree | scripts/run_react_runtime_clone_comparison.py:110-132 | On every acyclic graph without unknown dependencies the counting and the set-discarding orderer return the same sequence, repeated entries included |
| Remap.RemapText | scripts/clone_local_project_session.py:76-84 | A whole-string hit takes the shortcut; otherwise every token goes through the replacements one after the other |
| Remap.RemapValue | scripts/clone_local_project_session.py:64-85 | The recursion over dictionaries, lists, tuples, UUIDs and text computes the remapped value |
| Remap.RemapIsSimultaneous | scripts/clone_local_project_session.py:64-85 | Remapping equals one simultaneous substitution on all values iff no item rewrites what an earlier one put in place; then the shortcut and the loop agree |
| Remap.RenamedIffNoneInText | scripts/clone_local_project_session.py:64-85 | For any replacements, one value is renamed at once iff none of its texts, other than a whole UUID, holds an id that ends up elsewhere than the dictionary says |
| Remap.OrderNeverMatters | scripts/clone_local_project_session.py:80-84 | Any two iteration orders of the replacements give the same result on every value iff no target is a source that is rewritten to something else |
| Remap.RemapKeepsShape | scripts/clone_local_project_session.py:70-75 | Whatever the replacements, nesting, lengths and dictionary keys are kept: all that remains when ids are blanked is unchanged |
| Remap.UnmentionedIsKept | scripts/clone_local_project_session.py:64-85 | Whatever the replacements, a value that mentions no source id is unchanged |
| Remap.SourceIdsAreGone | scripts/clone_local_project_session.py:64-85 | No source id survives anywhere in a remapped value |
| Collector.Saturate | scripts/clone_local_project_session.py:134-159 | The loop ends, each changing pass adding a table, in the selection that visiting the tables in order determines: each table added with all the rows that then reference a selected one, only rows reached from the seeds, and no unselected candidate table left that references a selected row |
| Collector.ReferringRowsAreSelected | scripts/clone_local_project_session.py:143-158 | Of an added table every row that references a seed is selected |
| Collector.CollectRows | scripts/clone_local_project_session.py:103-161 | Fails iff the session does not exist; otherwise the collection is the session, the rows carrying its id and the dependents that the saturation over the tables in name order determines, each table as the stored rows filtered in their order; knowledge documents and sections are left out |
| Collector.CollectionIsByName | scripts/clone_local_project_session.py:103-161 | Which rows of which table are collected: of `sessions` the one, of a table that carries the session its rows, of any other selected table the rows with a selected id |
| Collector.SelectionIsByName | scripts/clone_local_project_session.py:117-159 | In a table keyed by `id`, every row carrying the session is selected, and a table left out has no row that references a selected one |
| Collector.CollectedIsChained | scripts/clone_local_project_session.py:103-161 | Every collected row is the session itself or references a row linked to it by a chain of foreign keys |
| Collector.CollectionIsSaturated | scripts/clone_local_project_session.py:134-161 | On exit no uncollected, non-excluded table with a key `id` has a row that references a collected one |
| Collector.CollectDeletableIds | scripts/run_react_runtime_clone_comparison.py:135-168 | The purge's selection is the one the saturation over the given tables determines: reached from the sessions, never in a preserved or global table, each table added with all its matching rows, and saturated; by name, the tables left alone are `sessions`, `opportunities`, `knowledge_documents` and `knowledge_sections` |
| Cloner.PrepareReplacements | scripts/clone_local_project_session.py:195-215 | The replacements cover exactly the collected ids and the session, each with its own draw, the session with the target |
| Cloner.RewriteRow | scripts/clone_local_project_session.py:218-255 | The step-by-step rewriting of a copied row computes the specified row |
| Cloner.ClonedColumns | scripts/clone_local_project_session.py:218-281 | Column by column: `session_id` becomes the target, a self-reference the clone of its target if that was collected and null otherwise, every other column its remapped value |
| Cloner.SessionIsReset | scripts/clone_local_project_session.py:239-249 | The session's clone has the target id, is neither archived nor deleted, has a later version and one title, trimmed |
| CloneContents.ClonedRowIs | scripts/clone_local_project_session.py:218-255 | What every cell of a clone holds: `session_id` the target, a self-reference its replacement or null, an idempotency key of the three tables the remapped key, the mark and the target's first digits, nine columns of the session what is set anew, and every other cell the stored one remapped |
| CloneContents.SessionLives | scripts/clone_local_project_session.py:239-249 | The session's clone: the target's id, `title` and `suggested_title` the trimmed title, a blank and the suffix, `title_source` migrated, a `row_version` one above the stored one, the four archive and delete columns null |
| CloneContents.TrimmedTitle | scripts/clone_local_project_session.py:241-243 | With a trimmed title and suffix the new title is exactly title, blank, suffix |
| IdempotencyKeys.IdempotencyKeysStayUnique | scripts/clone_local_project_session.py:236-237 | Idempotency keys unique within a workspace are so among the old rows and the clones together, whatever id the target is, when no new id and no mark of the target occurs in them yet |
| IdempotencyKeys.TargetInKey | scripts/clone_local_project_session.py:64-85 | Two keys, one naming the session and the other one a collected row whose id is the target, become one |
| CloneRun.InsertAll | scripts/clone_local_project_session.py:307-323 | The inserts succeed iff every batch fits when it is its turn, and then the store is the old one with the clones appended |
| CloneRun.PatchStore | scripts/clone_local_project_session.py:258-281 | Updating by id, row by row, turns each inserted clone into its patched form and touches no other row, cyclic `based_on` and `superseded_by` links included |
| CloneTheorems.DrawnIsFaithful | scripts/clone_local_project_session.py:195-215 | With fresh draws, and a target that is no session's id, the replacements are injective and lead to ids that are free in their tables |
| CloneTheorems.ChainedIffCollected | scripts/clone_local_project_session.py:195-215 | An id is rewritten twice iff it is the session's and the target is itself a collected row's id; otherwise the order of the replacements has no part in the outcome |
| CloneTheorems.CloneIsCopy | scripts/clone_local_project_session.py:284-331 | Old rows are unchanged and in place and uncollected tables untouched; the clones stand for the collected rows one for one under the renaming iff no remapped text of a collected row holds an id that is rewritten twice |
| CloneTheorems.ReferencesCorrespond | scripts/clone_local_project_session.py:218-255 | A clone's reference names the clone of v iff the original's names v; a reference to an uncollected row is unchanged |
| CloneTheorems.CloneKeepsReferences | scripts/clone_local_project_session.py:284-331 | A store with no dangling foreign key has none after the clone |
| CloneTheorems.CloneKeepsKeys | scripts/clone_local_project_session.py:195-255 | Primary keys stay unique |
| InsertOrder.ReferenceResolvesIff | scripts/clone_local_project_session.py:251-323 | At its insert a reference of a clone resolves iff the collected row it leads to, if it is one, stands in a table inserted before or not later in its own; none relies on a nulled field |
| InsertOrder.RowsFitIff | scripts/clone_local_project_session.py:307-323 | A batch is accepted iff each of its rows finds the collected rows it references inserted |
| InsertOrder.AllFitIff | scripts/clone_local_project_session.py:307-323 | For every order of the tables with `sessions` first, all batches are accepted iff each collected row comes behind the collected rows it references |
| InsertOrder.LateParent | scripts/clone_local_project_session.py:307-323 | No order of the tables makes the inserts of a row before the later row of its own table that it references acceptable, unless the field is deferred |
| InsertOrder.OrderFits | scripts/clone_local_project_session.py:307-323 | In a valid order with `sessions` first, and with self-references deferred, every batch is accepted |
| CloneScript.CloneSession | scripts/clone_local_project_session.py:284-342 | The whole clone: fails on a missing session, changes nothing in a dry run, otherwise leaves every old row in place, maps references one to one and keeps all of them intact; every cell of every new row is described by its column, and the session's clone is live under the target's id with the suffixed title; the new rows are an isomorphic copy of the determined collection iff not both the target is a collected row's id and some collected text names the session; onto a new id it is accepted iff the computed order puts each collected row behind those it references, as it does when the collected tables can be ordered, and never onto an existing session |
| CloneOntoNote.NoteIsNoCopy | scripts/clone_local_project_session.py:64-85 | A session cloned onto the id of its own note: accepted, with all references intact, and no copy |
| Sanitizer.AlikeSanitizes | scripts/generate_stage0_baseline.py:86-105 | Snapshots equal up to a renaming of UUIDs and erased timestamps sanitise equal, from registries that correspond |
| Sanitizer.EqualComesFromAlike | scripts/generate_stage0_baseline.py:86-105 | Snapshots that sanitise equal are equal up to the renaming read off the two registries |
| Sanitizer.SanitizeIsCanonical | scripts/generate_stage0_baseline.py:80-105 | From empty registries two plain snapshots sanitise equal iff a bijective renaming of UUIDs makes them alike |
| Sanitizer.CaseIsCanonical | scripts/generate_stage0_baseline.py:247-250 | The same for the three payloads of a case, under one renaming shared by all three |
| Sanitizer.WholeIsGeneral | scripts/generate_stage0_baseline.py:98-103 | The whole-string branches agree with the substitution inside text |
| Sanitizer.CanonicalIffPlain | scripts/generate_stage0_baseline.py:86-105 | A raw snapshot sanitises the same as every raw snapshot alike to it iff no id field of it holds a UUID inside other text |
| Sanitizer.EmbeddedIdIsKept | scripts/generate_stage0_baseline.py:94-95 | The smallest such snapshot, and one alike to it that sanitises differently |
| SanitizerShape.Shape | scripts/generate_stage0_baseline.py:86-105 | By induction on the tree: what the sanitiser makes of each node, and that the UUIDs added to the registry are those met outside text of id fields and `_at` fields, each once, in the order met |
| SanitizerRun.UuidRegistry.AliasUuid | scripts/generate_stage0_baseline.py:80-83 | A known UUID keeps its alias, a new one gets the next number |
| SanitizerRun.UuidRegistry.SanitizeValue | scripts/generate_stage0_baseline.py:86-105 | The traversal that fills the shared dictionary computes the specified result and registry: the same tree with the same keys in order, numbers, booleans, nulls and characters as they were, timestamps marked outside id fields, strings of `_at` fields replaced by the mark, text of an id field that is no whole UUID kept, and each aliased UUID numbered in the order first met |
| SanitizerRun.BuildCasePayloads | scripts/generate_stage0_baseline.py:247-250 | The three payloads go through one registry in turn, each becoming such a tree under one common numbering |
| Purge.PurgeIsSoundIffClosed | scripts/run_react_runtime_clone_comparison.py:171-191 | The purged store has no dangling reference iff the doomed rows are closed under incoming references |
| Purge.StepIsSound | scripts/run_react_runtime_clone_comparison.py:178-191 | Deleting children before parents, no reference dangles after any single delete |
| Purge.StepIsSoundIff | scripts/run_react_runtime_clone_comparison.py:178-191 | For a closed selection and any tables deleted so far, no reference dangles iff no doomed row that still stands references a deleted one |
| Purge.StepsSoundIff | scripts/run_react_runtime_clone_comparison.py:171-191 | On every schema, cyclic or not, and for every order of the tables, all deletes go through iff the doomed rows are closed under incoming references and none of them references one whose table comes later in the order |
| Purge.DoomedIsReached | scripts/run_react_runtime_clone_comparison.py:135-191 | Every deleted row is in no preserved table and references a row chained by foreign keys to the given sessions |
| Purge.DeleteAll | scripts/run_react_runtime_clone_comparison.py:178-191 | The deletes succeed iff the store is sound after each; then exactly the doomed rows are gone and the counts add up |
| Purge.PurgeGeneratedState | scripts/run_react_runtime_clone_comparison.py:171-198 | Over the selection that the schema, the rows and the order of the tables determine: `opportunities`, `knowledge_documents` and `knowledge_sections` stay as they are, any other table but `sessions` keeps, in their order, exactly the rows without a selected id or, with no selection, without one of the sessions, no reference dangles, each session of the set has stage `normalize_discovery`, status `needs_review` and the given time and is else as before, other sessions are unchanged, the counts account for every row; on any schema it succeeds iff that selection is closed and the computed order deletes every referencing doomed row no later than the row it references, which on an acyclic schema it does |
| Purge.PurgedIsByName | scripts/run_react_runtime_clone_comparison.py:171-194 | Which rows of which table are left |
| Purge.SessionsAreReset | scripts/run_react_runtime_clone_comparison.py:195-197 | The reset, column by column |
| Purge.SaturationIsNotClosure | scripts/run_react_runtime_clone_comparison.py:147-168 | A store on which every saturated selection fails to be closed |
| PurgeCycle.ClosedButRejected | scripts/run_react_runtime_clone_comparison.py:110-191 | With users and workspaces referencing each other, every saturated selection of one session is closed, yet the run is deleted before its artifact and the purge is rejected |
| PassImport.AcceptsIffParentsIn | scripts/import_materialized_project_snapshot.py:294-308 | The database takes a row iff it has an id and each of its references is null, present or to itself |
| PassImport.UpsertAllIs | scripts/import_materialized_project_snapshot.py:294-308 | Rows with distinct ids end up in the table as given, rows under other ids stay, the key stays unique |
| PassImport.ImportTable | scripts/import_materialized_project_snapshot.py:384-398 | Taken and remaining rows partition the pending ones; the table holds the taken rows over what it held; every rejected row lacks a parent |
| PassImport.Pass | scripts/import_materialized_project_snapshot.py:371-402 | A pass keeps the invariant, and makes progress iff some table has fewer rows pending |
| PassImport.PassCompletes | scripts/import_materialized_project_snapshot.py:371-402 | A pass brings in every row whose parents were there before it, so pass k resolves chains of length k |
| PassImport.LevelsAreLeast | scripts/import_materialized_project_snapshot.py:371-407 | What the passes can bring in is within every set closed under "all parents present" |
| PassImport.StuckIsSettled | scripts/import_materialized_project_snapshot.py:404-407 | When the loop ends of itself the imported rows are the least fixpoint and the pending rows of present tables are those that lack a parent |
| PassImport.ImportSnapshot | scripts/import_materialized_project_snapshot.py:368-407 | Imported plus remaining equals the input per table; chains of up to eight missing parents are resolved; the pending total falls on every pass but the last |
| PassImport.ImportIsConfluent | scripts/import_materialized_project_snapshot.py:371-407 | Two settled imports of the same rows, tables and rows in any order, agree on what is in and on what is pending |
| PassImport.SameContents | scripts/import_materialized_project_snapshot.py:371-407 | and leave the same rows in every table |
| PassImport.ImportedAsGiven | scripts/import_materialized_project_snapshot.py:384-398 | A table ends with the imported rows exactly as given and every row under another id untouched |
| ImportChains.LevelBoundsChains | scripts/import_materialized_project_snapshot.py:371-407 | What k rounds make available are exactly the keys from which every chain of missing keys has at most k members and ends in a row the snapshot has |
| ImportChains.PassesKeepReferences | scripts/import_materialized_project_snapshot.py:371-407 | A database without dangling references has none after any number of passes |
| NaturalKeys.BuildIdMap | scripts/import_materialized_project_snapshot.py:75-98 | The map sends a snapshot id to an existing row with the same complete key whenever there is one, and nothing else |
| KeysByName.MapsAreByName | scripts/import_materialized_project_snapshot.py:75-229 | The columns of each table's natural key by name, and in both scripts: a row is matched to a target row that holds in each of them, not empty, what the snapshot row has, emails and slugs normalised and references under their new ids; and it is matched whenever there is one |
| NaturalKeys.ExistingIsOverwritten | scripts/import_materialized_project_snapshot.py:255-268 | A snapshot row whose key exists in the target becomes an update of that very row |
| NaturalKeys.RewrittenIdsDistinct | scripts/import_materialized_project_snapshot.py:255-268 | Distinct snapshot rows get distinct ids iff no new id collides with a matched one |
| NaturalKeys.StaysUniqueIff | scripts/import_materialized_project_snapshot.py:75-98 | No part of the snapshot, merged in any order, makes a table hold a natural key twice iff all rows looked up under one key are matched |
| NaturalKeys.WholeIsUniqueIff | scripts/import_materialized_project_snapshot.py:75-98 | When no id collides, the table left by all of the snapshot holds no key twice iff the same is true |
| SnapshotRewrite.RewriteRow | scripts/import_materialized_project_snapshot.py:240-284 | The rewriting of a copied row in place computes the specified row, and every cell of it is described by its column |
| SnapshotRewrite.RewrittenIs | scripts/import_materialized_project_snapshot.py:232-284 | `user_id` and every column ending in `_user_id`, in the session script the nine listed ones, follow the user map, `workspace_id` and the like the workspace map, and so does `scope_id` of the audit; `id` follows the table's own map; any other cell is unchanged |
| SnapshotRewrite.RewrittenKeyIsLookupKey | scripts/import_materialized_project_snapshot.py:101-284 | A rewritten row carries the very key it was looked up under |
| SnapshotRewrite.LookupKeysDistinct | scripts/import_materialized_project_snapshot.py:75-229 | Keys that differ in the snapshot as stored differ as they are looked up, when the references in them keep apart from the matched ids |
| MaterializedImport.UpsertsAreMerges | scripts/import_materialized_project_snapshot.py:294-308 | Upserting row by row is merging into the table indexed by primary key |
| MaterializedImport.PassesKeepKeysUnique | scripts/import_materialized_project_snapshot.py:311-407 | After any number of passes no table holds a natural key twice when all rows looked up under one key are matched, and once the table is imported in full without a collision of ids exactly then |
| MaterializedImport.ImportSnapshot | scripts/import_materialized_project_snapshot.py:311-417 | The whole import: id maps that match by the named columns, rewriting described cell by cell, and passes, with every row either imported or reported unresolved |
| References.ReferencesFollow | scripts/import_materialized_project_snapshot.py:270-282 | Every reference in a column named for a user or a workspace, `scope_id` of the audit included, names after the import the rewritten row of the entity it named, iff no id collides |
| References.ReferencesAfterPasses | scripts/import_materialized_project_snapshot.py:270-407 | While rows are pending: an imported row's reference names its entity's rewritten row if that is imported, and until then the row the database held under the entity's new id |
| References.MatchedByKey | scripts/import_materialized_project_snapshot.py:75-98 | which, for a matched entity, is the row with its natural key |
| Collisions.ReferenceGoesAstray | scripts/import_materialized_project_snapshot.py:255-282 | A snapshot whose membership of one user names another one afterwards |
| SessionImport.TwoPhasesAreOneMerge | scripts/import_session_snapshot.py:284-317 | Merging with the deferred fields nulled and then in full reaches the state of one full merge |
| SessionImport.AnyRowOrder | scripts/import_session_snapshot.py:284-317 | for every order of the rows |
| SessionImport.CommitsAreSound | scripts/import_session_snapshot.py:254-317 | No imported self-reference dangles at the first commit; none does at the second iff each target is in the table or in the snapshot |
| SessionImport.BuildMaps | scripts/import_session_snapshot.py:97-201 | The dependent maps are looked up under the user and workspace maps of the same run |
| SessionImport.ImportKeepsKeysUnique | scripts/import_session_snapshot.py:97-319 | In either script, whatever rows have been taken so far and in whatever order, natural keys stay unique iff all rows looked up under one key are matched; without a collision of ids the same decides about the table in the end |
| SessionImport.ApartIsMatched | scripts/import_session_snapshot.py:97-251 | So they are for a snapshot that repeats no key as stored and whose references in keys keep apart |
| SessionImport.InsideIsApart | scripts/import_session_snapshot.py:215-245 | References in keys keep apart when they stay inside the snapshot and neither users nor workspaces collide |
| Collisions.KeyHeldTwice | scripts/import_session_snapshot.py:215-251 | A snapshot with two memberships of distinct keys that end under one |
| ImportCommits.ImportFile | scripts/import_session_snapshot.py:284-318 | One file: rewriting, the first merge and commit, and the second ones when fields were deferred; a refused commit leaves what was committed before |
| ImportCommits.ImportFiles | scripts/import_session_snapshot.py:284-319 | File after file until a commit is refused: all files are in, or exactly those before it |
| ImportCommits.ImportSnapshot | scripts/import_session_snapshot.py:262-319 | The whole import ends in the specified database, with the row counts of the seventeen files, iff every commit goes through; the maps match by the named columns, and where each row of a file lands and what stays is described row by row |
| ImportedByName.MergedIsImported | scripts/import_session_snapshot.py:262-319 | What the database holds after the import of the seventeen files: under the id of an imported row the last row imported under it, cell by cell, and under any other id the row it had |
| ImportedByName.ParentsComeFirst | scripts/import_session_snapshot.py:40-62 | The files come in an order that puts the tables a row refers to, as the models declare it, before its own, but for the default workspace of a user; the references within a table are exactly the deferred ones |
| ImportedByName.StrippedIs | scripts/import_session_snapshot.py:254-259 | The first commit of a stage artifact holds null in its two self-references and all else as given |
| ImportCommits.MergeCommits | scripts/import_session_snapshot.py:284-303 | Merging rows keeps the database free of dangling references iff each row that stays finds its parents in it or among the rows merged |
| ImportCommits.SecondImpliesFirst | scripts/import_session_snapshot.py:284-317 | When the full rows can be committed, so can the rows without their deferred fields before them |
| ImportCommits.CommitsIff | scripts/import_session_snapshot.py:284-318 | Every commit goes through iff each row that stays names, through each foreign key, a row the target had or one of the files so far has brought |
| ImportCommits.NewDefaultWorkspace | scripts/import_session_snapshot.py:284-303 | Users come first: one whose default workspace is new to the target is refused at the first commit |
| ImportTwice.TwiceIsOnceIffCovered | scripts/import_session_snapshot.py:284-317 | For one table: the second import changes nothing iff every row that loses its target row to a later new one has its own id taken by a later matched row |
| Collisions.TwiceIsNotOnce | scripts/import_session_snapshot.py:97-319 | A normalised snapshot without repeated keys whose second import adds a user |
| SnapshotTwice.ImportTwiceIsOnce | scripts/import_session_snapshot.py:262-319 | The second run builds its maps from the database the first one leaves; when no row of a table with a natural key refers to a user or workspace that loses its target row, it changes nothing iff every such table meets the condition above and no row that stays in another table refers to such a user or workspace |
| SnapshotTwice.PlainTableSettled | scripts/import_session_snapshot.py:284-317 | For one table without a natural key: the second import changes nothing iff no row that stays refers to a user or workspace that loses its target row |
| ImportTwice.SecondMapAgreesIff | scripts/import_session_snapshot.py:97-201 | The second run's map sends an id elsewhere iff it is that of a row that loses its target row |
| SnapshotTwice.CleanIsCoherent | scripts/import_session_snapshot.py:97-251 | Its hypothesis on keys holds of a snapshot that repeats no key as stored and whose references in keys keep apart |
| Dedupe.MergeUniqueIsUnion | app/services/question_identity.py:41-50 | The merged list is the union of the stripped values, without blanks and repetitions |
| Dedupe.MergeUniqueInOrder | app/services/question_identity.py:41-50 | in the order in which the values are first mentioned |
| Dedupe.WinnerIsFirstOfTheBest | scripts/dedupe_acp_questions.py:62-71 | The winner is the first record that no other of the group ranks above |
| Dedupe.ResolvedIsKept | scripts/dedupe_acp_questions.py:24-31 | A group with a resolved record keeps a resolved one |
| Dedupe.NothingIsLost | scripts/dedupe_acp_questions.py:149-166 | Every source ref, deliverable key and dependency key of the group is on the kept record |
| Dedupe.OneActivePerSignature | scripts/dedupe_acp_questions.py:185-213 | After a run no two active records share a signature |
| Dedupe.BestIsKept | scripts/dedupe_acp_questions.py:140-182 | Every signature that had an active record keeps one, of maximal rank in its group |
| DedupeOrder.KeptIsPreferred | scripts/dedupe_acp_questions.py:62-71 | No record of the group has a better status than the kept one (resolved, then closed, then deferred, then any other); among equals none has an answer, assumed or else suggested, if the kept one has none; then none has more deliverable and dependency keys, then none a higher confidence, then none a later update; and each of those is better for the kept one against the records before it |
| DedupeOrder.PreferredIsAbove | scripts/dedupe_acp_questions.py:24-71 | The rank says just that |
| DedupeOrder.RunEnds | scripts/dedupe_acp_questions.py:140-213 | What every record is after a run, in words of the records that ask the same: unchanged if none does, the preferred one with the merged lists in the order first met and the ids of the others, and the others closed, pointing to it |
| Dedupe.SecondRunChangesNothing | scripts/dedupe_acp_questions.py:185-213 | A second run, over the records in any order, changes none |
| Dedupe.FinishingAGroup | scripts/dedupe_acp_questions.py:147-182 | Deduplicating a group takes all of it but one record out of the active ones |
| Dedupe.ReportIsRightIffResolved | scripts/dedupe_acp_questions.py:108-113 | Ranking a group of active, normalised records again after the changes names the kept one iff one of the group is resolved |
| Dedupe.ReportNamesKeeper | scripts/dedupe_acp_questions.py:108-113 | Whatever the statuses, it names the kept record when that ranks as resolved and a superseded one when it ranks as open, in progress or deferred |
| DedupeRun.MergeUniqueStrings | app/services/question_identity.py:41-50 | The loop with its `seen` set computes the specified list |
| DedupeRun.GroupBySignature | scripts/dedupe_acp_questions.py:101-105 | Every record is in the group of its signature, in the order read |
| DedupeRun.ApplyBacklogGroup | scripts/dedupe_acp_questions.py:140-182 | In place: the winner takes the merged lists, the others are closed and point to it, and their number is returned |
| DedupeRun.Run | scripts/dedupe_acp_questions.py:185-213 | Every record ends as specified, and as described by its fields; active before equals active after plus superseded; a dry run changes nothing |
| Sync.SourceLands | scripts/sync_local_truth_to_target.py:405-423 | After a sync the target agrees with every source row on its key and copied fields |
| Sync.OthersStay | scripts/sync_local_truth_to_target.py:405-423 | A record whose key the source does not have is left exactly as it was |
| Sync.SyncedKeys | scripts/sync_local_truth_to_target.py:405-423 | The target's keys become the union of both sides', each once |
| Sync.Counted | scripts/sync_local_truth_to_target.py:405-423 | Created plus updated plus unchanged is the source size, and the table grows by the created ones |
| SyncEffects.EachRow | scripts/sync_local_truth_to_target.py:391-428 | Source row by source row: a row with a new key adds a record with its id, key and copied columns and defaults for the rest, and counts as created; otherwise the last record stored under the key takes the copied columns and nothing else changes, and it counts as updated iff one of them differed |
| Sync.SecondSyncIsUnchanged | scripts/sync_local_truth_to_target.py:391-428 | A second sync reports every row unchanged and changes none |
| Sync.CommitsWhenIdsAreFree | scripts/sync_local_truth_to_target.py:411-418 | The primary keys are unique at the commit iff no record to be created carries an id that is taken |
| Sync.ExtrasAreABound | scripts/sync_local_truth_to_target.py:425 | The extras never exceed the number of target-only keys, and equal it iff one side's keys are all among the other's |
| Sync.ExtrasAreUnderReported | scripts/sync_local_truth_to_target.py:425 | One record on each side under different keys: none is reported though the target has one |
| SyncRun.TargetRecord.ApplyFields | scripts/sync_local_truth_to_target.py:150-164 | The copied fields are overwritten in place, and the answer is whether any differed |
| SyncRun.SyncTable | scripts/sync_local_truth_to_target.py:391-428 | The loop over loaded records reports the specified counts and commits the specified table; a dry run commits nothing |
| WorkspaceMaps.ParseIs | scripts/sync_local_truth_to_target.py:286-295 | An argument pairs a source with a target iff, trimmed, it is the one, the first `=` and the other, both trimmed, in small letters and not empty; it is passed over iff it is blank |
| WorkspaceMaps.ParseWorkspaceMaps | scripts/sync_local_truth_to_target.py:283-303 | Fails iff an argument is malformed, naming the first; otherwise each source has its targets once, in the order first mentioned |

## Left out

- Text: a string is a sequence of tokens, so a UUID is replaced whole; overlapping matches, other spellings of a UUID and regular-expression matching are not modelled.
- Strings.Strip, Strings.Lower: ASCII only, with four white-space characters; Unicode case folding is a parameter (`Norm`, `Signature`) where the scripts need more.
- `uuid4`: an injective source of unused ids; that it could repeat is not modelled.
- Collector.CollectedIsChained, Purge.DoomedIsReached: ask that a column `session_id` is a foreign key to `sessions`.
- Dedupe.BacklogRank: the update time is always set, so the fall-back to the creation time is left out.
- CloneScript.CloneSession: asks that an id belongs to rows of one table only, as random UUIDs do, that `session_id` refers to `sessions` and that tables with deferred self-references are keyed by `id`.
- SQL and the ORM: statements are map and sequence updates; foreign keys are checked after each statement of the clone and the purge and at each commit of the session import; reflection, autoflush, deferred constraints and string-versus-UUID comparison are left out.
- Store: a value that the methods return changed, not a connection object; a rolled-back transaction is a failure result.
- Uniqueness constraints other than the primary key: not a reason for rejection in the clone and in the pass loop. Natural keys are the subject of `SessionImport.ImportKeepsKeysUnique` instead.
- PassImport.Upsert: the conflict key is the single column `id`; tables with another primary key are left out.
- Sanitizer: JSON objects are ordered entry lists with their keys, compared in order.
- SnapshotTwice.ImportTwiceIsOnce: says nothing of a snapshot in which a row of a table with a natural key refers to a user or workspace that loses its target row.
- Dedupe.ReportIsRightIffResolved, Dedupe.ReportNamesKeeper: say nothing of an active status that only becomes `dismissed` or `superseded` when blanks and case are removed.
- DedupeRun.Run: the report of duplicate response questions is left out; question texts are normalised by a parameter.
- SyncRun.SyncTable: one function stands for the `_sync_*` functions that share its shape; the runtime defaults, workspace settings, secrets and knowledge syncs, and the `overrides` argument, are left out.
- Argument parsing, file and JSON input and output, database URLs, environment variables, secret encryption and clocks.
- The services the scripts import (ledger, pricing, journey state machine, quota, estimation): not part of this model.
- `app/models.py` and the migrations: read only for which columns are keys; the schema is a parameter.
