# belmarsh dependency analysis, modelled in Dafny

belmarsh checks the import structure of a TypeScript repository. It reads every
`.ts` file under a root and recognises lines of the form
`import { … } from './path';`. Each import literal is resolved to a file on disk.
Both ends of the import are then located under the root as *child paths*. A child
path is a *barrel* when its file name is `index.ts` or `testing.ts`. The first
directory under the root names the path's *module*.

From this, belmarsh builds two edge lists:

- file-level edges, between child paths;
- module-level edges, between modules, without edges that stay inside one module.

Four validation rules run over these edge lists:

- an import of a file in another module must go through a barrel;
- a barrel must not import a barrel;
- the file graph must have no cycle;
- the module graph must have no cycle.

Cycles are found by a three-colour depth-first search (`CycleDetector`).

The model has one Dafny module per source file, plus three shared helpers:
`Wrappers` (Option, Result), `Text` (string predicates) and `Paths` (paths as
sequences of `std::path::Component`s):

| Dafny module | source |
|---|---|
| `Modules` (module.dfy) | src/lib/module.rs |
| `ImportPaths` (import_path.dfy) | src/lib/import_path.rs |
| `Child` (child.dfy) | src/lib/repository/child.rs |
| `ImportLine` (import_line.dfy) | the import pattern of src/lib/repository/file.rs |
| `RepositoryFiles` (file.dfy) | src/lib/repository/file.rs |
| `ModuleMappings` (module_mapping.dfy) | src/lib/module_mapping.rs |
| `Dependencies` (dependency.dfy) | src/lib/dependency/mod.rs |
| `Graphs` (graph.dfy) | walks and acyclicity of adjacency maps |
| `CycleSearch` (cycle.dfy) | the search invariant of src/lib/dependency/cycle.rs |
| `Cycle` (cycle.dfy) | src/lib/dependency/cycle.rs |
| `DependencyList` (list.dfy) | src/lib/dependency/list.rs |
| `Validate` (validate.dfy) | src/commands/validate/*.rs |

Modelling choices:

- The file system is a value, `ImportPaths.FileSystem`. It has three fields:
  - `pathExists`;
  - `canonicalize`, which is partial;
  - `open`, which gives a file's lines, each read or failed.
- The two stateful parts are classes:
  - `CycleDetector`, whose `states` and `cycles` fields its recursive `Dfs` updates.
    `Dfs` is split into `Enter` (mark and push), `CheckDependencies` (the loop) and
    `Leave` (pop and mark). A ghost field `rank` numbers the finished nodes. Each
    finished node ranks above its successors, which is what shows that a search
    recording no chain has seen an acyclic map;
  - `RepositoryFile`, whose two write-once cells `Imports` and `Module` fill.
- The edge-list builders and the barrel rules are pure iterator pipelines in the
  source, so they are functions here.
- `group_by_from`, the circular rules and `to_dependency_chain_list` loop and
  allocate, so they are methods. `to_dependency_chain_list`
  (src/lib/dependency/list.rs:53) enumerates dependency chains from each source.
  No command in the source calls it. It is modelled as `DependencyList.ChainList`.

## Model

| member | source | states |
|---|---|---|
| Modules.FromComponent | src/lib/module.rs:21-32 | a component is a module exactly when it is a plain name, and the module holds that name; any other component is rejected with its own text |
| Modules.SpecialComponentsRejected | src/lib/module.rs:8-16 | the root, `.` and `..` components are rejected with `/`, `.` and `..`; a prefix is rejected with its own text |
| Modules.RenderInjective | src/lib/module.rs:10 | two modules render to the same text exactly when they are equal |
| Paths.StripPrefix | src/lib/repository/child.rs:125 | stripping succeeds exactly when the root is a component-wise prefix, and the root followed by the remainder is the path |
| Paths.FileName | src/lib/repository/child.rs:127-130 | the file name exists exactly when the last component is a plain name, and it is that name |
| Paths.Parent | src/lib/file_parent_path.rs:8-12 | the parent is the path without its last component, or the empty path when there is no parent |
| Paths.JoinText | src/lib/import_path.rs:30 | `Path::join`: an absolute text replaces the base, and so does any text joined to the empty path; otherwise the text follows the base, after a '/' unless the base already ends in one |
| Paths.RenderPush | src/lib/import_path.rs:30 | a path with one more component renders as the path, a '/' and the component; after the root alone, no extra '/' |
| Paths.RenderEndsInName | src/lib/import_path.rs:30 | a normalised path other than the empty path and the root renders to a non-empty text not ending in '/' |
| Paths.JoinTextRendersJoin | src/lib/import_path.rs:30-47 | joining a relative text to a normalised path gives the text of that path with the text as one more component |
| Paths.RenderInjective | src/lib/dependency/mod.rs:23-26 | relative paths of plain components (names without '/', and `.`/`..`) render to the same text exactly when they are equal |
| ImportPaths.FirstExisting | src/lib/import_path.rs:32-48 | the result is the first candidate that exists, no earlier candidate existing; when none exists it is the fallback |
| ImportPaths.TsLiteralIsNotExtended | src/lib/import_path.rs:29-30 | a literal ending in `.ts`, `.d.ts` included, is joined as it is, whatever exists on disk |
| ImportPaths.ChosenPathIsFirstExisting | src/lib/import_path.rs:31-50 | any other literal resolves to the first existing candidate among `.ts`, `.d.ts` and `/index.ts`, in that order, else to the literal itself |
| ImportPaths.FromImportString | src/lib/import_path.rs:24-60 | resolution succeeds exactly when the chosen path canonicalises, giving the canonical path; otherwise `CannotFindFile` carries the chosen path's text |
| Child.FromPath | src/lib/repository/child.rs:121-141 | succeeds exactly when the root is a prefix, and root plus relative path is the path; barrel exactly when the last component is `index.ts` or `testing.ts`; otherwise `ImportOutsideRoot` carries the whole path |
| Child.FromImportPath | src/lib/repository/child.rs:92-100 | the result of `from_path` on the resolved import, with its error wrapped |
| Child.FromFilePath | src/lib/repository/child.rs:111-119 | the result of `from_path` on the file's path, with its error wrapped |
| Child.FromRepositoryFile | src/lib/repository/child.rs:102-109 | the result of `from_path` on the file's path against its base path, with its error wrapped twice |
| Child.ModuleOf | src/lib/repository/child.rs:147-153 | the module is the first component when that is a plain name; an empty path gives `CouldNotGetModule`; any other first component gives `ModuleConversionError` |
| Child.FromPathRoundTrip | src/lib/repository/child.rs:125-135 | a path under the root always converts, the root is stripped exactly, and the barrel flag is the one the path dictates |
| Child.WellFormedEquality | src/lib/repository/child.rs:81-85 | for child paths the code builds, derived equality is equality of paths |
| Child.ModuleOfFileUnderRoot | src/lib/repository/child.rs:147-153 | the module of a file under the root is the first directory below the root, whatever lies deeper |
| Child.RootHasNoModule | src/lib/repository/child.rs:148-150 | the root is inside itself but has no module |
| ImportLine.Capture | src/lib/repository/file.rs:108-111 | a captured literal starts with `.`, has at least two characters and contains no `'` |
| ImportLine.MatchAtSound | src/lib/repository/file.rs:110 | whatever the matcher returns at a position is a match of the import expression there |
| ImportLine.MatchAtComplete | src/lib/repository/file.rs:110 | every match of the expression at a position is found by the matcher, with the same capture |
| ImportLine.FindMatchIsLeftmost | src/lib/repository/file.rs:128-129 | the search from a position reports the leftmost match, and nothing when no later position holds one |
| ImportLine.CaptureIsLeftmostMatch | src/lib/repository/file.rs:128-129 | the capture of a line is that of the leftmost match; a line with no match yields nothing |
| RepositoryFiles.Texts | src/lib/repository/file.rs:120-126 | the texts of successfully read lines, in order |
| RepositoryFiles.ReadImports | src/lib/repository/file.rs:116-150 | an unopenable file gives `CannotGetContents`; a read error gives `Io` with the file path; otherwise the imports of the lines in order, resolved against the file's parent directory |
| RepositoryFiles.ModuleOfFile | src/lib/repository/file.rs:99-104 | the module is the first component of the file path below the base path; a file outside the base or equal to it fails with the matching error |
| RepositoryFiles.RepositoryFile.constructor | src/lib/repository/file.rs:86-92 | a new file holds its path, base path and mappings, and both cells are empty |
| RepositoryFiles.ScanImports | src/lib/repository/file.rs:115-151 | the cell's initialiser yields exactly `ReadImports`: the open error, the first read error, or the resolvable imports of all lines in order |
| RepositoryFiles.RepositoryFile.Imports | src/lib/repository/file.rs:107-153 | a filled cell is returned unchanged; an empty one is filled by the initialiser only on success; the mappings play no part |
| RepositoryFiles.RepositoryFile.Module | src/lib/repository/file.rs:99-105 | a filled cell is returned unchanged; an empty one is computed from the path and filled only on success |
| RepositoryFiles.ImportsOfLinesAppend | src/lib/repository/file.rs:120-149 | the imports of two runs of lines are those of the first run, then those of the second |
| RepositoryFiles.ImportOfOneLine | src/lib/repository/file.rs:128-146 | a line yields at most one import, the resolution of its capture; a line that does not match yields none |
| RepositoryFiles.ImportsComeFromLines | src/lib/repository/file.rs:118-146 | every import comes from some line, resolved against the parent directory; no matching line means no import |
| RepositoryFiles.UnresolvableImportIsSkipped | src/lib/repository/file.rs:130-145 | a line whose literal cannot be resolved is skipped, and the lines around it are still read |
| ModuleMappings.FromParamString | src/lib/module_mapping.rs:13-27 | parsing succeeds exactly when the text has a `:`; the split is at the first `:`, so alias, `:` and target give back the text; without one, `InvalidFormat` carries the text |
| ModuleMappings.FromParamStringRoundTrip | src/lib/module_mapping.rs:16-21 | the text of a mapping whose alias has no `:` parses back to that mapping |
| Text.FirstOccurrenceIsFirst | src/lib/module_mapping.rs:31 | the leftmost-occurrence search finds an occurrence with none before it, and finds nothing only when the pattern occurs nowhere |
| ModuleMappings.ReplaceAbsent | src/lib/module_mapping.rs:31 | text without an occurrence of a non-empty pattern is unchanged by replacement |
| ModuleMappings.ReplaceAtFirstOccurrence | src/lib/module_mapping.rs:31 | replacement keeps the text before the first occurrence, writes the target, and continues after the occurrence |
| ModuleMappings.ReplaceSelf | src/lib/module_mapping.rs:31 | replacing a pattern by itself changes nothing |
| ModuleMappings.EmptyPatternInterleaves | src/lib/module_mapping.rs:31 | an empty alias puts the target before every character and at the end, and the original text can be recovered |
| ModuleMappings.ReplaceImportAliasKeepsOtherLines | src/lib/module_mapping.rs:29-35 | a line that is not an import line, or does not contain the alias, is returned unchanged |
| ModuleMappings.ReplaceImportAliasRewritesFirst | src/lib/module_mapping.rs:30-31 | on an import line, the first occurrence of the alias becomes the target and the scan continues after it |
| ModuleMappings.IdentityMappingKeepsLines | src/lib/module_mapping.rs:29-35 | a mapping whose target equals its alias never changes a line |
| Dependencies.SameIsEquivalence | src/lib/dependency/mod.rs:11-15 | the string-based edge equality is reflexive, symmetric and transitive |
| Dependencies.ModuleEdgeEquality | src/lib/dependency/mod.rs:11-15 | on module edges the string equality is structural equality, and an edge is internal exactly when both ends are the same module |
| Dependencies.FileEdgeInternalIsSamePath | src/lib/dependency/mod.rs:23-26 | on edges between well-formed child paths of plain components, internal holds exactly when both ends are the same child path, so two different files of one module are never internal |
| Graphs.NodesCover | src/lib/dependency/cycle.rs:40-41 | every key of the map and every successor it lists is a node of the map |
| Graphs.RankDecreasesAlongWalk | src/commands/validate/circular_modules.rs:40-46 | along a walk, a rank that every edge lowers ends lower than it starts; used to show that layered modules give no circular failure |
| Graphs.RankedIsAcyclic | src/commands/validate/circular_modules.rs:40-46 | a graph whose edges all lower some rank has no closed walk, so the circular rules report nothing on it |
| Graphs.SelfLoopIsCycle | src/lib/dependency/cycle.rs:45-49 | a node listed among its own successors makes the graph cyclic |
| CycleSearch.PushKeepsPath | src/lib/dependency/cycle.rs:36-38 | pushing a successor of the path's last node that is not on the path keeps the path a repetition-free walk |
| CycleSearch.SelfChain | src/lib/dependency/cycle.rs:46-49 | on a repetition-free path, a node meeting itself at the top gives the chain `[n, n]` |
| Cycle.Position | src/lib/dependency/cycle.rs:46 | the first index holding the node, and none exactly when the node is absent |
| Cycle.CycleDetector.constructor | src/lib/dependency/cycle.rs:17-23 | a new detector holds the map and the set of its nodes, and has no states and no cycles |
| Cycle.CycleDetector.FindCycles | src/lib/dependency/cycle.rs:25-33 | every reported chain is a closed walk of the map; the map yields no chain exactly when it is acyclic; every key and every successor of a finished node end Visited; a node listing itself gives `[n, n]` |
| Cycle.CycleDetector.Dfs | src/lib/dependency/cycle.rs:35-63 | the path comes back as it was; the node ends Visited; earlier states and cycles are kept; the search invariant (Visiting nodes are exactly the path, which has no repeats and is a walk; every chain is a closed walk) is preserved, and while no cycle has been recorded, every finished node's successors are finished and rank below it; a node without successors adds no cycle |
| Cycle.CycleDetector.CheckDependencies | src/lib/dependency/cycle.rs:40-58 | after the loop over the top node's successors, in order, every successor has a state; a node listing itself has recorded `[n, n]`; the path, the search invariant, earlier states and earlier cycles are kept |
| Cycle.CycleDetector.Examine | src/lib/dependency/cycle.rs:43-57 | a successor being visited is on the path, and exactly the chain from its position to the top, plus itself, is added to the cycles, unrotated, with the states unchanged; a finished successor changes nothing; a new one is searched and ends Visited; a self successor gives `[n, n]` |
| CycleSearch.PushKeepsInvariant | src/lib/dependency/cycle.rs:36-38 | marking a new successor Visiting and pushing it keeps the search invariant |
| CycleSearch.PopKeepsInvariant | src/lib/dependency/cycle.rs:60-62 | popping a node whose successors all have a state, and marking it Visited, keeps the search invariant |
| Cycle.CycleDetector.Enter | src/lib/dependency/cycle.rs:36-38 | the node is marked Visiting and pushed on the path, nothing else changes, the search invariant is kept, and fewer nodes are left without a state |
| Cycle.CycleDetector.Leave | src/lib/dependency/cycle.rs:60-62 | the node is popped and marked Visited, the cycles are unchanged, the states from before its entry are kept, and the search invariant holds for the shorter path |
| CycleSearch.Above | src/lib/dependency/cycle.rs:60-62 | the finish rank given to a popped node exceeds the rank of each of its successors |
| CycleSearch.PopKeepsOrder | src/lib/dependency/cycle.rs:60-62 | marking a node Visited, with the rank above its successors, keeps "with no cycle recorded, finished nodes have finished successors of lower rank", given its successors are finished |
| CycleSearch.PushStep | src/lib/dependency/cycle.rs:36-38 | pushing a new successor keeps the search invariant and the finish order |
| CycleSearch.PopStep | src/lib/dependency/cycle.rs:60-62 | popping a node whose successors all have a state (all finished when no cycle is recorded) keeps the search invariant and the finish order |
| CycleSearch.VisitingOnPath | src/lib/dependency/cycle.rs:44-46 | a Visiting node is on the path, so the `position` lookup finds it |
| CycleSearch.RecordStep | src/lib/dependency/cycle.rs:46-49 | recording the chain from a path node to the top, plus that node again, keeps the search invariant and the finish order |
| CycleSearch.SearchDone | src/lib/dependency/cycle.rs:25-33 | when every key has a state and the path is empty, every node is Visited, the chains are closed walks including every self-loop, and no chain at all means the map is acyclic (the finish ranks fall along every edge) |
| CycleSearch.ChainIsClosedWalk | src/lib/dependency/cycle.rs:46-49 | the path from the repeated node on, plus that node again, is a closed walk |
| DependencyList.GroupByFrom | src/lib/dependency/list.rs:40-49 | the keys are exactly the sources; a target is in its source's list exactly when the edge exists; no list repeats a target |
| DependencyList.Enumerate | src/lib/dependency/list.rs:81-137 | the path and the recursion stack come back as they were; the node is marked visited, and only nodes of the map are; each new chain extends the path as a walk: circular when its last node occurs earlier, looped when it does not, unflagged only at a node without successors; a successor on the recursion stack or equal to the node gives the circular chain of the path, the node and that successor; a node without successors gives the unflagged chain of the path and the node; at least one recorded chain starts where the path starts |
| DependencyList.BelowLongerIsBelow | src/lib/dependency/list.rs:94 | a chain recorded below a longer path extends the shorter one too |
| DependencyList.ChainList | src/lib/dependency/list.rs:53-79 | each distinct source starts one search; every chain starts at one of them and follows the edges, with the flag rules above; every source starts at least one chain |
| DependencyList.SearchFrom | src/lib/dependency/list.rs:58-75 | one search keeps the chains found before; each chain it adds starts at the source and follows the edges; it records at least one chain from the source |
| DependencyList.GroupedChainIsOver | src/lib/dependency/list.rs:58-77 | a chain found in the grouped map starts at the search's start node and follows the edges |
| DependencyList.Dedup | src/lib/dependency/list.rs:207-211 | collecting into a set keeps every element once and adds none |
| DependencyList.LocateImports | src/lib/dependency/list.rs:178-199 | the located targets are exactly the imports that lie under the root |
| DependencyList.LocateImportsKeepsNoError | src/lib/dependency/list.rs:193-204 | every locating error is `ImportOutsideRoot`, which is dropped, so `InvalidImports` is never returned |
| DependencyList.EdgesFrom | src/lib/dependency/list.rs:186-190 | one edge from the file to each target, in order |
| DependencyList.EdgesFromMembers | src/lib/dependency/list.rs:186-190 | the edges all leave the given source and reach exactly the given targets |
| DependencyList.FileEdges | src/lib/dependency/list.rs:160-212 | an unlocatable file and unreadable imports give their errors; otherwise the edges have no repeats, all leave the file's own child path, and reach exactly the imports under the root |
| DependencyList.DependencyListOf | src/lib/dependency/list.rs:163-179 | on the analysed file itself, the conversion gives the file-level edges above and keeps the file's cells consistent |
| DependencyList.ModuleEdge | src/lib/dependency/list.rs:288-300 | the edge between the two modules; the source's module is asked first, and whichever fails first gives the error |
| DependencyList.ModuleEdgesSucceed | src/lib/dependency/list.rs:280-310 | a file's module edges are found exactly when every one of its edges has both modules |
| DependencyList.ModuleEdgesFirstError | src/lib/dependency/list.rs:280-310 | a failure carries the error of the first edge whose modules cannot be found, every earlier edge having both |
| DependencyList.ModuleEdgesMembers | src/lib/dependency/list.rs:280-310 | a success holds exactly the module edges of the file's edges, minus those inside one module |
| DependencyList.AnalyzeFile | src/lib/dependency/list.rs:262-311 | an unanalysable entry gives no edges; a failed walk gives `CouldNotScanFile`; a failed file-level conversion gives `CouldNotGetDependencyList`; otherwise the file's module edges, none internal |
| DependencyList.PartitionMembers | src/lib/dependency/list.rs:313-316 | each side of the partition holds exactly the payloads of its kind of result |
| DependencyList.AnalysesAt | src/lib/dependency/list.rs:259-312 | position by position, the analyses are those of the walk's entries, in walk order |
| DependencyList.FlattenMembers | src/lib/dependency/list.rs:322-324 | an element of the flattened lists is an element of one of them, and back |
| DependencyList.RepositoryEdges | src/lib/dependency/list.rs:252-328 | fails exactly when some entry fails, with every error and no partial list; otherwise the edges have no repeats, are exactly those of the entries, and none is internal |
| DependencyList.RepositoryEdgesOrderIndependent | src/lib/dependency/list.rs:313-326 | swapping two parts of the walk gives the same success, the same edges, and the same errors up to order |
| DependencyList.UnanalysableEntryIsSkipped | src/lib/dependency/list.rs:266-271 | an entry that could not be analysed is as if it were absent |
| DependencyList.EmptyResultAddsNothing | src/lib/dependency/list.rs:313-326 | an entry with no edges changes neither the errors nor the flattened edges |
| DependencyList.ScanFailureIsReported | src/lib/dependency/list.rs:268-271 | a failed walk entry fails the conversion, and its error is among those reported |
| Validate.ExternalBarrelFailures | src/commands/validate/external_barrel_imports.rs:25-36 | one failure, carrying the edge, exactly for each edge that is not internal and does not target a barrel |
| Validate.ValidateExternalBarrelImports | src/commands/validate/external_barrel_imports.rs:19-37 | an edge-list error becomes `CouldNotGetDependencies`; otherwise one failure for each non-internal edge into a file that is not a barrel, and nothing else |
| Validate.BarrelImportsBarrelFailures | src/commands/validate/barrel_imports_barrel.rs:25-35 | one failure, carrying the edge, exactly for each edge between two barrels |
| Validate.ValidateBarrelImportsBarrel | src/commands/validate/barrel_imports_barrel.rs:19-36 | an edge-list error becomes `CouldNotGetDependencies`; otherwise one failure for each edge between two barrels, and nothing else |
| Validate.BarrelRulesAreDisjoint | src/commands/validate/external_barrel_imports.rs:30-31 | the two barrel rules never flag the same edge |
| Validate.BarrelEdgesAreFlagged | src/commands/validate/barrel_imports_barrel.rs:28-33 | with no internal or module filter, every edge between two barrels is flagged, whichever modules its ends lie in and even when it is a barrel importing itself; the external rule flags none of them |
| Validate.RenderAll | src/commands/validate/circular_files.rs:35 | each target rendered, in group order |
| Validate.RenderGroups | src/commands/validate/circular_files.rs:30-38 | the keys are the rendered sources; each value is the rendered list of some source with that rendering, and exactly that source's list when no other renders alike |
| Validate.RenderedGraphWalk | src/commands/validate/circular_files.rs:29-38 | a closed walk in the rendered map is a closed walk along rendered edges |
| Validate.CycleFailures | src/commands/validate/circular_files.rs:40-46 | the failures are exactly one `CircularDependency` per chain the detector reports, none repeated; those chains are closed walks, there are none exactly when the map is acyclic, and `[n, n]` is among them for every self-loop |
| Validate.CircularFailures | src/commands/validate/circular_modules.rs:29-46 | the edges are grouped and rendered into a map; the failures are exactly one per chain the detector reports on that map; those chains are closed walks along the rendered edges, there are none exactly when the rendered map is acyclic (so a cyclic map gives at least one failure), and they include every self-loop |
| Validate.ValidateCircularFiles | src/commands/validate/circular_files.rs:24-47 | an edge-list error becomes `CouldNotGetDependencies` and no search runs; otherwise the failures are exactly one per chain the detector reports on the rendered file map, closed walks only, none exactly when it is acyclic, so a cyclic map gives at least one failure |
| Validate.ValidateCircularModules | src/commands/validate/circular_modules.rs:25-47 | a module-list error becomes `CouldNotGetDependencies` and no search runs; otherwise the failures are exactly one per chain the detector reports on the rendered module map, closed walks only, none exactly when it is acyclic, so a cyclic map gives at least one failure |
| Validate.LayeredEdgesAreAcyclic | src/commands/validate/circular_modules.rs:40-46 | edges that all lower a rank of their ends have no closed walk, so the circular rules report nothing |

## Left out

- Directory walking (`Repository::files`, WalkDir, `par_bridge`) is not modelled. The walk's output is an input: a sequence of per-entry results. The parallel `partition_map` is a sequential fold.
- `FilePath` construction (`try_from_entry`, `canonicalize`, `is_file`, the `.ts` check) is not modelled. File paths are taken as given.
- The file system calls are not modelled: `exists`, `canonicalize`, opening a file and reading its lines are fields of the `FileSystem` value.
- The `eprintln!` for a skipped import is not modelled.
- Thread safety of the `OnceCell` cells and of the `lazy_static` regex is not modelled. The cells are write-once fields in a sequential setting.
- The general regex engine is not modelled. Only the one import expression has a matcher, and it is proved sound and complete for leftmost matching.
- `HashSet` and `HashMap` iteration order is not modelled:
  - edge sets are sequences without repeats, kept in first-insertion order;
  - the detector's key loop and the rendering of the grouped map pick keys in an unspecified order.
- Which repeated edges a `HashSet` of edges merges is not settled by the source. `Dependency` derives only `Debug` (src/lib/dependency/mod.rs:5). Its only equality is a text-based `PartialEq` (mod.rs:11-15), with no `Eq` and no `Hash`, and `Module` has no `Hash` either (src/lib/module.rs:18). The model merges structurally equal edges. On module edges this agrees with the text equality (`Dependencies.ModuleEdgeEquality`). On well-formed child paths of plain components it agrees too (`Child.WellFormedEquality`, `Dependencies.FileEdgeInternalIsSamePath`).
- The chain type used by the detector is a one-field `DependencyChain(vec)` (src/lib/dependency/cycle.rs:13 and :49, src/commands/validate/mod.rs:95). The three-field struct of src/lib/dependency/chain.rs:4-8 does not match it. `CycleSearch.CycleChain` follows the cycle.rs reading, and the old enumerator's `DependencyList.DependencyChain` follows chain.rs.
- `Module` has no `Display` implementation in the source. It is rendered as the text it wraps.
- Rotating each cycle to a canonical form is not modelled. `cycle.rs:49` inserts the chain as found, and the model follows that code: chains are unrotated and compared as sequences.
- The whole-repository file-level conversion that the two barrel rules and `validate_circular_files` call is not part of this model. Those rules take its result, or its error, as an input. `DependencyList.FromRepositoryError` stands for its error type.
- The four validators' error enums are identical one-variant enums. They are modelled as a single `Validate.ValidateError`.
- Cycle.CycleDetector.FindCycles: completeness is stated as "a cyclic map yields at least one chain", not "every cycle yields a chain". The detector records one chain per back edge it meets, that is, per edge into a node still on the path. A cycle whose nodes were already finished by another route gets no chain of its own. For `a -> [b, c]`, `b -> [a]`, `c -> [b]` searched from `a`, only `[a, b, a]` is recorded; the cycle `a, c, b, a` is missed because `b` is already Visited when `c` reaches it. Which cycles get a chain depends on the key order of the `HashMap`, which the model leaves unspecified.
- Cycle.CycleDetector.Dfs: for a node without successors, only "no cycle is added" is stated. That the states change only at that node is not stated.
- DependencyList.GroupByFrom: "the list lengths add up to the edge count" is stated as membership in both directions plus no repeats, which implies it, rather than as a sum.
- DependencyList.GroupByFrom, DependencyList.ChainList, Validate.CircularFailures and Validate.ValidateCircularFiles require an edge list without repeats. This is what a `HashSet` guarantees.
- DependencyList.DependencyListOf requires the file's filled cells to hold what their computations give on the same file system. The source meets this because a file is read once.
- DependencyList.Enumerate: the looped flag is stated as "the last node does not occur earlier in the chain". That it was visited in the same search is not stated.
- Dependencies.FileEdgeInternalIsSamePath requires both paths to be made of plain components. Rendering is not injective in general (`a/b` as one name or as two), but the relative paths std builds never hold a name containing '/'.
- Paths.JoinTextRendersJoin requires a normalised base. `Path::join` on a base ending in '/' is only described by Paths.JoinText.
- The CLI commands (`statistics`, `graph`, `inspect`, argument parsing, printing, progress counters, timing) are not modelled. The stale drafts under `depenendency/` and `commands/validate.rs` are not modelled either.
