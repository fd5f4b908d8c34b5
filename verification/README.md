# Verified models of the school management monorepo

This project models the parts of the repository whose logic is intricate and stands alone, and
proves what their code and documentation promise.

- **The SBOM pipeline** (`sbom/`). Packages from lock files are merged, resolved into a graph of
  names, analysed, emitted as SPDX 2.3 and CycloneDX 1.5 and validated. The graph algorithms
  (three-colour cycle search, bounded longest path, reachability worklist) are loops proved against
  walks and cycles of a directed graph. The emitters are proved against the validators: each
  validator is shown to report exactly the problems of a document, and each emitter's documents are
  shown to have none under an exact condition on the packages.
- **The in-memory store and its services** (`_archive/legacy-v1/`). Rows are heap objects that
  SELECT hands out and UPDATE writes into. Transactions take a deep copy and put it back. The fee
  ledger, the term calendar and the migration runner keep their invariants over it in every run,
  including runs in which any write inside a transaction fails.
- **The dependency-injection container**, a recursive resolver with a singleton cache and cycle
  detection.
- **The argument codec** of the OPFS worker, a serializer and deserializer over one shared byte
  buffer.

## Layout

| file | module | content |
|---|---|---|
| `Orders.dfy`, `Digraphs.dfy` | `Orders`, `Digraphs` | Python's string and tuple order, sorting; walks, cycles, components |
| `Models.dfy`, `Licenses.dfy`, `Patterns.dfy` | the same | packages and name normalisation; licence expressions; text patterns and hash functions |
| `Inventory.dfy` | `Inventories` | merge, dedupe, the npm v1/v2 tree, npm purls |
| `Resolve.dfy`, `Cycles.dfy`, `CycleEntries.dfy`, `CycleReports.dfy`, `Depth.dfy`, `Counts.dfy`, `Metrics.dfy` | the same | the dependency graph, its cycle search, where it enters a component and how many lists it reports, the other metrics |
| `References.dfy`, `Spdx.dfy`, `CanonicalKeys.dfy`, `SpdxValidation.dfy`, `CycloneDx.dfy`, `CycloneDxValidation.dfy`, `Pipeline.dfy` | the same | emitters, the content key, validators, the whole `generate` command |
| `Sql.dfy`, `Database.dfy` | `Sql`, `MemoryDatabase` | commands on values; the same on live row objects, transactions |
| `Ledger.dfy`, `Fees.dfy`, `FeeOutcomes.dfy`, `FeeService.dfy` | `FeeLedger`, `Fees`, `FeeOutcomes`, `FeeServices` | the fee ledger, the service calls as functions, when they succeed and what they store, the service as a class |
| `Terms.dfy`, `TermOutcomes.dfy`, `TermService.dfy` | `Terms`, `TermOutcomes`, `TermServices` | the term calendar, when its operations succeed and what they store, the service as a class |
| `Migrations.dfy`, `Container.dfy`, `Utf8.dfy`, `Codec.dfy`, `CodecReads.dfy` | the same | the migration runner, the container, the codec |

`dafny verify dfyconfig.toml` checks everything. Python and JavaScript objects whose methods update
their fields are classes here. Each such method is proved to have the effect of a function on values,
and the invariants are lemmas about those functions.

## Parameters of the model

Hash functions (`uuid5`, `sha256`, `uuid.UUID`) are the parameter `Library`. `Sound` says that UUIDs
are non-empty and readable and that SHA-256 digests are hexadecimal. Theorems that need more say
so: `TellsApart` and `Injective` say that UUIDv5 does not collide. Clocks and
dates are parameters. A transaction's callback is the list of commands that one run of it issues,
with the points at which it throws, and `fault` picks the step whose query fails.

## Where code and documentation differ

The model follows the code in each of these cases.

- `_find_cycles` says it reports one cycle per strongly connected component. It reports the tree path
  that each back edge closes, without repeating a name list. Two nodes with edges to themselves and to
  each other get two lists (`TwoListsInOneComponent`), and two components whose nodes have the same
  names in different ecosystems get one (`OneListForTwoComponents`). Every component with a cycle has
  one entry: the node at which the lexicographically first simple walk from the least node that reaches
  the component arrives (`EntryExists`, `EntryIff`). The component gets exactly one list if and only if
  one of its nodes alone has an edge to the entry and all its cycles pass the entry (`OneListIff`,
  `OneListInEveryComponent`; inside a component names must tell nodes apart, as they do in resolved
  graphs). When no two nodes on cycles share a name, there are as many lists as components with a cycle
  if and only if that holds of each (`DocumentedClaimIff`). A component without branches gets exactly
  one list (`NoBranchesOneList`). The entry depends on the names: `OrderDecides` has one graph under two
  namings, one list under the first and more under the second.
- `_bom_ref` says `identity|source` is unique for each merged package. It is when ecosystem, name and
  version hold no colon (`ColonFreeIdentity`), and not in general (`DistinctIdentitiesDoNotSuffice`).
  Sources are also rewritten after the merge, which may make two of them equal
  (`RelativisedIsIdentified`).
- `is_valid_expression` recognises `(MIT)`, which `_license_entry` then prints as an id that the
  validator refuses (`ParenthesisedLicenseIsRejected`).
- `updateTerm` accepts a null date and then checks nothing about it (`ClearedStartIsAccepted`), checks
  the old academic year when the term moves to another (`MovedTermIsAccepted`), and writes every key of
  the request, in lower case, while it checks only `start_date` and `end_date`
  (`ShoutedStartIsAccepted`, with the key `START_DATE`). The exact condition, on what the whole request
  leaves in the row, is in `UpdateKeepsCalendarIff`, and over whole runs in `CalendarHeldIff`.
- `updateFeeStructure` does not look for a duplicate of year, class and type, which
  `createFeeStructure` refuses (`DuplicateTripleIsAccepted`). The exact condition is in
  `UpdateKeepsTriplesIff`, and over whole runs in `TriplesHeldIff`.
- `deserialize` does not undo `serialize` for booleans, which come back as 0 or 1, for texts that
  start with a byte order mark, and for more than 255 arguments; `ReadsBackIff` is exact.
- `merge_inventories` keeps the last package of a key and `dedupe` the first. Its key holds the name as
  written, not the normalised name that its documentation mentions, so two spellings are kept apart
  (`MergeMeaning`).
- `_canonical_key` says that the namespace changes exactly when the inventory does. The key leaves out
  source, origin, checksums and directness (`KeyForgets`); what it does tell is exact (`KeyTellsRows`).
- `_purl_quote` writes a character above 255 with more than two digits, so that two names may get one
  purl (`QuoteIsAmbiguous`); below that quoting can be undone (`QuoteReadsBack`).
- The licence values `NOASSERTION` and `NONE` are said to be legal in any position of an expression.
  They are recognised only alone (`WordIsRecognised`, `OperatorIsRecognised`).

## Model

| member | source | states |
|---|---|---|
| `Cycles.Explore` | sbom/analyze.py:160-194 | One three-colour search from a white start, with its explicit stack and path: at every step the path holds the stack's nodes, has no duplicates and is exactly the grey set, every edge out of a black node leads to an earlier-finished node or closed a reported cycle, and both nested loops end (measure: white nodes, then stack height, then unexplored edges) |
| `Cycles.Advance` | sbom/analyze.py:166-191 | The inner loop over the neighbours of the top node: skips finished ones, reports at a grey one, descends into a white one, and keeps the whole state, including which nodes had finished when each node was met |
| `Cycles.BackEdgeStep` | sbom/analyze.py:172-183 | A grey neighbour is on the path, and the path from it on, closed by it, is a simple directed cycle whose name list is reported, once |
| `Cycles.IndexOf` | sbom/analyze.py:173-178 | The first position of a grey node on the path; the fallback for a missing one is never taken |
| `Cycles.FindCycles` | sbom/analyze.py:153-195 | No list is reported twice. Every list is, position by position, the names of the nodes of a simple cycle, so each name in it has an edge to the next; every closed walk has a reported cycle in its strongly connected component. The reports are those of a depth-first search: each list is the tree path that one back edge closes, every back edge has its list, and no back edge is a tree edge |
| `Cycles.ListsAreSpelled` | sbom/analyze.py:172-183 | The list of a back edge spells, name by name and in the direction of the edges, the cycle that starts and ends at the node the edge leads to |
| `Cycles.SearchIsComplete` | sbom/analyze.py:153-195 | From the invariant of a finished search to that completeness: finishing numbers cannot fall all the way round a closed walk |
| `Cycles.EmptyReportMeansAcyclic` | sbom/analyze.py:153-158 | Nothing is reported if and only if the graph has no cycle |
| `CycleReports.OneListIff` | sbom/analyze.py:153-195 | When exactly the documented claim holds of a component: entered at s, it gets exactly one list if and only if one of its nodes alone leads to s and all its cycles pass s |
| `CycleReports.OneBackEdgeIff` | sbom/analyze.py:153-195 | The same for back edges, on any graph |
| `CycleReports.OneListInEveryComponent` | sbom/analyze.py:153-195 | Every component with a cycle has exactly one entry, and that condition at the entry decides whether it gets exactly one list |
| `CycleReports.DocumentedClaimIff` | sbom/analyze.py:153-195 | With names unique on cycles the documented claim holds of the whole graph if and only if the condition holds at every entry, and if and only if there are as many lists as components with a cycle |
| `CycleReports.ListTellsComponent` | sbom/analyze.py:180-182 | With names unique on cycles no list stands for two components |
| `CycleEntries.EntryIff` | sbom/analyze.py:160-194 | The node of a component with a cycle that finishes last is the one at which the lexicographically first simple walk from the least node reaching the component arrives: the search enters there, whatever else leads into the component |
| `CycleEntries.ClearEntryIsEntry` | sbom/analyze.py:160-171 | Two cases in which the entry can be read off: no smaller node reaches it, or no other node of the component can be entered from outside |
| `CycleReports.NoBranchesOneList` | sbom/analyze.py:153-195 | A component with a cycle in which no node has two successors inside it gets exactly one list, wherever the search enters it |
| `CycleReports.SelfLoopIsReported` | sbom/analyze.py:172-183 | Every node with an edge to itself gets its own list |
| `CycleReports.TwoListsInOneComponent` | sbom/analyze.py:153-195 | A concrete component of two nodes gets two lists, against the documented claim |
| `CycleReports.OneListForTwoComponents` | sbom/analyze.py:180-182 | Two concrete components get one list between them, because lists hold names without ecosystems |
| `CycleReports.OrderDecides` | sbom/analyze.py:160-171 | Two concrete graphs, each one component, that a renaming of nodes turns into each other: one gets exactly one list, the other does not, so the order of the names belongs in the condition |
| `Metrics.NameGraphKeepsEcosystem` | sbom/graph.py:48-61 | Resolved edges stay inside an ecosystem, which is what the exact condition on lists assumes |
| `Metrics.OneNameOneNode` | sbom/graph.py:43-61 | Names are unique on the cycles of an inventory in which no name is taken in two ecosystems |
| `Depth.MaxDepth` | sbom/analyze.py:198-230 | The loop returns the length of the longest walk from a root, cut off at the number of nodes |
| `Depth.LoopExit` | sbom/analyze.py:209-230 | Both ways out, no frontier or the guard, leave that answer exact: neither cap nor guard cuts a correct answer short |
| `Depth.DepthIsExact` | sbom/analyze.py:198-207 | With edges and roots inside the nodes: the answer is the number of nodes if and only if some root reaches a cycle, and otherwise the exact longest walk length |
| `Metrics.BuildAdjacency` | sbom/analyze.py:111-115 | The adjacency holds an edge between two names exactly when some package of the one has a resolved edge to a package of the other |
| `Metrics.Reachable` | sbom/analyze.py:117-124 | The worklist ends with exactly the nodes reachable from the roots; reading the default dictionary changes no successor |
| `Metrics.NameCycleIffPackageCycle` | sbom/graph.py:43-61 | With distinct identities the name graph has a cycle if and only if the package graph has one |
| `Metrics.ReachedPackageHasReachedName` | sbom/analyze.py:108-127 | What a direct package reaches in the package graph has a name that the direct names reach |
| `Metrics.OrphansAreUnreachable` | sbom/analyze.py:126-127 | No package with an orphaned name is reachable from a direct package |
| `Metrics.DependencyMetrics` | sbom/analyze.py:106-150 | For one inventory: a name is reported as orphaned, in order, if and only if some package bears it and no package with `is_direct` reaches it; the depth is the longest walk from the name of a direct package, or the number of names exactly when such a walk can run into a cycle; the cycle lists are those of a finished search; every count is the number of positions it is about; and with distinct identities no cycle is reported if and only if the package graph is acyclic |
| `Counts.EdgesAreTargets` | sbom/analyze.py:139-140 | With distinct identities the number of edges is the number of meetings of a dependency, by package and position, with a package that it names |
| `Counts.DanglingAndAmbiguous` | sbom/analyze.py:141-142 | The two counts are the numbers of dependencies, by package and position, that no package, or that several packages, bear the name of |
| `Counts.CountEdges` | sbom/analyze.py:140-140 | The sum over the values of a dictionary, whatever their order |
| `Resolve.ResolveGraph` | sbom/graph.py:38-62 | Index, edges, dangling and ambiguous lists are those of the resolution; a later package with the same identity overwrites the edges of an earlier one |
| `Resolve.EdgeMeaning` | sbom/graph.py:48-61 | With distinct identities p has an edge to q if and only if q is a package of the ecosystem of p and some dependency of p spells its name: on PyPI runs of dashes, underscores and dots stand for each other and case does not matter, on npm only case does not |
| `Resolve.EdgesStayInside` | sbom/graph.py:48-61 | Edges lead to packages of the inventory, whatever the identities are |
| `Resolve.DanglingMeaning` | sbom/graph.py:50-55 | A dependency is listed as dangling if and only if no package of its ecosystem bears its name in any spelling |
| `Resolve.AmbiguousMeaning` | sbom/graph.py:56-58 | A dependency is listed as ambiguous, with their number, if and only if several packages bear its name |
| `Resolve.EdgesAreOrdered` | sbom/graph.py:59-61 | The edges of a package stand in the order of ecosystem, name and version |
| `Resolve.EdgeBetweenSpellings` | sbom/graph.py:50-56 | Two spellings of one PyPI name that differ in a run of separators find each other |
| `Models.NormIsTheCanonicalSpelling` | sbom/models.py:13-19 | PEP 503: the normal form of a name is the one spelling of it that has no capitals, no underscore, no dot and no two dashes in a row |
| `Models.RunsAreOne` | sbom/models.py:13-19 | Names that differ only in which separators a run holds, and how many, have one normal form |
| `Models.PlainNamesAgreeIff` | sbom/models.py:13-19 | Names without separators have one normal form if and only if they agree up to ASCII case |
| `Models.NpmNormIff` | sbom/models.py:22-25 | npm names have one normal form if and only if they agree up to ASCII case; that form has no capitals, and a name without capitals is its own |
| `Spdx.SpdxId` | sbom/emit_spdx.py:54-69 | The first candidate that is not in use; the loop ends because every round finds another member of the set in use |
| `Spdx.FreeIdIsGood` | sbom/emit_spdx.py:54-78 | That id is fresh, inside the SPDXID alphabet (clause 7.2 of SPDX 2.3) and never the id of the document |
| `Spdx.IdsAreGood` | sbom/emit_spdx.py:90-96 | The ids of a document are pairwise distinct, well formed and not the document's |
| `Spdx.IdReads` | sbom/emit_spdx.py:54-78 | The id reads `SPDXRef-Package-`, ecosystem, name and version, other characters as dashes; only if that is taken, eight digits of the hash of the identity and a number follow |
| `Spdx.Slug` | sbom/emit_spdx.py:72-78 | A character outside the alphabet becomes a dash and the others stay; a leading digit gets "P-" in front, and nothing at all becomes "SPDXRef-Package" |
| `Spdx.BuildSpdx` | sbom/emit_spdx.py:81-175 | The document is the one that header with licence list version, entries with first-free ids, one DESCRIBES per package and the deduplicated DEPENDS_ON edges make up, also when identities repeat |
| `Spdx.LicenseIsKept` | sbom/emit_spdx.py:122-133 | No licence text is lost: a recognised expression is declared verbatim and any other text stands in the comment |
| `Spdx.CommentMeaning` | sbom/emit_spdx.py:100-133 | A recognised licence is declared; an unrecognised one and an unusual origin, and nothing else, are told in the comment |
| `CanonicalKeys.KeyTellsRows` | sbom/emit_spdx.py:188-206 | On fields without bars and line breaks the content key behind namespace and serial number is the same for two inventories if and only if they list the same ecosystems, names, versions, purls, licences, addresses and dependencies in the same order |
| `CanonicalKeys.KeyForgets` | sbom/emit_spdx.py:188-206 | Source, origin, checksums and directness of a package leave no trace in the key: it does not change with every inventory, as documented |
| `CycloneDx.LicenseIsKept` | sbom/emit_cyclonedx.py:52-59 | No licence text is lost: it is printed as an id, an expression or a property |
| `SpdxValidation.Validate` | sbom/validate.py:47-104 | The list of errors holds exactly the problems that the document has |
| `SpdxValidation.AcceptsEmitted` | sbom/validate.py:47-104 | An emitted document has no problem if and only if there is a package, the timestamp is well formed, every package has a name and every purl is well formed, whatever licences, identities and edges are |
| `SpdxValidation.AcceptsWellFormed` | sbom/validate.py:47-104 | Of all documents those have no problem that are well formed: fixed header fields, distinct well-formed ids, required fields, recognised licences, well-formed purls, and relationships between known ids |
| `SpdxValidation.RelationshipsResolve` | sbom/emit_spdx.py:136-157 | Both ends of every relationship are ids of the document |
| `SpdxValidation.EdgesLinkPackages` | sbom/emit_spdx.py:144-157 | Every DEPENDS_ON relationship runs between two package ids |
| `SpdxValidation.SpdxEdges` | sbom/emit_spdx.py:144-157 | With distinct identities the edge from p to q is stated exactly once if p depends on q and not at all otherwise |
| `SpdxValidation.DescribesEveryPackage` | sbom/emit_spdx.py:136-157 | With distinct identities the document first describes every package, in order and once, and then only states dependencies |
| `References.TargetsEncodeDependence` | sbom/emit_cyclonedx.py:68-78 | With distinct identities and references the deduplicated targets of a package are exactly the references of what it depends on, each once |
| `References.CollectTargets` | sbom/emit_cyclonedx.py:71-77 | The loop with its seen set keeps the first occurrence of each reference |
| `CycloneDx.BuildCycloneDx` | sbom/emit_cyclonedx.py:23-110 | The document is made of the header with its tool entry, one library component per package, one sorted dependency entry per package and the entry of the root last, also when identities repeat |
| `CycloneDx.ColonFreeIdentity` | sbom/models.py:75-84 | On packages whose ecosystem, name and version hold no colon, identities, and bom-ref texts, agree if and only if the merge keys do |
| `CycloneDx.DistinctIdentitiesDoNotSuffice` | sbom/emit_cyclonedx.py:113-123 | Two packages with different identities and one bom-ref: the documented uniqueness fails without a condition |
| `CycloneDx.RootTextIsDifferent` | sbom/emit_cyclonedx.py:126-128 | The root's bom-ref text differs from that of every pypi and npm package |
| `CycloneDxValidation.Validate` | sbom/validate.py:112-177 | The list of errors holds exactly the problems that the document has |
| `CycloneDxValidation.AcceptsEmitted` | sbom/validate.py:112-177 | An emitted document has no problem if and only if there is a package, the timestamp is well formed, the bom-ref texts differ from each other and from the root's, and every package has name, version, well-formed purl and digests, and a licence that is listed if it is recognised without an operator |
| `CycloneDxValidation.AcceptsWellFormed` | sbom/validate.py:112-177 | Of all documents those have no problem that are well formed: fixed header fields, distinct references that are not the root's, required fields, listed licence ids, well-formed purls and hashes, and dependencies between known references |
| `Patterns.UtcTimestampIff` | sbom/validate.py:63-66 | A text is a creation date if and only if it prints some date and time of day, in digits, with "Z" behind |
| `Patterns.TimestampIff` | sbom/validate.py:131-135 | A text is a CycloneDX timestamp if and only if it prints some date and time of day with "Z" or an offset in hours and minutes behind |
| `CycloneDxValidation.RefsAreDistinct` | sbom/emit_cyclonedx.py:113-128 | Bom-refs are distinct, and none is the root's, exactly when the hashed texts are |
| `CycloneDxValidation.ReferencesResolve` | sbom/emit_cyclonedx.py:68-88 | Every ref and dependsOn resolves, whatever the identities are |
| `CycloneDxValidation.RootDependsOnDirect` | sbom/emit_cyclonedx.py:85-88 | The root's entry lists every direct package exactly once and no other package |
| `CycloneDxValidation.CycloneDxEdges` | sbom/emit_cyclonedx.py:68-78 | The entry of p lists q exactly once if p depends on q and not at all otherwise |
| `CycloneDxValidation.FormatsAgree` | sbom/emit_cyclonedx.py:68-78 | SPDX and CycloneDX state the same dependency relation, each edge as often as the other, namely once |
| `CycloneDxValidation.FormatsSayTheSame` | sbom/emit_cyclonedx.py:42-65 | Entry and component of a package say the same of it: name, version, purl, address, and the checksums under each format's names for the algorithms |
| `CycloneDxValidation.ParenthesisedLicenseIsRejected` | sbom/emit_cyclonedx.py:131-139 | A package whose licence is `(MIT)` makes the document invalid |
| `Licenses.ParenthesisedIsRecognised` | sbom/licenses.py:34-45 | `(MIT)` is a recognised expression, has no operator and is not a listed id |
| `Licenses.OperatorIsRecognised` | sbom/licenses.py:34-45 | An expression built with AND, OR or WITH is recognised if and only if the token before the operator and all tokens behind it are listed ids, parentheses aside |
| `Licenses.WordIsRecognised` | sbom/licenses.py:34-45 | A text without blanks is recognised if and only if it is one of the two special values or a listed id, parentheses aside |
| `Inventories.MergeInventories` | sbom/inventory.py:655-671 | A strictly key-sorted list with exactly the keys of all inventories and, for each, the last package; the warnings are concatenated in order |
| `Inventories.MergeIsUnique` | sbom/inventory.py:655-671 | Only one list is that merge |
| `Inventories.MergeMeaning` | sbom/inventory.py:655-671 | In terms of the four fields: the merged list is ordered by ecosystem, name, version and source, and holds of equal entries exactly the last one |
| `Inventories.Inventory.Dedupe` | sbom/inventory.py:43-54 | The loop over the sorted packages leaves the deduplicated list and the warnings |
| `Inventories.DedupedMeaning` | sbom/inventory.py:43-54 | That list is strictly key-sorted, has exactly the same keys and keeps, for each, the first package: sorting is stable |
| `Inventories.DedupedKeepsFirst` | sbom/inventory.py:43-54 | In terms of the four fields: the list is in that order and holds of equal entries exactly the first one |
| `Inventories.DedupeIsIdempotent` | sbom/inventory.py:43-54 | A second deduplication changes nothing, and neither does one of a merged list |
| `Inventories.MergedIsIdentified` | sbom/models.py:75-84 | On a merged list of colon-free packages identities and bom-ref texts are distinct |
| `Inventories.Inventory.ParseV2` | sbom/inventory.py:442-487 | The recursive parser appends the packages and the warnings of the nested tree; the depth guard bounds it |
| `Inventories.QuietIffFits` | sbom/inventory.py:449-454 | No warning is given if and only if every node is an object and the tree has at most 51 levels |
| `Inventories.OnePackagePerNode` | sbom/inventory.py:452-487 | Such a tree becomes one package for each node, in pre-order, that records what the lock file says of the node and is direct exactly at the top level |
| `Inventories.EveryObjectIsListed` | sbom/inventory.py:442-487 | Whatever is malformed or too deep elsewhere, a package is appended for every object that the parser comes to within the guard, and for nothing else |
| `Inventories.MalformedAreNamed` | sbom/inventory.py:452-454 | The warnings name exactly the nodes it comes to that are no objects |
| `Inventories.QuietLockLeavesNothingDangling` | sbom/inventory.py:466-487 | A lock file parsed without a warning resolves without a dangling edge, before and after merging it, at any position, with other inventories that do |
| `Inventories.NothingDanglesIffClosed` | sbom/graph.py:48-58 | Nothing dangles if and only if every dependency names a package of the list |
| `Inventories.MergeStaysClosed` | sbom/inventory.py:655-671 | Merging loses no target of an edge |
| `Inventories.NpmPurlIsWellFormed` | sbom/inventory.py:508-521 | An npm purl passes the validators' pattern if and only if the version holds no white space and name and version are not both empty |
| `Inventories.QuoteReadsBack` | sbom/inventory.py:519-521 | Percent-decoding undoes the quoting of texts of characters below 256 |
| `Inventories.QuoteIsAmbiguous` | sbom/inventory.py:519-521 | Two concrete texts, one with a character above that, get one quoted form |
| `Pipeline.Generate` | sbom/cli.py:364-406 | From parsed inventories to the exit code: 0 if and only if there is a package, the timestamp is in UTC and the packages are printable in both formats |
| `Pipeline.RelativisedIsIdentified` | sbom/cli.py:120-147 | Rewriting sources after the merge keeps identities and bom-refs distinct, on colon-free packages, if and only if no two packages of one ecosystem, name and version come to one source |
| `Pipeline.BothAccepted` | sbom/cli.py:392-406 | Both documents of one inventory validate under one condition on the packages |
| `MemoryDatabase.Database.Query` | _archive/legacy-v1/implementations/database.js:169-297 | One command against live row objects changes the store as its value semantics says, answers with live row objects of the storage, keeps row objects unshared and writes no column outside the SET clause |
| `MemoryDatabase.ApplyWhere` | _archive/legacy-v1/implementations/database.js:299-334 | One filter pass per condition amounts to filtering by the whole clause, and hands out live row objects |
| `MemoryDatabase.UpdateInPlace` | _archive/legacy-v1/implementations/database.js:255-270 | The rows that matched beforehand are written in place, all others keep their cells |
| `MemoryDatabase.DeleteRows` | _archive/legacy-v1/implementations/database.js:281-289 | Splicing the matching row objects out one by one leaves exactly the others, in order |
| `MemoryDatabase.DeepClone` | _archive/legacy-v1/implementations/database.js:188-196 | A copy of all tables: equal cells, all new row objects |
| `MemoryDatabase.Database.BeginTransaction` | _archive/legacy-v1/implementations/database.js:89-99 | Saves a separate copy equal to the store; a nested call fails and leaves the outer snapshot alone |
| `MemoryDatabase.Database.Commit` | _archive/legacy-v1/implementations/database.js:104-114 | Ends the transaction and changes no row |
| `MemoryDatabase.Database.Rollback` | _archive/legacy-v1/implementations/database.js:119-132 | The store is value-equal to what it was at begin |
| `MemoryDatabase.Database.Disconnect` | _archive/legacy-v1/implementations/database.js:29-44 | An open transaction is rolled back first |
| `MemoryDatabase.Database.Transaction` | _archive/legacy-v1/implementations/database.js:140-160 | All effects of the callback or none, although rows are written in place meanwhile; never left inside a transaction; a nested call changes nothing |
| `MemoryDatabase.Database.InitializeSchema` | _archive/legacy-v1/implementations/database.js:68-84 | All schema statements take effect or none; it succeeds if and only if the database is connected and outside a transaction, there are statements and none fails; the flag is set only then |
| `Sql.NextIdFresh` | _archive/legacy-v1/implementations/database.js:222-223 | The id that an INSERT allocates is greater than every id of the table |
| `Sql.FilterSelects` | _archive/legacy-v1/implementations/database.js:299-334 | A query answers with exactly the rows that match, in table order |
| `Sql.TransactionGoesIff` | _archive/legacy-v1/implementations/database.js:140-160 | A transaction carries out all commands of its callback, one after the other, if and only if no step is made to fail or throws on what the commands before it left; otherwise it changes nothing |
| `Sql.OperatorsMean` | _archive/legacy-v1/implementations/database.js:309-320 | The six operators compare numbers and texts, and nothing is ordered against an absent value |
| `Sql.TransactKeepsIds` | _archive/legacy-v1/implementations/database.js:140-160 | Ids stay positive and distinct in every table over any transaction that does not assign the id column, committed or rolled back |
| `Sql.IdsInEveryRun` | _archive/legacy-v1/implementations/database.js:89-297 | The same over every run of queries, begins, commits and rollbacks from a new database, for the store and for an open snapshot |
| `FeeServices.FeeService.CreateFeeDues` | _archive/legacy-v1/implementations/fee-service.js:265-324 | Checks, error cases and store effect of the call on live rows, the ledger is kept, and the answer is exactly the list of rows that the due table has gained; with the two conditions below on acceptance and effect |
| `FeeServices.FeeService.RecordPayment` | _archive/legacy-v1/implementations/fee-service.js:329-401 | The same for payments; the receipt tells the stored payment and what the due says afterwards, read from the due row after the transaction wrote to it in place |
| `FeeServices.FeeService.CreateFeeStructure` | _archive/legacy-v1/implementations/fee-service.js:99-156 | The same for fee structures, and the answer is the row the table has gained |
| `FeeServices.FeeService.UpdateFeeStructure` | _archive/legacy-v1/implementations/fee-service.js:169-218 | The same for updates of fee structures, through the clause building of the repository, and the answer is the live row as it then stands |
| `FeeServices.FeeService.GetStudentFinancialSummary` | _archive/legacy-v1/implementations/fee-service.js:449-481 | The accumulated summary of the student's dues of the year, which changes nothing |
| `FeeServices.PaymentAnswer` | _archive/legacy-v1/implementations/fee-service.js:367-392 | The columns the receipt is built from survive the transaction's writes to the same row object |
| `FeeOutcomes.PaymentAcceptedIff` | _archive/legacy-v1/implementations/fee-service.js:329-363 | On a ledger a payment without a fault is booked if and only if the student is stored, the due is stored under that student, the amount is positive, the receipt number is free and paid plus amount does not exceed the original amount; otherwise the error is the first reason that applies |
| `FeeOutcomes.PaymentEffect` | _archive/legacy-v1/implementations/fee-service.js:362-392 | An accepted payment adds its row, adds its amount to the due, marks the due paid exactly when nothing is left, and changes nothing else |
| `FeeOutcomes.DuesAcceptedIff` | _archive/legacy-v1/implementations/fee-service.js:265-324 | Dues are created if and only if the student has an active enrollment in a stored year, some active structure of its class and year exists, and none of these was billed to the student before; otherwise the error is the first reason that applies |
| `FeeOutcomes.DuesEffect` | _archive/legacy-v1/implementations/fee-service.js:289-324 | The due table gains one unpaid due for each of exactly those structures, in table order, and no other table changes |
| `FeeOutcomes.BilledIff` | _archive/legacy-v1/implementations/fee-repository.js:80-106 | The query for structures finds those that are active and of the year and class, where a year 0 and an absent, zero or empty class do not count |
| `FeeOutcomes.StructureAcceptedIff` | _archive/legacy-v1/implementations/fee-service.js:99-147 | A structure is created if and only if its amount is positive, its year, class and type are active and have no structure together; a refusal says something true |
| `FeeOutcomes.UpdateAcceptedIff` | _archive/legacy-v1/implementations/fee-service.js:169-214 | An update is accepted if and only if the structure is stored, a given amount is positive, a given status known, every given reference that of a stored row, and something is given |
| `FeeOutcomes.UpdateEffect` | _archive/legacy-v1/implementations/fee-service.js:214-217 | It writes the given fields of the one row and nothing else |
| `FeeLedger.PaymentKeepsLedger` | _archive/legacy-v1/implementations/fee-service.js:367-392 | A payment within the balance keeps the ledger whether its transaction commits or any of its writes fails |
| `FeeLedger.CreateDuesKeepsLedger` | _archive/legacy-v1/implementations/fee-service.js:302-324 | All dues are added or none, and the ledger is kept, whichever write fails |
| `FeeLedger.AddDuesAddsAll` | _archive/legacy-v1/implementations/fee-service.js:302-324 | The added dues: one per structure, in order, unpaid and of the structure's amount, after the old ones, and no other table changes |
| `FeeLedger.StructureKeepsLedger` | _archive/legacy-v1/implementations/fee-service.js:99-156 | A structure that passed the checks keeps the ledger and the uniqueness of year, class and type |
| `Fees.UpdateStructureKeepsLedger` | _archive/legacy-v1/implementations/fee-service.js:169-218 | An update of a structure keeps the ledger, whatever it changes |
| `Fees.UpdateKeepsTriplesIff` | _archive/legacy-v1/implementations/fee-service.js:169-218 | An accepted update keeps year, class and type unique if and only if no other structure has the triple that it writes |
| `Fees.DuplicateTripleIsAccepted` | _archive/legacy-v1/implementations/fee-service.js:198-214 | A concrete update that is accepted and makes a duplicate |
| `FeeLedger.MoneyIsConserved` | _archive/legacy-v1/implementations/fee-service.js:367-392 | What the dues say was paid is in total what the payments brought in |
| `Fees.LedgerInEveryRun` | _archive/legacy-v1/implementations/fee-service.js:99-401 | After every run from an empty database, failed writes included: each due's paid amount is the sum of its payments and lies between 0 and its original amount, its status is a function of the two, receipt numbers and pairs of student and structure are unique, and money is conserved |
| `Fees.TriplesHeldIff` | _archive/legacy-v1/implementations/fee-service.js:99-218 | For every run from an empty database year, class and type are unique in all its states if and only if each accepted update writes a triple that is free in the state it meets |
| `Fees.SummaryBalances` | _archive/legacy-v1/implementations/fee-service.js:470-478 | The summary's totals and counts balance |
| `Migrations.MigrationRunner.RegisterMigration` | _archive/legacy-v1/implementations/migration-runner.js:10-23 | Refuses unnamed, non-positive and already registered versions, so registered versions stay distinct |
| `Migrations.PendingMeaning` | _archive/legacy-v1/implementations/migration-runner.js:40-46 | Pending migrations are the registered ones that are not recorded, in ascending order |
| `Migrations.MigrationRunner.RunMigrations` | _archive/legacy-v1/implementations/migration-runner.js:48-66 | The loop of transactions has the effect, the result list and the failure of the pure run; inside an open transaction it creates the table and then fails unless nothing is pending |
| `Migrations.RunKeepsHistory` | _archive/legacy-v1/implementations/migration-runner.js:48-66 | One run extends the history by what it applied, in ascending order: the store is always the effects of the up functions of exactly the recorded migrations, each followed by its record |
| `Migrations.MigrationSucceedsIff` | _archive/legacy-v1/implementations/migration-runner.js:55-62 | The transaction of a migration goes through if and only if its up function does, and then has the effects of that function and one more record |
| `Migrations.FailureLeavesNoTrace` | _archive/legacy-v1/implementations/migration-runner.js:48-66 | A run that ends by an exception leaves exactly what the migrations before the failing one made, and the transaction of the failing one is the one that failed |
| `Migrations.RerunChangesNothing` | _archive/legacy-v1/implementations/migration-runner.js:48-66 | A run after a successful one applies nothing and changes nothing |
| `Migrations.HistoryInEveryRun` | _archive/legacy-v1/implementations/migration-runner.js:10-66 | The same over every sequence of registrations and runs |
| `Terms.NoOverlapMeansApart` | _archive/legacy-v1/implementations/academic-structure-repository.js:77-86 | The overlap query finds nothing only if the new dates keep clear of every other term of the year |
| `Terms.OverlapFoundIff` | _archive/legacy-v1/implementations/academic-structure-repository.js:77-86 | The overlap query finds a term if and only if some other term of the year runs into the new dates, and what it finds is such a term |
| `Terms.CreateKeepsCalendar` | _archive/legacy-v1/implementations/academic-structure-service.js:109-148 | createTerm keeps terms inside their years and the terms of a year disjoint, for every input |
| `Terms.UpdateKeepsCalendarIff` | _archive/legacy-v1/implementations/academic-structure-service.js:161-204 | An accepted update keeps them if and only if it hits no row or what the whole request leaves in the row is proper: non-empty dates in order, a stored year that spans them and has no other term that runs into them, and a free id |
| `Terms.ClearedStartIsAccepted` | _archive/legacy-v1/implementations/academic-structure-service.js:182-203 | A null start date is accepted and destroys the calendar |
| `Terms.MovedTermIsAccepted` | _archive/legacy-v1/implementations/academic-structure-service.js:188-203 | Moving a term to a year that is not stored is accepted and destroys the calendar |
| `Terms.ShoutedStartIsAccepted` | _archive/legacy-v1/implementations/academic-structure-repository.js:97-108 | A start date under the key `START_DATE` is not checked, is written, and destroys the calendar |
| `Terms.TermsFitTheYear` | _archive/legacy-v1/implementations/academic-structure-service.js:126-147 | The terms of a year are together no longer than the year, in any measure that respects the order of dates |
| `Terms.CalendarHeldIff` | _archive/legacy-v1/implementations/academic-structure-service.js:109-204 | For every run of creations and updates the calendar holds in all its states if and only if each accepted update meets that condition in the state it meets |
| `Terms.CalendarInEveryRun` | _archive/legacy-v1/implementations/academic-structure-service.js:109-204 | In particular any run of creations and of updates whose keys are in lower case, that give real dates and move no term, keeps the calendar |
| `TermServices.TermService.CreateTerm` | _archive/legacy-v1/implementations/academic-structure-service.js:109-148 | The method on live rows has the checks, errors and effect of that specification, and the answer is the row the table has gained; with the conditions below on acceptance and effect |
| `TermServices.TermService.UpdateTerm` | _archive/legacy-v1/implementations/academic-structure-service.js:161-204 | The same for updates with any keys, through the clause building of the repository and its check that a row was hit; the answer is the live row as it then stands |
| `TermServices.TermService.FindOverlappingTerm` | _archive/legacy-v1/implementations/academic-structure-repository.js:77-86 | The query with its optional exclusion returns the live row of the first overlapping term of the specification |
| `TermOutcomes.TermAcceptedIff` | _archive/legacy-v1/implementations/academic-structure-service.js:109-148 | On a calendar a term is created if and only if it has a name, non-empty dates in order, a stored year that spans them and no term of that year that runs into them; otherwise the error is the first reason that applies. An accepted term is stored with its name trimmed, and nothing else changes |
| `TermOutcomes.ChangeAcceptedIff` | _archive/legacy-v1/implementations/academic-structure-service.js:161-204 | On a calendar an update is accepted if and only if the term is stored, a given name and status are proper, the dates it leaves are missing or in order and inside the year, no other term runs into them, something is written, and a row is hit |
| `TermOutcomes.PlainChangeEffect` | _archive/legacy-v1/implementations/academic-structure-repository.js:97-118 | An accepted update in lower case, with real dates and no move, writes its keys into the one row, the name trimmed, and nothing else |
| `Container.DependencyInjectionContainer.Resolve` | _archive/legacy-v1/di-container.js:22-24 | Succeeds if and only if everything asked for without looking behind cached singletons is registered and acyclic; otherwise the error names a real gap or cycle. Cached instances stay, only registered singletons are cached, and what is not cached is built by the registered service as the last step |
| `Container.DependencyInjectionContainer.ResolveInternal` | _archive/legacy-v1/di-container.js:33-63 | The recursion ends (measure: registered names minus chain length) and builds dependencies before dependents; a service that is no singleton is built exactly once for each place that asks for it |
| `Container.RunCalls` | _archive/legacy-v1/di-container.js:12-91 | Over every run of register, registerSingleton, resolve and clear: a name not given to registerSingleton so far is built anew, with the factory registered last, whenever it is resolved |
| `Container.LogStep` | _archive/legacy-v1/di-container.js:52-60 | Every factory ran on what the factories of its dependencies produced before, and a singleton's factory ran at most once since the last clear |
| `Container.CacheIsHonest` | _archive/legacy-v1/di-container.js:38-40 | Caching what could be resolved makes nothing else resolvable |
| `Container.DependenciesSuffice` | _archive/legacy-v1/di-container.js:42-56 | A registered name whose dependencies are resolvable is resolvable, although resolving each of them grows the cache |
| `Container.DependencyInjectionContainer.Clear` | _archive/legacy-v1/di-container.js:83-91 | No services, no singletons and a new build log |
| `Codec.Serializer.Serialize` | apps/web/public/sqlite3-opfs-async-proxy.js:200-224 | Succeeds if and only if every type is supported and the whole image fits; then the buffer is the image followed by its old tail |
| `Codec.Serializer.Deserialize` | apps/web/public/sqlite3-opfs-async-proxy.js:163-187 | Returns what the buffer decodes to and clears the count byte when asked to |
| `CodecReads.DeserializedIff` | apps/web/public/sqlite3-opfs-async-proxy.js:163-187 | Whatever the bytes are: it finds nothing if and only if the count is zero, and returns exactly the values whose images, or whose text, stand one behind the other in the fields that the type ids announce; where the buffer holds no such values it throws |
| `CodecReads.ReadFieldIff` | apps/web/public/sqlite3-opfs-async-proxy.js:171-184 | A field is read as a value if and only if the value is in the range of its type and the bytes are its image, or decode to its text; a length beyond the buffer is cut off and a negative one counts from the end |
| `Codec.RoundTrip` | apps/web/public/sqlite3-opfs-async-proxy.js:163-224 | For 1 to 255 arguments deserialize returns them all, in order, in the form in which each comes back |
| `Codec.FieldRoundTrip` | apps/web/public/sqlite3-opfs-async-proxy.js:171-184 | One argument comes back and the offset moves past its field, wherever the field stands |
| `Codec.UnchangedIff` | apps/web/public/sqlite3-opfs-async-proxy.js:171-184 | Exactly these come back unchanged: 64-bit numbers and big integers, and texts without a leading byte order mark; booleans never do |
| `Codec.ReadsBackIff` | apps/web/public/sqlite3-opfs-async-proxy.js:163-224 | deserialize returns the argument list itself if and only if there are 1 to 255 arguments and each is a 64-bit number, a 64-bit big integer or a text without a leading byte order mark |
| `Codec.TooManyArgumentsGetLost` | apps/web/public/sqlite3-opfs-async-proxy.js:200-212 | With more than 255 arguments what comes back never has their number |
| `Codec.Exchange` | apps/web/public/sqlite3-opfs-async-proxy.js:163-224 | An empty call reads back as null, any other as its arguments, and after a clearing read the next read is null |
| `Codec.ImageRoundTrip` | apps/web/public/sqlite3-opfs-async-proxy.js:124-146 | A getter reads back what the setter of the same byte order wrote, modulo the width |
| `Codec.ImageBytes` | apps/web/public/sqlite3-opfs-async-proxy.js:124-146 | A setter writes the digits of the number to base 256, the lowest first in little-endian order and last otherwise |
| `Codec.FieldStands` | apps/web/public/sqlite3-opfs-async-proxy.js:200-224 | The field of each argument stands behind count, type ids and the fields before it |
| `Utf8.EncodedForm` | apps/web/public/sqlite3-opfs-async-proxy.js:214-220 | The encoder follows the table of section 3 of RFC 3629 |
| `Utf8.TextRoundTrip` | apps/web/public/sqlite3-opfs-async-proxy.js:176-180 | Text survives encoding and decoding if and only if it does not start with a byte order mark |

## Left out

Weaker than the code:

- Migrations.HistoryInEveryRun: assumes that no `up` function writes to the table of recorded migrations itself; nothing in the source forbids it, and such a function could erase the record.
- Sql.TransactKeepsIds: assumes numeric ids and no assignment to the id column, which the code allows.
- Sql.IdsInEveryRun: the same assumption.
- Terms.CalendarHeldIff: academic years stay as they are; `updateAcademicYear` is not modelled.
- MemoryDatabase.Database.Transaction: a callback is the list of commands that one run issues; it does not call commit, rollback or disconnect.
- Container.DependencyInjectionContainer.Resolve: factories are total functions that do not call the container; a factory that throws is not modelled.
- Container.DependencyInjectionContainer.Clear: calling `disconnect` on cached instances is not modelled.
- Codec.Serializer.Serialize: says nothing about the buffer after a call that throws half-way.
- Codec.RoundTrip: assumes texts shorter than 2^31 bytes, the range of their length prefix.
- Pipeline.Generate: starts from parsed inventories and ends with the exit code; the other artefacts it writes are not part of it.

Not modelled:

- Reading files, parsing TOML, JSON and CSV, argument parsing and writing JSON.
- `parse_uv_lock`, `parse_requirements`, `_parse_v3`, the METADATA and RECORD readers and the integrity strings.
- The internals of SHA-256 and UUIDv5, and `created_timestamp`, which yields a timestamp or raises.
- The grammar of licence expressions (Annex D of SPDX 2.3); the code does not parse it.
- Lower-casing, digits and percent-encoding outside what the patterns need: letters are lower-cased only in ASCII, `\d` is an ASCII digit.
- Missing or wrongly typed fields of a document: documents are typed, so the validators' type errors cannot occur.
- The risk report.
- The text of SQL commands: they are a datatype, so keys of an update request hold no white space and no comma and are not the word `where`, which would change how the text splits; LIKE and comparisons between a text and a number (which are never ordered here) are not modelled, and ORDER BY is ignored as in the code.
- Arithmetic on cells that hold no number.
- `getClassFinancialSummary` and the other reports of the fee service; they add no invariant.
- Rounding: amounts are exact integers. JavaScript numbers round above 2^53, where the sum of payments may differ from the amount paid although every amount passes `Number.isInteger`.
- The change of the clock within one call: one time stamp serves all rows that a call writes.
- `updateAcademicYear`, classes, sections, subjects and teachers.
- Malformed UTF-8 beyond one replacement character for each bad byte, lone surrogates, and the payload of a NaN.
- The locks, the wait loop and the file handles of the OPFS worker.
- Attendance and student services, the pool manager, the event bus and the lifecycle manager, whose invariants repeat those above.
- The live API, the web and mobile code, and database migrations of the live system.
