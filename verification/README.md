# Buck core: the frozen dependency graph, class-name accumulation, `export_file`

This project models three pieces of the Buck build tool in Dafny and proves properties
about them.

- **`ImmutableGraph`** (`graph.dfy`) models `DefaultImmutableDirectedAcyclicGraph`.
  - Freezing a builder-time graph is refused for a null graph and for a cyclic graph.
    Otherwise the graph's node set, outgoing-edge multimap and incoming-edge multimap are
    copied.
  - The queries are the outgoing and incoming neighbours of a node, the leaves and the
    roots (node set minus the multimap's key set), and the node count.
  - The debug dump has a header line and one line per edge.
  - A set multimap is a map from a key to a *non-empty* set of values.
- **`ClassNames`** (`class_names.dfy`) models `AccumulateClassNamesStep`.
  - The classpath traversal is a sequence of visited entries. Only `.class` entries are
    kept, keyed by their path with the suffix stripped.
  - The `ImmutableSortedMap` builder is a sequence kept strictly sorted by the natural
    order of strings.
  - The manifest is one `name + " " + hash` line per entry.
  - An execution is a function of the step's state and of how the traversal and the
    write turn out. Either I/O failure gives exit code 1 and leaves the state unchanged.
  - `get()` needs a successful execution first.
  - The step's description is `get_class_names <src> > <dst>`.
- **`ExportFileRule`** (`export_file.dfy`) models `ExportFile`.
  - The constructor defaults `src` to the rule's name in the build file's directory.
  - `out` is placed under `buck-out/gen`, in the build file's directory, using `out` or
    else the rule's name.
  - The other members are the inputs compared against the output, the rule-key
    contribution, the two build steps and the output path.
- **`Paths`** (`paths.dfy`) models relative `java.nio.file.Path` values.
  - A path is a sequence of non-empty, separator-free segments.
  - `Paths.get` parses and `toString` joins; parsing a path's string form gives the path
    back.
- **`Strings`** (`strings.dfy`) and **`Wrappers`** (`wrappers.dfy`) are the support
  modules.
  - `Strings` holds the lexicographic order `String.compareTo` uses (proved a strict total
    order), first and last index search, and decimal rendering.
  - `Wrappers` holds `Option` (with Guava's `or`) and `Result`.

Java's `null` arguments become `Option.None`. Failed preconditions become a `Result`
failure or a `requires`, as noted per member. I/O outcomes, hashes and the traversal's
visiting order are parameters.

## Model

| member | source | states |
|---|---|---|
| ImmutableGraph.Freeze | src/com/facebook/buck/graph/DefaultImmutableDirectedAcyclicGraph.java:30-36 | a null graph fails with `NullGraph`. A non-null graph fails with `NotAcyclic` exactly when its acyclicity check says no. Otherwise the nodes and both multimaps are copied unchanged, and a consistent builder graph freezes into a valid one |
| ImmutableGraph.OutgoingNodesFor | src/com/facebook/buck/graph/DefaultImmutableDirectedAcyclicGraph.java:38-41 | `m` is returned exactly when `source -> m` is an outgoing edge. The result is empty, not an error, for an unknown node, and lies within the node set |
| ImmutableGraph.IncomingNodesFor | src/com/facebook/buck/graph/DefaultImmutableDirectedAcyclicGraph.java:43-46 | `m` is returned exactly when `m -> sink` is an incoming edge. The result is empty for an unknown node and lies within the node set |
| ImmutableGraph.IncomingIffOutgoing | src/com/facebook/buck/graph/DefaultImmutableDirectedAcyclicGraph.java:33-35 | in a valid graph, `m` is an incoming neighbour of `n` if and only if `n` is an outgoing neighbour of `m` |
| ImmutableGraph.EdgesAgree | src/com/facebook/buck/graph/DefaultImmutableDirectedAcyclicGraph.java:27-28 | the two multimaps describe the same set of edges |
| ImmutableGraph.NodesWithNoOutgoingEdges | src/com/facebook/buck/graph/DefaultImmutableDirectedAcyclicGraph.java:48-51 | a node is a leaf if and only if it is in the graph and has no outgoing neighbour |
| ImmutableGraph.NodesWithNoIncomingEdges | src/com/facebook/buck/graph/DefaultImmutableDirectedAcyclicGraph.java:53-56 | a node is a root if and only if it is in the graph and has no incoming neighbour |
| ImmutableGraph.RootsAndLeavesAreEdgeFree | src/com/facebook/buck/graph/DefaultImmutableDirectedAcyclicGraph.java:48-56 | a root is no node's outgoing neighbour, and a leaf is no node's incoming neighbour |
| ImmutableGraph.NodeCount | src/com/facebook/buck/graph/DefaultImmutableDirectedAcyclicGraph.java:69-72 | the count is the number of distinct nodes. In a valid graph it equals the number of leaves plus the number of nodes with outgoing edges, and the number of roots plus the number of nodes with incoming edges |
| ImmutableGraph.EdgesFromAllNodes | src/com/facebook/buck/graph/DefaultImmutableDirectedAcyclicGraph.java:61-62 | in a valid graph, walking the outgoing neighbours of every node meets every edge |
| ImmutableGraph.DebugLines | src/com/facebook/buck/graph/DefaultImmutableDirectedAcyclicGraph.java:58-67 | the dump is the node-count header, then distinct edge lines. A line `a => b` appears if and only if `a -> b` is an edge from a node. There is exactly one line per edge, whatever order the nodes are visited in |
| ImmutableGraph.DebugStringLineCount | src/com/facebook/buck/graph/DefaultImmutableDirectedAcyclicGraph.java:60-63 | when no node renders with a newline, the text `DebugString` renders for a dump has exactly one newline per dump line |
| Strings.NatToString | src/com/facebook/buck/graph/DefaultImmutableDirectedAcyclicGraph.java:60 | the node count is rendered as decimal digits without a leading zero, and those digits read back as the count |
| ClassNames.NameWithoutClassSuffix | src/com/facebook/buck/java/AccumulateClassNamesStep.java:92 | the key, followed by `.class`, is the entry's path |
| ClassNames.Visit | src/com/facebook/buck/java/AccumulateClassNamesStep.java:85-101 | a visit puts one entry if and only if the entry is a class file. That entry is its stripped name with its content hash |
| ClassNames.VisitAll | src/com/facebook/buck/java/AccumulateClassNamesStep.java:83-105 | the traversal puts exactly the (stripped name, hash) pairs of the class files it meets, and no more puts than entries met |
| ClassNames.VisitAllSkipsNonClassFiles | src/com/facebook/buck/java/AccumulateClassNamesStep.java:86-90 | resources and directory entries met anywhere in a traversal change nothing it puts |
| ClassNames.Build | src/com/facebook/buck/java/AccumulateClassNamesStep.java:111 | building gives a map strictly sorted by name, with exactly the entries put |
| ClassNames.Accumulate | src/com/facebook/buck/java/AccumulateClassNamesStep.java:78-111 | the map is sorted by name and has one entry per class file. An entry is in it if and only if some class file met has that stripped name and hash |
| ClassNames.SortedUnique | src/com/facebook/buck/java/AccumulateClassNamesStep.java:80-81 | two name-sorted maps with the same entries are identical |
| ClassNames.AccumulateIgnoresVisitOrder | src/com/facebook/buck/java/AccumulateClassNamesStep.java:104-111 | traversals meeting the same entries in any order build the same map |
| ClassNames.ParseLine | src/com/facebook/buck/java/AccumulateClassNamesStep.java:118 | a line that reads back is exactly the manifest line of the entry it reads as |
| ClassNames.ParseLineOfLine | src/com/facebook/buck/java/AccumulateClassNamesStep.java:55-58 | splitting a manifest line at its last separator gives back the name and the hex hash, even when the name contains the separator |
| ClassNames.Manifest | src/com/facebook/buck/java/AccumulateClassNamesStep.java:112-121 | one line per entry in the map's order, each the entry's name, the separator and its hash. When every hash is hex, reading the manifest back gives the map again |
| ClassNames.ManifestInNameOrder | src/com/facebook/buck/java/AccumulateClassNamesStep.java:113-114 | the manifest's lines come in strictly ascending order of class name |
| ClassNames.Execute | src/com/facebook/buck/java/AccumulateClassNamesStep.java:78-131 | the exit code is 0 or 1, and 0 exactly when both the traversal and the write succeed. On exit 1 the state is unchanged and no manifest is written. On exit 0 the stored map is sorted by name and holds exactly the class files' entries, and the manifest is that map's lines. A sorted state stays sorted |
| ClassNames.Get | src/com/facebook/buck/java/AccumulateClassNamesStep.java:133-138 | callable only once a map is stored, and returns that map, sorted whenever the state is |
| ClassNames.GetAfterSuccess | src/com/facebook/buck/java/AccumulateClassNamesStep.java:129-137 | after a successful execution, `get` returns the map whose manifest was written, and reading that manifest gives the map back |
| ClassNames.FailureKeepsUnexecuted | src/com/facebook/buck/java/AccumulateClassNamesStep.java:63-69 | a step that has never succeeded still has no map after a failed execution |
| ClassNames.Description | src/com/facebook/buck/java/AccumulateClassNamesStep.java:73 | the description starts with `get_class_names `, followed by the source path, then ` > `, then the destination path |
| ClassNames.ParseDescriptionOfDescription | src/com/facebook/buck/java/AccumulateClassNamesStep.java:73 | when the source path has no `>`, both paths can be recovered from the description |
| Paths.Segments | src/com/facebook/buck/shell/ExportFile.java:83 | a non-empty string without a separator is one segment, and the empty string is none |
| Paths.Get | src/com/facebook/buck/shell/ExportFile.java:86 | `Paths.get` of several strings is the parse of the strings joined by separators |
| Paths.SegmentsOfJoin | src/com/facebook/buck/shell/ExportFile.java:86 | a separator between two strings splits their segments, merging and losing nothing |
| Paths.ToString | src/com/facebook/buck/shell/ExportFile.java:91 | the string form is the segments joined by single separators, and it parses back to the path |
| Paths.ToStringInjective | src/com/facebook/buck/shell/ExportFile.java:98 | two paths with the same string form are the same path |
| Paths.Parent | src/com/facebook/buck/shell/ExportFile.java:107 | the parent exists exactly for paths of two or more segments, and the parent plus the last segment is the path |
| Paths.FileName | src/com/facebook/buck/shell/ExportFile.java:85-86 | the file name exists exactly for non-empty paths, and is the last segment |
| ExportFileRule.GenDirSegments | src/com/facebook/buck/shell/ExportFile.java:86 | the generated-files root parses to the segments `buck-out`, `gen` |
| ExportFileRule.New | src/com/facebook/buck/shell/ExportFile.java:81-87 | `src` is the given source, or else base path plus rule name. `out` is the generated-files root plus base path plus the given `out` name, or else the rule name |
| ExportFileRule.PathsAsParsed | src/com/facebook/buck/shell/ExportFile.java:83-86 | both paths are what `Paths.get` makes of the base path's string and the names |
| ExportFileRule.OutMirrorsDefaultSrc | src/com/facebook/buck/shell/ExportFile.java:71-72 | without arguments, the output is the defaulted source moved under the generated-files root |
| ExportFileRule.InputsToCompareToOutput | src/com/facebook/buck/shell/ExportFile.java:89-92 | exactly one input is compared, and it names the source path |
| ExportFileRule.AppendDetailsToRuleKey | src/com/facebook/buck/shell/ExportFile.java:94-99 | the builder keeps its entries and gains one `src` entry that names the source path |
| ExportFileRule.RuleKeyDependsOnlyOnSrc | src/com/facebook/buck/shell/ExportFile.java:96-98 | two rules contribute the same rule-key entries if and only if their sources are equal, whatever their outputs |
| ExportFileRule.PathToOutputFile | src/com/facebook/buck/shell/ExportFile.java:113-116 | the reported string parses back to the output path |
| ExportFileRule.BuildSteps | src/com/facebook/buck/shell/ExportFile.java:101-111 | the steps are exactly a mkdir, then a copy from the source to the output. The mkdir's path is the output's parent, and it is absent when the output has a single segment |
| ExportFileRule.StepsOfNew | src/com/facebook/buck/shell/ExportFile.java:106-108 | for a constructed rule, the directory made is the build file's directory under the generated-files root |
| ExportFileRule.NameOnly | src/com/facebook/buck/shell/ExportFile.java:43-52 | `export_file(name = n)` exports `n` from the build file's directory as `n`, the same as giving `src = n, out = n` |
| ExportFileRule.RenamedSource | src/com/facebook/buck/shell/ExportFile.java:53-62 | `export_file(name = n, src = s)` exports `s` as `n`, the same as also giving `out = n` |
| ExportFileRule.LogicalName | src/com/facebook/buck/shell/ExportFile.java:63-70 | with `out = o`, the output is named `o` whatever the rule's name |
| ExportFileRule.ExampleNameOnly | src/com/facebook/buck/shell/ExportFile.java:40-52 | the documented `some-file.html` example in `path/to/buck` |
| ExportFileRule.ExampleRenamedSource | src/com/facebook/buck/shell/ExportFile.java:53-62 | the documented `foobar.html` example |
| ExportFileRule.ExampleLogicalName | src/com/facebook/buck/shell/ExportFile.java:63-70 | the documented `ie-exports` example |

## Left out

- The builder-time `MutableDirectedGraph` is not part of this model.
  - Its acyclicity check is an input flag of the snapshot.
  - That its two edge copies are transposes of each other, within its nodes, is the assumption `Consistent`.
  - Graph queries need no purity statement, since every model function is pure.
- `getNodes` returns the node set unchanged and has no member of its own.
- ImmutableGraph.NodeCount: Java's `int` size, which saturates for sets beyond `Integer.MAX_VALUE`, is not modelled; the count is unbounded.
- ImmutableGraph.DebugLines: the dump is modelled as structured lines and not as text, and the visiting order of an immutable set is left unspecified.
- ImmutableGraph.DebugStringLineCount: the `toString` of nodes is the parameter `show`, and the proved property only counts lines; the text of each line is given by `LineText` but not stated as a property.
- `FileLikes.isClassFile` and `FileLikes.getFileNameWithoutClassSuffix` are not part of this model.
  - They are taken to test for, and strip, a trailing `.class` on the entry's relative path.
- Reading and SHA-1 hashing of the entry's contents are left out; the hash is an input of each visited entry.
- The classpath traverser and the file-system write are left out; each is reduced to an `Outcome` (completes or throws `IOException`).
- A partially written manifest before a write failure is not modelled.
- Logging through `context.logError` and the event bus is left out.
- ClassNames.Accumulate: the sorted-map builder throws on duplicate keys. The model requires the class names met to be distinct rather than modelling that exception.
- ClassNames.Execute: inherits that requirement for a traversal that completes, instead of returning the builder's exception.
- ClassNames.Build: the order is lexicographic on characters, so names outside the Basic Multilingual Plane, which Java compares by UTF-16 code units, are not modelled. The same holds for the order that `Accumulate`, `Execute`, `SortedUnique` and `ManifestInNameOrder` promise.
- `setClassNamesForTesting` is a test hook and is left out.
- The constructor's `checkNotNull` on both paths is left out: `Description` takes two present paths, and a null path is not modelled.
- ClassNames.ParseDescriptionOfDescription: a source path containing `>` makes the description ambiguous, so that case is excluded.
- `ExportFileDescription` is not part of this model.
  - The `src` argument arrives already resolved to a path relative to the project root.
  - The `out` argument is a single name segment.
- `BuckConstant` is not part of this model. `GEN_DIR` is taken to be `buck-out/gen`, the generated-files root the tests use.
- Absolute paths and `..` or `.` segments are not modelled; every path is relative and already normalised.
- Paths.Segments: `Paths.get` is modelled for `/` separators only; platform separators and invalid-path exceptions are left out.
- ExportFileRule.AppendDetailsToRuleKey: the rule-key builder's hashing is left out; the builder is the list of named entries appended to it.
- Executing `MkdirStep` and `CopyStep` is left out; the steps are data.
