# Terlan verification

A Dafny model of the parts of Terlan that carry the most state, recursion and arithmetic, with proofs of what they
promise. `dafny verify dfyconfig.toml` checks the whole project.

## What is modelled

* **Build-tool settings** (`CargoToolSettings`, `SettingValues`, `TableOrigins`, `CargoConfiguration`,
  `CargoMeaning`). A recursive include walk with visit, depth, path and byte budgets loads setting trees and merges
  them in two directions: includes override, nearer roots keep their own values. The main result is
  `CargoConfiguration.Expand`: success is characterised exactly, and the settings equal one left-to-right override
  fold along the flat load order. A merge keeps the receiver's *table* origin in both directions, so the fold always
  agrees on shape, leaf values and leaf origins. It agrees on table origins too exactly when every table has one
  origin in the farthest and the nearest root that hold it (`FoldRootsEqualsFold`); `TableOriginsDiffer` shows a case
  where it does not. `CargoMeaning` says the same of documents and files alone: which includes an array declares, in
  which order files load, which file decides a setting at every place, and exactly when a discovery succeeds.
* **Documentation navigation** (`Navigation`, `NavigationMeaning`). Parent links are checked, grouped, sorted and
  walked. The checks accept exactly the forests, the walk terminates and is complete, and the late check for
  unreachable cycles never fires. Order, contiguity, depth and independence from the input order are proved;
  `NavigationMeans` says what a built navigation shows in terms of the pages given, and `RefusalMeans` why one is
  refused.
* **Scanner for SQL blocks and interpolated strings** (`SqlScanner`, `SqlGrammar`, `StringGrammar`). Every scanning
  loop is proved against a reference function on positions; the one-character fallback matcher is proved equal to
  naive search; and the scanner accepts exactly the printed well-formed payload trees and the printed well-formed
  interpolated strings, in both directions.
* **Bounded capture** (`CaptureProtocol`, `CaptureOutcomes`, `CaptureProgress`). The reader thread and its owner are a
  step system: one step is one access to the queue, the stop flag, the clock, the pipe or the child. The invariant
  holds in every interleaving; under fair scheduling a cancelled or overdue capture ends, and an undisturbed one ends
  with the whole stream. The exit it reports is that of the first poll that found one, and every fault has its cause
  among the moves.
* **Checkpoint storage** (`Checkpoints`, `Transactions`, `StoreLaws`, `LocalStore`, `DatabaseStore`). Both backends
  are classes proved equal to one abstract step; the laws of runs (retries, migrations, quotas) are proved about that
  step, and `AppendAnswers` says exactly which answer an append gives to which store. The database is a table of rows
  and one metadata record whose transactions are atomic.
* **Cache retention** (`Inodes`, `IncrementalCache`, `CacheMeaning`, `InventoryMeaning`, `SupportCache`,
  `SupportMeaning`). Which compiler sessions and support generations may be retired, and what any part of a retirement
  leaves unchanged. A candidate keeps its lease during the inspection, so a second session behind the same lock file
  counts as held: pruning is idempotent exactly where retirable sessions do not share a lock (`PruneIsIdempotent`,
  `SharedLockTakesTwoPrunes`).
* **Build records** (`ArtifactStream`, `ArtifactCuts`, `ArtifactMeaning`). Newline framing with budgets, admission and
  poisoning. Chunk boundaries decide nothing about success; what they can be seen in after a failure is stated
  exactly, for the pending bytes, the harnesses and the finished flag.
* **Test reports** (`Text`, `TextMeaning`, `DoctestOutput`, `DoctestReports`, `DoctestMeaning`, `DoctestPrinting`). A
  line-oriented inspector, exactly which texts it accepts, said about their lines alone, and exactly which printed
  runs. A name is refused when it contains the warning text, begins like a summary line, is empty, holds a control
  character, or, for a slow test, contains the marker of a pending one.
* **Record projection** (`RecordFields`). In-place selection by swapping.

`Wrappers`, `Sequences`, `Orders`, `Inodes` and `Text` hold shared vocabulary: results, sequences without repetition,
total orders with a stable sort, byte sums, and the text operations of a line parser.

## What stands for the outside

Files, their sizes and their parsed contents are a fixed world in `CargoConfiguration`, where an observation returns
at most the remaining budget. The hash of a checkpoint, the parsers of build records, manifest admission, path
resolution, finite-number parsing and the identifier ranges are fixed functions or tables given as parameters; of the
number parser only this is used, that a finite number is written with digits, signs, a point and an exponent. Lock
files and clocks are fixed conditions in the cache models; every step of `CaptureProtocol` takes an arbitrary answer
from pipe, clock, observer and child.

## Model

| member | source | states |
|---|---|---|
| CargoToolSettings.ProjectionRoundTrip | crates/terlan-test-orchestrator/src/cargo_tool_settings.rs:206-218 | projecting a TOML value into a setting tree loses nothing: forgetting origins gives the value back, and every node carries the given origin |
| CargoToolSettings.FromDocument | crates/terlan-test-orchestrator/src/cargo_tool_settings.rs:74-103 | the entry-by-entry loops accept exactly the documents with well-shaped `build` and `env` sections and then yield exactly their own settings |
| CargoToolSettings.MergeSetting | crates/terlan-test-orchestrator/src/cargo_tool_settings.rs:220-236 | one node merges exactly when the trees are compatible (tables meet tables, leaves that are not arrays meet leaves that are not arrays; an array never merges), and then gives the combined tree |
| CargoToolSettings.MergeMap | crates/terlan-test-orchestrator/src/cargo_tool_settings.rs:265-278 | the loop over new entries fails exactly on an incompatible shared key and otherwise unites both maps |
| CargoToolSettings.ToolSettings.Merge | crates/terlan-test-orchestrator/src/cargo_tool_settings.rs:105-112 | merging in place succeeds exactly when the partial merge is defined, and the object then holds its value |
| CargoToolSettings.CombinedAccepts | crates/terlan-test-orchestrator/src/cargo_tool_settings.rs:220-236 | a merged tree is compatible with exactly those trees that both of its parts are compatible with |
| CargoToolSettings.CombinedAssociative | crates/terlan-test-orchestrator/src/cargo_tool_settings.rs:220-236 | tree merge is associative in both directions, origins included, whenever the three trees are pairwise compatible |
| CargoToolSettings.MergeAssociative | crates/terlan-test-orchestrator/src/cargo_tool_settings.rs:105-112 | merging settings is associative as a partial operation: both groupings fail on the same inputs and otherwise agree, origins included |
| CargoToolSettings.DirectionsAgree | crates/terlan-test-orchestrator/src/cargo_tool_settings.rs:220-236 | preferring new one way and preferring old the other way agree on shape, leaf values and leaf origins; they agree entirely if and only if shared tables came from the same file |
| CargoToolSettings.SettingsDirectionsAgree | crates/terlan-test-orchestrator/src/cargo_tool_settings.rs:105-112 | the same for whole settings, failures included |
| SettingValues.CompatibleExactly | crates/terlan-test-orchestrator/src/cargo_tool_settings.rs:220-236 | two trees are compatible if and only if at every place they both have, tables meet tables and leaves that are no arrays meet leaves that are no arrays |
| SettingValues.CombinedNode | crates/terlan-test-orchestrator/src/cargo_tool_settings.rs:220-236 | place by place, a merged tree has the leaf of the preferred side where both have one, a table where both have one, and all that only one has |
| SettingValues.AcceptsExactly | crates/terlan-test-orchestrator/src/cargo_tool_settings.rs:105-112 | two files can be merged if and only if what they have in common meets, place by place |
| SettingValues.FoldLastWins | crates/terlan-test-orchestrator/src/cargo_tool_settings.rs:105-112 | at every place a folded list holds what the last file that sets anything there puts there, a leaf with the file it came from, and nothing where no file does |
| SettingValues.RootsLastWins | crates/terlan-test-orchestrator/src/cargo_configuration.rs:45-59 | nearer-wins merging holds, at every place, what the nearest root that sets anything there puts there |
| SettingValues.OwnNode | crates/terlan-test-orchestrator/src/cargo_tool_settings.rs:74-103 | the settings of a document are what it has at the watched places, which are written out, and nothing else |
| CargoToolSettings.FoldConcat | crates/terlan-test-orchestrator/src/cargo_tool_settings.rs:105-112 | the override fold of a concatenated list is the merge of the two folds |
| CargoToolSettings.FoldAccepts | crates/terlan-test-orchestrator/src/cargo_tool_settings.rs:105-112 | a folded list accepts exactly what all its members accept, and knows exactly their variables |
| CargoToolSettings.FoldSucceedsExactly | crates/terlan-test-orchestrator/src/cargo_tool_settings.rs:105-112 | a fold succeeds if and only if the trees are pairwise compatible and the union of variable names is within the limit |
| CargoToolSettings.RootsAreAFold | crates/terlan-test-orchestrator/src/cargo_configuration.rs:45-59 | nearer-wins merging of roots, farthest first, is one left-to-right override fold up to table origins |
| CargoToolSettings.TableOriginsDiffer | crates/terlan-test-orchestrator/src/cargo_tool_settings.rs:220-236 | the exception is real: for two roots that set one variable as a table the fold remembers the farther file and the loader the nearer one |
| TableOrigins.JoinedOrigin | crates/terlan-test-orchestrator/src/cargo_tool_settings.rs:220-236 | in either direction a merged table keeps the origin it has in the receiver, and only otherwise that of the other side, at every place of the document |
| TableOrigins.FoldRootsEqualsFold | crates/terlan-test-orchestrator/src/cargo_configuration.rs:45-59 | for every list of roots, nearer-wins merging equals the flat override fold, table origins included, if and only if the roots cannot be merged at all or every table has one origin in the farthest and the nearest root that hold it; roots in between do not matter |
| CargoConfiguration.MeaningConcat | crates/terlan-test-orchestrator/src/cargo_configuration.rs:72-128 | the meaning of a load order is the merge of the meanings of its two halves, wherever it is cut |
| CargoConfiguration.RoomSplits | crates/terlan-test-orchestrator/src/cargo_configuration.rs:72-128 | the visit, path and byte budgets admit two walks if and only if they admit the first and, from the state it leaves, the second |
| CargoConfiguration.LoadPresent | crates/terlan-test-orchestrator/src/cargo_configuration.rs:72-128 | a present file is loadable if and only if there is room, it is new, its includes are loadable and the merge is defined; its load order, state and meaning then follow from its includes |
| CargoConfiguration.IncludeInventory.Observe | crates/terlan-test-orchestrator/src/cargo_configuration.rs:84-97 | observing a file keeps remaining plus the bytes of all rows constant, admits it exactly within both budgets, and never drops a row |
| CargoConfiguration.IncludeInventory.Enter | crates/terlan-test-orchestrator/src/cargo_configuration.rs:79-119 | everything before the includes: refused exactly by depth, budget, shape, repetition or a missing required file; conserves the byte budget |
| CargoConfiguration.IncludeInventory.Load | crates/terlan-test-orchestrator/src/cargo_configuration.rs:72-128 | the recursive load succeeds if and only if the include tree is loadable; then order, rows, visits and seen files are those of the walk, the settings are the fold of its load order, and remaining plus row bytes is unchanged even on failure |
| CargoConfiguration.IncludeInventory.LoadIncludes | crates/terlan-test-orchestrator/src/cargo_configuration.rs:121-124 | the include loop: each include overrides those before it, over the whole list, with the budget conserved |
| CargoConfiguration.RootsOfExactly | crates/terlan-test-orchestrator/src/cargo_configuration.rs:21-44 | the selected roots are distinct and are exactly the files the search directories select |
| CargoConfiguration.SelectRoots | crates/terlan-test-orchestrator/src/cargo_configuration.rs:21-44 | the selection loop over the ancestor directories and the home directory returns exactly these roots in order |
| CargoConfiguration.LoadRoots | crates/terlan-test-orchestrator/src/cargo_configuration.rs:45-59 | the loop over roots succeeds if and only if all are loadable and merge; its settings are the nearer-wins merge of what each root means, equal the override fold of the order it leaves up to table origins, and equal it entirely if and only if every table has one origin in the farthest and the nearest root that hold it |
| CargoConfiguration.Expand | crates/terlan-test-orchestrator/src/cargo_configuration.rs:13-60 | the whole discovery: success exactly characterised, the returned settings equal the left-to-right fold of each file along the returned order in shape, leaf values and leaf origins, and entirely if and only if every table has one origin in the farthest and the nearest root that hold it; the rows stay within the byte budget |
| CargoMeaning.IncludesDeclared | crates/terlan-test-orchestrator/src/cargo_configuration.rs:142-173 | an include array is accepted if and only if every item declares something; the includes are then, item by item and in its order, the declared path and flag: a text is required, a table has a `path` and an `optional` that is false where it is missing |
| CargoMeaning.FileIncludes | crates/terlan-test-orchestrator/src/cargo_configuration.rs:99-124 | what a well-formed file includes is what its document declares |
| CargoMeaning.FileOrder | crates/terlan-test-orchestrator/src/cargo_configuration.rs:121-128 | in the load order of a file everything an earlier include loads first stands before everything a later one adds, nothing else stands there, and the file itself comes last |
| CargoMeaning.RootsOrder | crates/terlan-test-orchestrator/src/cargo_configuration.rs:45-59 | everything a farther root loads stands before everything a nearer one loads |
| CargoMeaning.LastFileDecides | crates/terlan-test-orchestrator/src/cargo_configuration.rs:45-59 | the returned settings hold, at every place, what the last file of the load order that says anything about it says there, and nothing where all are silent |
| CargoMeaning.MergesExactly | crates/terlan-test-orchestrator/src/cargo_tool_settings.rs:105-112 | the files of a load order can be merged if and only if any two meet everywhere and they know at most 4096 variables together |
| CargoMeaning.WellFormedExactly | crates/terlan-test-orchestrator/src/cargo_configuration.rs:99-119 | a present file is well formed if and only if it parses, its includes are declarations, and its `build` and `env` sections are as they must be |
| CargoMeaning.AcceptedExactly | crates/terlan-test-orchestrator/src/cargo_configuration.rs:72-124 | an include tree is accepted if and only if, along every chain of includes, none of them as long as the depth, a file is present or optional, and well formed if present |
| CargoMeaning.OffersExactly | crates/terlan-test-orchestrator/src/cargo_configuration.rs:28-41 | a search directory offers `config` if it is present and otherwise `config.toml`, as observed |
| CargoMeaning.SearchExactly | crates/terlan-test-orchestrator/src/cargo_configuration.rs:21-27 | the home directory is searched last, and only if it is none of the ancestors |
| CargoMeaning.RootsExactly | crates/terlan-test-orchestrator/src/cargo_configuration.rs:21-44 | the roots are what the searched directories offer, each once, in the order of the first directory that offers it |
| CargoMeaning.AdmitSupplements | crates/terlan-test-orchestrator/src/cargo_configuration.rs:84-97 | observing adds exactly one row for every visited file without one, with its true size, and changes no row |
| CargoMeaning.DiscoverySucceedsExactly | crates/terlan-test-orchestrator/src/cargo_configuration.rs:13-60 | the whole discovery succeeds if and only if every root and all it leads to is as it must be, visits, rows and bytes stay within 512, 512 and 16 MiB, any two files meet everywhere and the variables are at most 4096 |
| Navigation.PageOrder | crates/terl-docs/src/navigation.rs:345-352 | the page comparison is a total order on pages with distinct routes: weight, title and route leave no ties |
| Navigation.CollectPages | crates/terl-docs/src/navigation.rs:39-62 | the insertion loop refuses exactly duplicate routes and otherwise stores every visible page under its route |
| Navigation.ValidateParentChain | crates/terl-docs/src/navigation.rs:307-323 | the loop over a growing set of seen routes succeeds if and only if the chain of parents ends at a root, for any input graph |
| Navigation.ChecksAcceptForests | crates/terl-docs/src/navigation.rs:63-79 | all parent checks pass if and only if the pages form a forest |
| Navigation.DepthBounded | crates/terl-docs/src/navigation.rs:354-368 | the measure of the recursion: in a forest every depth is less than the number of pages |
| Navigation.GroupByParent | crates/terl-docs/src/navigation.rs:81-87 | grouping lists, for every parent and for the top, exactly its children once |
| Navigation.RejectDuplicateWeights | crates/terl-docs/src/navigation.rs:325-343 | refuses exactly two siblings with one explicit weight |
| Navigation.SortChildren | crates/terl-docs/src/navigation.rs:88-91 | every group comes out in the unique ascending order, or the build fails on a shared weight |
| Navigation.CollectOrderedRoutes | crates/terl-docs/src/navigation.rs:354-368 | the recursive walk terminates, appends exactly the subtree, and writes its true depth into every page of it and no other |
| Navigation.SubtreeElements | crates/terl-docs/src/navigation.rs:354-368 | a subtree lists each route under its top exactly once and nothing else |
| Navigation.WholeIsComplete | crates/terl-docs/src/navigation.rs:93-101 | the walk lists every visible route exactly once |
| Navigation.SubtreeContiguous | crates/terl-docs/src/navigation.rs:354-368 | every subtree is one contiguous block of the whole order |
| Navigation.ParentPrecedesChild | crates/terl-docs/src/navigation.rs:354-368 | every parent stands before its children |
| Navigation.SiblingsInOrder | crates/terl-docs/src/navigation.rs:88-98 | siblings stand in comparison order in the whole walk |
| Navigation.BuildNavigation | crates/terl-docs/src/navigation.rs:35-107 | the build equals its specification and never answers with the unreachable-cycle error |
| NavigationMeaning.NavigationMeans | crates/terl-docs/src/navigation.rs:35-107 | a built navigation shows exactly the visible pages with their own contents, lists every page once, parents before children, and siblings exactly so: a weighted page before one without, the smaller weight first; without weights the title that is smaller at the first differing character or a proper prefix, and with equal titles the route likewise |
| NavigationMeaning.RefusalMeans | crates/terl-docs/src/navigation.rs:39-91 | why a build fails, one reason before the other: two pages of one route; else, for the first page by route that has a fault, that its chain of parents breaks or returns; else two siblings of one weight |
| Navigation.AnswerAccepts | crates/terl-docs/src/navigation.rs:35-107 | a navigation is built if and only if routes are distinct, parents form a forest and no siblings share a weight; it then lists every route exactly once |
| Navigation.CycleFails | crates/terl-docs/src/navigation.rs:307-323 | any parent cycle of any length makes the build fail |
| Navigation.OrderDoesNotMatter | crates/terl-docs/src/navigation.rs:35-107 | the answer, error included, is the same for every permutation of the input pages |
| Navigation.AncestorRoutes | crates/terl-docs/src/navigation.rs:296-305 | the loop returns exactly the proper ancestors, as many as the depth |
| Navigation.DepthCountsAncestors | crates/terl-docs/src/navigation.rs:354-368 | the depth stored in the built graph is the number of proper ancestors |
| SqlScanner.FindIdentifier | tree-sitter-terlan/src/scanner.c:69-79 | the binary search decides membership in any sorted, disjoint range table |
| SqlScanner.Lexer.Quoted | tree-sitter-terlan/src/scanner.c:83-98 | the quote loop ends exactly at the reference end of a doubled-quote or backslash-escaped string |
| SqlScanner.Lexer.Interpolation | tree-sitter-terlan/src/scanner.c:102-115 | the island loop ends exactly at the matching brace, past nested braces and strings |
| SqlScanner.Lexer.BlockComment | tree-sitter-terlan/src/scanner.c:118-132 | the comment loop ends exactly at the matching end of nested comments |
| SqlScanner.Lexer.ReadTag | tree-sitter-terlan/src/scanner.c:137-154 | the tag buffer holds exactly the characters read, across any number of doublings and with every write in bounds |
| SqlScanner.Lexer.MatchTag | tree-sitter-terlan/src/scanner.c:155-164 | the one-character fallback matcher stops exactly where a naive search for the delimiter stops |
| SqlScanner.MismatchRestarts | tree-sitter-terlan/src/scanner.c:159-161 | after a mismatch, keeping one matched dollar sign or nothing loses no occurrence, for delimiters of every length |
| SqlScanner.SearchFinds | tree-sitter-terlan/src/scanner.c:155-164 | the search stops at the first occurrence of the delimiter and fails if and only if there is none |
| SqlScanner.Lexer.DollarRegion | tree-sitter-terlan/src/scanner.c:136-165 | a dollar region ends at its closing delimiter, or after a partial tag |
| SqlScanner.Lexer.ScanBlock | tree-sitter-terlan/src/scanner.c:187-238 | the SQL branch accepts exactly the reference block and marks its end; which blocks those are is `SqlGrammar.AcceptsExactly` |
| SqlScanner.Lexer.InterpolationString | tree-sitter-terlan/src/scanner.c:14-30 | the string loop with nested islands ends at the reference end and raises the flag exactly there |
| SqlScanner.Lexer.StringIsland | tree-sitter-terlan/src/scanner.c:31-62 | the mutually recursive island loop ends at its matching brace within the nesting limit |
| SqlScanner.Lexer.Scan | tree-sitter-terlan/src/scanner.c:176-238 | the entry point: blanks skipped, the wanted symbol chosen, its end marked, and no symbol otherwise |
| StringGrammar.WordsRead | tree-sitter-terlan/src/scanner.c:14-30 | a printed string is passed over to its closing quote at any nesting and flags exactly its holes that hold a quote |
| StringGrammar.CodeReads | tree-sitter-terlan/src/scanner.c:31-62 | printed island code is passed over to its closing brace, within any number of open braces |
| StringGrammar.StringAcceptsExactly | tree-sitter-terlan/src/scanner.c:14-62 | the scanner accepts an interpolated string if and only if it is a printed well-formed one within the nesting limit, stops right behind it, and flags exactly those in which an island holds a quote |
| SqlGrammar.PrintedScans | tree-sitter-terlan/src/scanner.c:187-238 | printing any well-formed payload tree in braces before any suffix scans as exactly that block |
| SqlGrammar.PayloadReads | tree-sitter-terlan/src/scanner.c:192-236 | reading a printed payload leaves the brace depth as it was, at every depth and in every context |
| SqlGrammar.PayloadFound | tree-sitter-terlan/src/scanner.c:192-236 | whatever the scan accepts up to a closing brace is the print of some well-formed payload |
| SqlGrammar.AcceptsExactly | tree-sitter-terlan/src/scanner.c:187-238 | the scanner accepts a block if and only if it is a printed well-formed payload, and stops right behind it; the alphabets of tags, and of what may stand before an opening dollar sign, are written out as ranges of characters |
| CaptureProtocol.ReaderSound | crates/terlan-process-owner/src/command.rs:394-446 | every reader step keeps the invariant: bytes conserved in order, limit, queue bound, result last and once |
| CaptureProtocol.OwnerSound | crates/terlan-process-owner/src/command.rs:259-300 | every owner step, and dropping the reader, keeps the same invariant |
| CaptureProtocol.RunSound | crates/terlan-process-owner/src/command.rs:235-301 | the invariant holds after every interleaving of both threads with any pipe, clock, observer and child |
| CaptureProtocol.ReachableSound | crates/terlan-process-owner/src/command.rs:303-311 | whatever timeout and limit a start accepts, every state any interleaving leads to from there satisfies the invariant |
| CaptureProtocol.PrefixAtAllTimes | crates/terlan-process-owner/src/command.rs:235-301 | at every reachable moment captured, withheld, queued, unsent and dropped bytes together are exactly the bytes read, within the limit and in at most 64 queued events |
| CaptureProtocol.CaptureIsExact | crates/terlan-process-owner/src/command.rs:116-130 | a successful capture returns the whole stream up to its end, equal to the concatenated observations and within the limit; what its exit says is `CaptureOutcomes.ExitReported` |
| CaptureProtocol.LimitFailureMeansOverlong | crates/terlan-process-owner/src/command.rs:409-414 | a limit failure only ever means that more than the limit was read, and then no capture succeeds |
| CaptureOutcomes.ExitReported | crates/terlan-process-owner/src/command.rs:259-300 | over the moves of any run that returns a capture: the child was polled as exited, and the capture calls it fine if and only if the first such poll said success |
| CaptureOutcomes.FailureMeans | crates/terlan-process-owner/src/command.rs:259-300 | no capture fails without its reason: every fault was caused by a move that is what the fault stands for, in a state in which it counts |
| CaptureOutcomes.ParametersDecide | crates/terlan-process-owner/src/command.rs:235-301 | what the arguments of a capture decide, over any run: no more bytes than the limit, a limit failure only above it, a failed child returned only where its output is retained and refused only where it is not, and a reader that has ended where it is joined |
| CaptureOutcomes.DropWaitsExactly | crates/terlan-process-owner/src/command.rs:383-392 | an owner that leaves goes without the reader if and only if it does not join it or the reader has ended |
| CaptureOutcomes.TurnsCount | crates/terlan-process-owner/src/command.rs:261-280 | however the threads interleave, a drain takes one event a turn and at most 64 |
| CaptureOutcomes.DrainEnds | crates/terlan-process-owner/src/command.rs:261-280 | a drain gives way to the wait if and only if 64 events were taken, the stream has ended, or the queue is empty |
| CaptureProtocol.ReaderNeverVanishes | crates/terlan-process-owner/src/command.rs:371-380 | the owner never reports a reader that ended without a result, as long as the thread does not panic |
| CaptureProtocol.StoppedReaderHalts | crates/terlan-process-owner/src/command.rs:383-392 | once stopped, the reader ends within three of its own steps, whatever the owner and the pipe do |
| CaptureProtocol.ExpiredOwnerLeaves | crates/terlan-process-owner/src/command.rs:259-300 | once cancelled or past its deadline, the owner leaves within five of its own steps |
| CaptureProtocol.RefusedCaptureEnds | crates/terlan-process-owner/src/command.rs:259-300 | from every reachable state whose checks refuse from now on, ten rounds in which both threads move end the capture: the join of the reader cannot hang |
| CaptureProgress.WorkDrops | crates/terlan-process-owner/src/command.rs:235-301 | while nothing disturbs a capture, no move of either thread leads away from its end, and every move of the thread it waits for leads nearer |
| CaptureProgress.UndisturbedCaptureSucceeds | crates/terlan-process-owner/src/command.rs:235-301 | from every reachable state in which nothing has gone wrong, if the stream ends within the limit, the child has exited acceptably, the observer agrees and every check passes, boundedly many rounds in which both threads move end the capture with success, the whole stream and the exit the first poll found |
| CaptureProgress.UndisturbedStartSucceeds | crates/terlan-process-owner/src/command.rs:303-311 | in particular from the start, for every accepted timeout and limit |
| Checkpoints.PreimageInjective | crates/terlan-storage/src/snapshot.rs:50-60 | the bytes fed to the digest determine the checkpoint, for all lengths a 64-bit machine can hold |
| Checkpoints.PreimageLayout | crates/terlan-storage/src/snapshot.rs:50-60 | where every field stands in the bytes fed to the digest, told by offsets, with numbers most significant byte first |
| Checkpoints.Digest | crates/terlan-storage/src/snapshot.rs:50-60 | the field-by-field feeding hashes exactly the preimage |
| Checkpoints.DigestChecksum | crates/terlan-storage/src/snapshot.rs:63-65 | the diagnostic checksum is the number written by the first four digest bytes |
| Transactions.ValidateBatch | crates/terlan-storage/src/transaction.rs:8-37 | the loop accepts exactly nonempty bounded batches with valid, strictly increasing checkpoints of distinct identities and bounded total size |
| Transactions.ValidateAppend | crates/terlan-storage/src/transaction.rs:39-75 | the two loops decide replay, conflict, stale and schema mismatch in exactly this priority |
| StoreLaws.CommitMeans | crates/terlan-storage/src/transaction.rs:39-75 | an append commits if and only if the batch is good, the store is at the expected sequence, every identity is new, every schema is the current one and the quota has room |
| StoreLaws.AppendAnswers | crates/terlan-storage/src/transaction.rs:8-75 | every answer of an append, with its numbers, told by the store: exactly when a batch is invalid, replayed, in conflict and where, stale and at which sequences, of the wrong schema and which, over the quota, or committed |
| StoreLaws.FirstFits | crates/terlan-storage/src/local.rs:58-98 | what a quota counts: a checkpoint fits an empty store if and only if its identity and payload together do and one checkpoint is allowed |
| StoreLaws.StepWellFormed | crates/terlan-storage/src/local.rs:58-137 | every operation keeps keys matching ids, distinct sequences at most the high-water mark and the schema boundary; sequence and schema never decrease |
| StoreLaws.StepWithinLimits | crates/terlan-storage/src/local.rs:58-137 | every operation keeps both quotas |
| StoreLaws.CompactMeans | crates/terlan-storage/src/local.rs:117-137 | the subtraction in compaction counts exactly the removed checkpoints and never underflows |
| StoreLaws.CompactionCounts | crates/terlan-storage/src/local.rs:117-137 | a compaction reports how many checkpoints stood below its boundary, how many did not, and the sequence, and refuses exactly a boundary no sequence can have |
| StoreLaws.ReachableIsWellFormed | crates/terlan-storage/src/local.rs:14-137 | all of this holds in every store reachable from the empty one |
| StoreLaws.StepRetains | crates/terlan-storage/src/local.rs:58-137 | a retained checkpoint survives every operation except a compaction whose boundary lies above it |
| StoreLaws.RunRetainsExactly | crates/terlan-storage/src/local.rs:117-137 | over every run a retained checkpoint is still retained if and only if no compaction reached it: what is gone stays gone |
| StoreLaws.RetryNeverCommits | crates/terlan-storage/src/transaction.rs:39-75 | after any run following its commit, retrying a batch never commits: it replays, conflicts or is stale and changes nothing; it replays if and only if no compaction reached into it |
| StoreLaws.MigrationSeparates | crates/terlan-storage/src/transaction.rs:77-98 | a successful migration divides the log for good: after any further run, what is retained up to its sequence was there before with its old tag, what is behind it carries the new schema or a later one, no batch holding an older schema commits, and the same migration fails |
| StoreLaws.LogIncreases | crates/terlan-storage/src/transaction.rs:8-75 | over every run each sequence number is committed at most once: the log of commits strictly increases |
| StoreLaws.BoundedAgrees | crates/terlan-storage/src/database.rs:101-186 | over every run, the bounded and the unbounded store give the same answers if and only if the quota never refuses an append, and then they hold the same state |
| LocalStore.LocalCheckpointStore.New | crates/terlan-storage/src/local.rs:24-46 | refuses exactly limits outside the supported range and otherwise starts empty |
| LocalStore.LocalCheckpointStore.Append | crates/terlan-storage/src/local.rs:58-98 | exactly the abstract append under the quota, with the byte counter still the sum of retained sizes |
| LocalStore.LocalCheckpointStore.Load | crates/terlan-storage/src/local.rs:100-104 | returns the retained checkpoint of an identity, and nothing exactly if none is retained |
| LocalStore.LocalCheckpointStore.MigrateSchema | crates/terlan-storage/src/local.rs:106-115 | exactly the abstract migration |
| LocalStore.LocalCheckpointStore.RetainFrom | crates/terlan-storage/src/local.rs:117-137 | the in-place retain keeps exactly what is at or above the boundary and gives every removed byte back |
| LocalStore.LocalCheckpointStore.Compact | crates/terlan-storage/src/local.rs:117-137 | exactly the abstract compaction |
| DatabaseStore.TamperingDetected | crates/terlan-storage/src/database.rs:214-250 | a row carrying the digest of a checkpoint loads as exactly that checkpoint under its own identity or not at all, wherever the hash separates preimages |
| DatabaseStore.LoadsExactly | crates/terlan-storage/src/database.rs:214-250 | a row loads as a checkpoint if and only if it says that checkpoint without loss, the checkpoint is valid and the whole digest is its own |
| DatabaseStore.LoadRefuses | crates/terlan-storage/src/database.rs:214-250 | every other row is refused: unread if its payload is overlong, as corrupt if it holds no checkpoint or no digest, and otherwise with both checksums |
| DatabaseStore.StatusExactly | crates/terlan-storage/src/database.rs:188-212 | metadata is a status if and only if every number is in range and the schema boundary does not lie ahead |
| DatabaseStore.SameDecision | crates/terlan-storage/src/database.rs:128-159 | looking identities up in rows decides every append as the volatile map does |
| DatabaseStore.CheckpointStore.Load | crates/terlan-storage/src/database.rs:161-164 | a reachable store returns exactly what is retained and never an error |
| DatabaseStore.CheckpointStore.InsertBatch | crates/terlan-storage/src/database.rs:128-159 | no table constraint ever fires for a validated batch, and the rows become those of the extended store |
| DatabaseStore.CheckpointStore.Append | crates/terlan-storage/src/database.rs:128-159 | exactly the abstract append without a quota, rows and metadata together |
| DatabaseStore.CheckpointStore.MigrateSchema | crates/terlan-storage/src/database.rs:101-126 | exactly the abstract migration |
| DatabaseStore.CheckpointStore.Compact | crates/terlan-storage/src/database.rs:166-186 | exactly the abstract compaction |
| IncrementalCache.NewestConfigurations | crates/terlan-build-cache/src/incremental.rs:232-255 | the map of latest timestamps is, for every target, the latest completed session over all configurations |
| IncrementalCache.LatestMeans | crates/terlan-build-cache/src/incremental.rs:232-255 | that timestamp belongs to some completed session of the target and none is later |
| IncrementalCache.ChosenMeans | crates/terlan-build-cache/src/incremental.rs:292-337 | candidates are leased and retirable, no two share a lock, and every leased retirable session is a candidate or shares its lock with one |
| IncrementalCache.Inventory.InspectCrate | crates/terlan-build-cache/src/incremental.rs:257-340 | the loop counts every session once, measures exactly the leased ones, lists exactly the candidates, and fails exactly on a taken retirement name |
| IncrementalCache.TallyMeans | crates/terlan-build-cache/src/incremental.rs:198-230 | over the whole cache, sessions are candidates plus protected ones |
| IncrementalCache.Inspect | crates/terlan-build-cache/src/incremental.rs:198-230 | an inspection fails if and only if some candidate retirement name is taken, and otherwise reports exactly the tally |
| IncrementalCache.VerdictSurvives | crates/terlan-build-cache/src/incremental.rs:304-320 | removing retirable sessions changes no other verdict, even when the newest session of a crate goes |
| IncrementalCache.LatestUnchanged | crates/terlan-build-cache/src/incremental.rs:95-185 | retiring any part of the candidates leaves the latest completed timestamp of every target unchanged |
| IncrementalCache.DoomedFor | crates/terlan-build-cache/src/incremental.rs:304-320 | a pruned session was leased, past the grace period, and abandoned, outlived in its crate, or superseded by a later completed session of another configuration |
| CacheMeaning.WantedExactly | crates/terlan-build-cache/src/incremental.rs:304-320 | an inspection wants exactly the disposable sessions, told without its own bookkeeping: past grace and abandoned, outlived in the crate, or behind a later completed session of the target by the age of configurations |
| CacheMeaning.DoomedExactly | crates/terlan-build-cache/src/incremental.rs:292-337 | a prune removes exactly the disposable sessions whose lease is granted, one for each lock file, the first in the directory |
| CacheMeaning.CountExactly | crates/terlan-build-cache/src/incremental.rs:127-149 | what the three reported kinds count: sessions being written, completed ones of superseded configurations, and all other completed ones |
| CacheMeaning.StampExactly | crates/terlan-build-cache/src/layout.rs:27-45 | a session began at the number its stamp writes in base 36: ten figures, then the alphabet, leading zeros allowed |
| InventoryMeaning.InspectedExactly | crates/terlan-build-cache/src/incremental.rs:198-340 | what an inspection counts, over every session one by one: each once, as one a prune removes or as protected; as unmeasured those whose lease it does not get; and the inodes of interrupted retirements and of leased sessions, no others |
| IncrementalCache.PruneIsIdempotent | crates/terlan-build-cache/src/incremental.rs:95-185 | with clock and locks fixed, a second inspection finds no candidate if and only if no two retirable leased sessions of a crate share a lock file |
| IncrementalCache.SharedLockTakesTwoPrunes | crates/terlan-build-cache/src/incremental.rs:292-303 | the exception is real: a completed session and the working directory it was renamed from stand behind one lock and need two prunes |
| IncrementalCache.SharedLockMeans | crates/terlan-build-cache/src/layout.rs:27-45 | sessions share a lock file if and only if stamp and random part are equal; of two differently named ones at most one is a working directory, and both have one time |
| IncrementalCache.DoomSurvives | crates/terlan-build-cache/src/incremental.rs:95-185 | after any part of a prune exactly the other candidates remain candidates, where locks are not shared |
| IncrementalCache.CrashRecovers | crates/terlan-build-cache/src/incremental.rs:162-178 | wherever a prune died, also between a rename and its unlinks, the next one is not refused and reaches the cache the first would have reached, where locks are not shared |
| IncrementalCache.KindsPartition | crates/terlan-build-cache/src/incremental.rs:127-149 | redundant, abandoned and superseded counts add up to the candidates |
| IncrementalCache.Cache.Maintain | crates/terlan-build-cache/src/incremental.rs:95-196 | an audit or a refused prune changes nothing; a prune removes exactly the doomed sessions and every interrupted retirement, only through states from which a later prune recovers; the report counts them and its verdict is exactly that everything was measured within both budgets |
| SupportCache.ComputeTotals | crates/terlan-build-cache/src/support_cache.rs:159-177 | the loop sums entries and deduplicated bytes of what is not retired and fails exactly on overflow, entries first |
| SupportCache.TotalsFall | crates/terlan-build-cache/src/support_cache.rs:159-177 | retiring more never raises a total, given one size per inode |
| SupportCache.Plan | crates/terlan-build-cache/src/support_cache.rs:179-210 | the sort and the greedy loop compute exactly the plan over the oldest-first order |
| SupportCache.PlanSpares | crates/terlan-build-cache/src/support_cache.rs:185-192 | the current generation and those in the grace period are never planned |
| SupportCache.PlanTakesExpired | crates/terlan-build-cache/src/support_cache.rs:198-207 | every legacy or expired candidate is planned |
| SupportCache.PlanSettles | crates/terlan-build-cache/src/support_cache.rs:179-210 | the plan ends within all three budgets or with every candidate retired |
| SupportCache.PlanIsPrefix | crates/terlan-build-cache/src/support_cache.rs:193-209 | retirements that are not legacy go oldest first without gaps |
| SupportCache.PlanIsFrugal | crates/terlan-build-cache/src/support_cache.rs:198-207 | a candidate that is neither legacy nor expired is retired only while some budget is exceeded after older retirements |
| SupportCache.PlanFailsExactly | crates/terlan-build-cache/src/support_cache.rs:195-196 | planning fails if and only if there is a candidate and the untouched inventory already overflows |
| SupportMeaning.PlanExactly | crates/terlan-build-cache/src/support_cache.rs:179-210 | generation by generation: one is retired if and only if it is neither current nor in grace, and is legacy or expired or what remains without the older retired ones exceeds a budget of entries, bytes or generations, written out |
| SupportMeaning.FailsExactly | crates/terlan-build-cache/src/support_cache.rs:159-196 | planning fails if and only if something is considered and everything together overflows 64 bits, entries reported before bytes |
| SupportMeaning.LiveExactly | crates/terlan-build-cache/src/support_cache.rs:101-111 | recovery drops exactly the residues, keeps the rest as often, and names what it dropped |
| SupportMeaning.KeptExactly | crates/terlan-build-cache/src/support_cache.rs:159-177 | what remains of a list is what is not retired, as often as before |
| SupportMeaning.EntriesAdd | crates/terlan-build-cache/src/support_cache.rs:159-177 | entries add up: those of one generation are its own, those of a list the sum over its parts |
| SupportCache.RetirementSettles | crates/terlan-build-cache/src/support_cache.rs:102-146 | after the planned retirements every budget holds or only protected generations remain |
| SupportCache.PlanIsIdempotent | crates/terlan-build-cache/src/support_cache.rs:102-146 | planning again after the planned retirements retires nothing |
| SupportCache.Cache.Maintain | crates/terlan-build-cache/src/support_cache.rs:76-157 | recovers first, plans on what is live, retires exactly the plan, and reports the totals and verdict of what remains |
| ArtifactStream.FeedConcat | crates/terlan-test-orchestrator/src/cargo_artifact_stream.rs:99-144 | reading byte by byte does not depend on where the bytes are cut |
| ArtifactStream.ChunkReads | crates/terlan-test-orchestrator/src/cargo_artifact_stream.rs:115-144 | the fragment loop succeeds exactly when byte-by-byte reading does and leaves the same state, up to the bytes of an overlong record |
| ArtifactStream.CutAnywhere | crates/terlan-test-orchestrator/src/cargo_artifact_stream.rs:99-144 | one chunk or two: same success, same stream on success, same harnesses and finished flag on failure unless the stream budget broke |
| ArtifactCuts.ChunkCut | crates/terlan-test-orchestrator/src/cargo_artifact_stream.rs:115-144 | within the stream budget, one chunk or two leave the same core, failures included, exactly unless the cut goes through a record that the second part makes overlong |
| ArtifactCuts.PendingAgreesExactly | crates/terlan-test-orchestrator/src/cargo_artifact_stream.rs:121-141 | for every stream and cut, the pending bytes agree if and only if the cut goes through no record made overlong behind it; over the stream budget, if and only if the first part is over it too or changes nothing pending |
| ArtifactCuts.PendingShowsTheCut | crates/terlan-test-orchestrator/src/cargo_artifact_stream.rs:134-137 | the exception is real: one record a byte too long leaves different bytes pending whole and in two parts |
| ArtifactCuts.HarnessesAgreeExactly | crates/terlan-test-orchestrator/src/cargo_artifact_stream.rs:121-124 | harnesses after one or two chunks agree if and only if the whole fits the stream budget, the first part does not, or no record completed in the first part is an admitted selected artifact |
| ArtifactCuts.FlagAgreesExactly | crates/terlan-test-orchestrator/src/cargo_artifact_stream.rs:121-124 | the same for the finished flag: no record completed in the first part reports the build finished |
| ArtifactCuts.HarnessesShowTheCut | crates/terlan-test-orchestrator/src/cargo_artifact_stream.rs:121-124 | the exception is real, for every environment and line: an admitted artifact line and then more than the stream may hold leave different harnesses whole and cut behind the line |
| ArtifactCuts.FlagShowsTheCut | crates/terlan-test-orchestrator/src/cargo_artifact_stream.rs:121-124 | likewise for every line that reports the build finished and the finished flag |
| ArtifactStream.AnyChunks | crates/terlan-test-orchestrator/src/cargo_artifact_stream.rs:97-113 | any sequence of chunks is one observation of their concatenation |
| ArtifactStream.FailedForGood | crates/terlan-test-orchestrator/src/cargo_artifact_stream.rs:105-112 | once failed, no later bytes change the stream and it can never be finished |
| ArtifactStream.FramedPrints | crates/terlan-test-orchestrator/src/cargo_artifact_stream.rs:126-141 | framing loses nothing: records hold no newline and print back to the stream |
| ArtifactStream.PrintedFrames | crates/terlan-test-orchestrator/src/cargo_artifact_stream.rs:126-141 | printing records and framing them gives the records back |
| ArtifactStream.FeedMeans | crates/terlan-test-orchestrator/src/cargo_artifact_stream.rs:115-208 | reading bytes is admitting their records, each within the record limit, with the rest pending |
| ArtifactStream.FinishedMeans | crates/terlan-test-orchestrator/src/cargo_artifact_stream.rs:152-162 | the finished flag is up exactly after one successful build-finished record, the last one |
| ArtifactStream.FinishExactly | crates/terlan-test-orchestrator/src/cargo_artifact_stream.rs:211-218 | however the bytes arrived, finish succeeds if and only if they are newline-terminated accepted records ending in the only build-finished, a successful one |
| ArtifactStream.AllUnique | crates/terlan-test-orchestrator/src/cargo_artifact_stream.rs:181-204 | an accepted stream has at most 1024 harnesses with pairwise distinct targets and executables, each admitted from its own selected test artifact |
| ArtifactMeaning.RecordsAcceptedExactly | crates/terlan-test-orchestrator/src/cargo_artifact_stream.rs:146-208 | records are accepted if and only if each is understood, a report of the finished build is a success and the last, and the selected artifacts are at most 1024 test targets, each admitted, fresh where it must be, found and taken, no two of one target or executable; chatter and other artifacts are accepted and change nothing |
| ArtifactMeaning.FinishMeans | crates/terlan-test-orchestrator/src/cargo_artifact_stream.rs:64-218 | a whole stream of records, told by them alone: finish succeeds if and only if they are at most 16 MiB together and one MiB each, acceptable and end in a finished build, and it returns one harness for each selected artifact, in their order |
| ArtifactStream.CargoArtifactStream.Observe | crates/terlan-test-orchestrator/src/cargo_artifact_stream.rs:99-144 | poisoned while working and for good after any refusal; otherwise exactly the specified state |
| ArtifactStream.CargoArtifactStream.Capture | crates/terlan-test-orchestrator/src/cargo_artifact_stream.rs:64-95 | only an untouched stream captures, once; success exactly if all chunks are accepted and the process succeeds |
| DoctestReports.AcceptedExactly | crates/terlan-test-orchestrator/src/doctest_output.rs:30-104 | a text is accepted with given outcomes if and only if its lines are blocks that explain them, parallel output included: the recorded names are exactly those of the terminal lines, interrupted names joined; they are distinct and as many as declared; every slow-test warning names a test that ends behind it and is not warned about again before; nothing is left waiting; the summary counts the records; both budgets hold |
| DoctestReports.FollowsStep | crates/terlan-test-orchestrator/src/doctest_output.rs:106-155 | the running state of a harness always says exactly what its lines say: recorded results, outstanding warnings and the waiting name |
| DoctestReports.RoomForWarning | crates/terlan-test-orchestrator/src/doctest_output.rs:132-155 | in a report whose warnings are all settled the bound on open warnings is never met |
| DoctestReports.BlockScans | crates/terlan-test-orchestrator/src/doctest_output.rs:39-83 | every block that explains an outcome is accepted within the budgets and adds exactly that outcome |
| DoctestMeaning.BareNameExactly | crates/terlan-test-orchestrator/src/doctest_output.rs:201-206 | a name without its execution mode is what stands before ` - compile fail`, ` - compile` or ` - should panic`, or the whole name where it ends in none of them |
| DoctestMeaning.TerminalExactly | crates/terlan-test-orchestrator/src/doctest_output.rs:108-118 | a terminal record is a name, three dots and `ok` or `ignored`, and holds no slow-test warning |
| DoctestMeaning.WarningExactly | crates/terlan-test-orchestrator/src/doctest_output.rs:108-146 | which test a slow-test warning names, and behind which waiting name it stands, told by where its words stand |
| DoctestMeaning.GoodNameExactly | crates/terlan-test-orchestrator/src/doctest_output.rs:119-122 | a good name is not empty and holds no code point below 32 or from 127 to 159 |
| DoctestMeaning.SecondsExactly | crates/terlan-test-orchestrator/src/doctest_output.rs:134-138 | a warning is readable if and only if its seconds are a numeral of a positive 64-bit number |
| DoctestMeaning.DeclarationExactly | crates/terlan-test-orchestrator/src/doctest_output.rs:43-54 | a start line declares a count if and only if it is a numeral of it and the noun in the right number |
| DoctestMeaning.SummaryExactly | crates/terlan-test-orchestrator/src/doctest_output.rs:158-198 | a summary fits if and only if it says, in six fields in order, these two counts, nothing failed, measured or filtered out, and a duration |
| DoctestMeaning.TimesExactly | crates/terlan-test-orchestrator/src/doctest_output.rs:69-76 | the timing line of merged runs is two durations around its fixed words |
| TextMeaning.LinesExactly | crates/terlan-test-orchestrator/src/doctest_output.rs:39 | the lines of a text are what stands before its newlines, in order, one carriage return dropped, empty ones left out |
| TextMeaning.ParseNatExactly | crates/terlan-test-orchestrator/src/doctest_output.rs:49-172 | a number is read if and only if it is in range and written as a numeral: a plus sign if any, zeros, and its decimal digits |
| TextMeaning.SplitOnceExactly | crates/terlan-test-orchestrator/src/doctest_output.rs:46-73 | splitting is at the first place where the separator stands |
| TextMeaning.RSplitOnceExactly | crates/terlan-test-orchestrator/src/doctest_output.rs:109-114 | splitting from the right is at the last place where it stands |
| DoctestOutput.AcceptedMeans | crates/terlan-test-orchestrator/src/doctest_output.rs:39-62 | the harnesses of an accepted report are the start lines anywhere in its text, in order, each with as many records as that line declares |
| DoctestOutput.Inspect | crates/terlan-test-orchestrator/src/doctest_output.rs:30-104 | the whole inspection equals its specification |
| DoctestPrinting.TerminalRecord | crates/terlan-test-orchestrator/src/doctest_output.rs:108-129 | a printed result line is accepted if and only if its name is new, within the declared count and cannot be mistaken for a warning |
| DoctestPrinting.WarningRecord | crates/terlan-test-orchestrator/src/doctest_output.rs:132-155 | a printed serial warning reads back as itself exactly for positive seconds and an unambiguous name |
| DoctestPrinting.TestScans | crates/terlan-test-orchestrator/src/doctest_output.rs:108-155 | the one or two lines of a test are accepted if and only if the test is good and new, and record exactly it |
| DoctestPrinting.SummaryParses | crates/terlan-test-orchestrator/src/doctest_output.rs:158-198 | a printed summary is accepted if and only if it counts the records of its harness |
| DoctestPrinting.RunScans | crates/terlan-test-orchestrator/src/doctest_output.rs:39-83 | a printed run is accepted with its exact counts if and only if it fits both budgets and its tests are good |
| DoctestPrinting.PrintedIsAcceptedExactly | crates/terlan-test-orchestrator/src/doctest_output.rs:30-104 | printing any passing runs in the serial format and inspecting the text gives back their exact counts and records, or a refusal, exactly by a condition on the names and the budgets |
| DoctestPrinting.SummaryLikeNameIsRefused | crates/terlan-test-orchestrator/src/doctest_output.rs:62-71 | the exception is real: a report with one passing test is refused when its name begins like a summary line |
| RecordFields.Select | crates/terlan-runtime-abi/src/record_fields.rs:20-30 | the swapping loop succeeds if and only if the requested names are distinct and a permutation of the labels; it never loses a field, and on success slot by slot the labels are the requested names |
| RecordFields.IntoRecordFields | crates/terlan-runtime-abi/src/record_fields.rs:8-32 | the projection succeeds exactly on the right record with each field requested once, and returns a permutation of the values paired with their requested names |
| RecordFields.AcceptsExactly | crates/terlan-runtime-abi/src/record_fields.rs:8-32 | a shape is accepted if and only if it is a record of this name with as many fields as names, no name is requested twice, and every name has a field |
| RecordFields.FieldOrderDoesNotMatter | crates/terlan-runtime-abi/src/record_fields.rs:8-32 | the order of the incoming fields changes neither acceptance nor the projected values |
| RecordFields.ConstructionProjects | crates/terlan-runtime-abi/src/record_fields.rs:34-54 | building a record from distinctly named values and projecting it gives exactly the values back |

## Left out

- CargoToolSettings.ToolSettings.Merge: says nothing about the half-merged tree a failed merge leaves, because every caller discards it.
- CargoConfiguration.Expand: does not say which of several failures is reported first, nor the cancellation and deadline checks between files; the constants for paths and bytes stand for those of the tool-configuration module, which is not part of this model.
- Resolving tool programs and subprocess settings from merged settings (`programs`, `subprocess_from_command`, `observe_rustdoc`): lookups in a finished tree.
- Navigation.BuildNavigation: pages are given with parsed front matter; headings, table of contents, rendering and JSON output are not modelled.
- SqlScanner.Lexer.Scan: does not model allocation failure, the size overflow check of the tag buffer, or a lookahead that is not a character.
- SqlScanner.Lexer.ReadTag: does not model a failed allocation or the guard on the capacity, which end the scan without a symbol.
- CaptureProtocol.RunSound: launching, waiting and killing the child, sleeping and thread panics are not modelled; each poll of the child is an arbitrary answer.
- Checkpoints.Digest: the hash is an arbitrary function; only its input is reasoned about.
- DatabaseStore.CheckpointStore.Append: opening, schema creation, identity, flushing and busy or I/O errors of the database are not modelled; a transaction either commits whole or not at all.
- IncrementalCache.Inspect: names are given in their parts; names that do not split into parts, lock files that are not empty and invalid payload headers, on which the inspection fails, are not modelled.
- IncrementalCache.Cache.Maintain: the failures named for the inspection, validation of payload files, the maintenance lease, the order of unlinks inside one retirement and the candidate paths of the report are not modelled; a prune that an I/O error ends leaves a state that `CrashRecovers` covers; byte sums are unbounded numbers.
- SupportCache.Cache.Maintain: waiting for the lease, scan bounds, validation of the layout, an occupied retirement name and a current generation that changes under the lease are not modelled; keys of live generations are distinct because they are directory names.
- SupportCache.TotalsFall: holds for one size per inode, which an inventory taken under the lease has; the results built on it say so.
- ArtifactStream.CargoArtifactStream.Observe: the deadline check between fragments is not modelled; a rejected record is final in any case.
- DoctestOutput.Inspect: works on decoded text; UTF-8 decoding, the identity hashes, the sums over harnesses and the JSON evidence are not modelled.
- DoctestPrinting.PrintedIsAcceptedExactly: names contain no line feed, since a name with one is not a line of the format; the shape of parallel output is characterised by `DoctestReports.AcceptedExactly` and not by a printer.
- Error texts: only the kind of an error is kept.
- The generated standard-library workers, archive, telemetry, lifecycle and metric code, language server and site: identical skeletons, plumbing or single checks.
