# dna-graph decision engine, modelled in Dafny

`tools/dna-graph.py` manages a graph of decision records. Each record is a markdown file with a
YAML frontmatter block: an `id` (`DEC-NNN`), a title, a level from 1 (Identity) to 4
(Tactics), a state (suggested, committed or superseded), optional stakes and a `depends_on`
list. Each record comes from one of two scopes, constitution or project. This project models
the engine of that script, with printing, argument parsing and file access removed:

- the frontmatter reader and writer;
- loading the two scopes into one graph;
- the state-transition rule;
- the checks made before `create` and `set`;
- the whole-graph `validate` pass, with its coloured depth-first cycle search;
- the forward and reverse cascades;
- the transitive-downstream search and the critical-path search;
- the frontier partition and the level gaps;
- the `edit` and `set` rewrites;
- the two manifest groupings;
- the scratchpad commands.

A record is a `Node`: the parsed frontmatter as a map from key to `Value`, its scope and its
body. A graph is a `map<string, Node>`. Where the script depends on dict iteration order (the
roots of the cycle search, the order of `get_dependents`), the model adds that order as an
explicit `order` argument. `IsOrder(g, order)` states that it lists every key of `g` exactly
once. `sorted(...)` over identifiers is the ghost `SortSet`, computed by `SortedElements`.
Errors and warnings are datatypes with one constructor per message of the script, and the
contracts say which messages are produced, in both directions.

The files follow the script's structure, one Dafny module per file:

- `util` is string and sequence helpers.
- `reach` is paths, cycles and reachability.
- `frontmatter` is the YAML subset and the serialiser.
- `model` is records, dependency lists and the edge relations.
- `transitions`, `loader`, `prevalidate`, `validate` and `graphcheck` cover the rules, the loader and the validators.
- `traversal` and `frontier` cover the cascade, downstream, frontier and critical-path searches.
- `mutations` covers `edit` and `set`.
- `manifest` and `scratchpad` cover the manifest and scratchpad commands.

Where the script's own documentation and its code disagree, the model follows the code. The docstring of
`_critical_path` promises the longest chain of uncommitted upstream. The code computes a breadth-first tree
and walks back from the first node of greatest BFS depth. The model states what the code delivers: a chain
of distinct blocking dependencies ending at the target.

## Model

| member | source | states |
|---|---|---|
| Frontmatter.Coerce | tools/dna-graph.py:208-229 | `_coerce` never yields a list; the empty scalar is null; text comes back whole or with its outer quotes removed; an integer result is what the stripped scalar parses to |
| Frontmatter.CoerceQuoted | tools/dna-graph.py:212-214 | a scalar written between double quotes reads back as exactly the text between them |
| Frontmatter.CoerceInt | tools/dna-graph.py:221-224 | an integer's numeral reads back as that integer |
| Frontmatter.CoerceBool | tools/dna-graph.py:215-218 | `True` and `False`, as `str()` writes them, read back as the booleans |
| Util.ParseIntUnderscore | tools/dna-graph.py:221-224 | `int()` reads a numeral with an underscore between two digits as the digits alone: `1_0` is ten |
| Frontmatter.KeyValue | tools/dna-graph.py:180-186 | a line that matches `^(\w[\w_]*)\s*:` yields a non-empty key of word characters that starts the line |
| Frontmatter.LineStep | tools/dna-graph.py:175-203 | one turn of the loop moves forward and stays within the lines; an entry it records is keyed by the line's key |
| Frontmatter.ParseFromKeeps | tools/dna-graph.py:172-205 | a key once read is never dropped by later lines |
| Frontmatter.ParseFromKeys | tools/dna-graph.py:172-205 | every key of the result was given before or is the key of one of the lines read |
| Frontmatter.ParseYamlBlock | tools/dna-graph.py:169-205 | the index-driven loop computes the line-by-line reading `ParseYaml` |
| Frontmatter.ParseLine | tools/dna-graph.py:175-203 | one turn of the loop, including the item lines of a list, agrees with `LineStep` |
| Frontmatter.ReadItems | tools/dna-graph.py:189-197 | the inner loop reads exactly the run of `-` lines and coerces each item |
| Frontmatter.ParseFrontmatter | tools/dna-graph.py:151-166 | frontmatter is found exactly when the text starts with `---` and a `\n---` occurs from index 3 on; then the body is the text after the first such `\n---`, and otherwise the whole text is the body |
| Frontmatter.FenceFound | tools/dna-graph.py:151-166 | in a file laid out as fence, header lines, fence and body, the header lines are the YAML block and the rest is the body |
| Frontmatter.EscapeQuotes | tools/dna-graph.py:248-251 | escaping never shortens a title and leaves one without `"` unchanged |
| Frontmatter.NeedsQuoting | tools/dna-graph.py:236-253 | a title holding a quote, a colon or `#` is always quoted, and a title left unquoted needs no escaping |
| Frontmatter.Repr | tools/dna-graph.py:246-260 | `repr` of a text inside a list: double quotes exactly when the text holds a single quote and no double quote, single quotes otherwise |
| Frontmatter.ReprPlain | tools/dna-graph.py:246-260 | a text without double quotes, backslashes, tabs or line breaks appears unescaped between its quotes, so `["it's"]` is written with double quotes |
| Frontmatter.Text | tools/dna-graph.py:246-260 | `str()` of a value: text is itself, an integer reads back as the same integer, and a boolean as `True` or `False` |
| Frontmatter.DepLines | tools/dna-graph.py:262-268 | a falsy `depends_on` is written as `depends_on: []`, exactly then; otherwise one line per item |
| Frontmatter.HeaderLines | tools/dna-graph.py:239-268 | the header is written exactly when `id` and `level` are present, the title is text and the dependencies can be iterated; it starts with the `id` line and has the `level` line fourth |
| Frontmatter.Serialize | tools/dna-graph.py:239-277 | `serialize_decision` succeeds exactly when the header can be written |
| Frontmatter.SerializeBody | tools/dna-graph.py:270-277 | reading back a serialised file gives the header's block and the body with the separator newlines the writer added |
| Frontmatter.RewriteGrowsBody | tools/dna-graph.py:272-275 | as written, a body that starts with a newline reads back with one more newline, so it differs from the body written |
| Frontmatter.SerializeFixed | tools/dna-graph.py:239-277 | the corrected writer succeeds exactly when the header can be written |
| Frontmatter.SerializeFixedBody | tools/dna-graph.py:151-166 | with the correction, a file reads back to its header block and to the body given, whenever that body starts with a newline |
| Frontmatter.SerializeFixedStable | tools/dna-graph.py:239-277 | with the correction, writing back the body just read reproduces the file exactly |
| Frontmatter.ReadBackIdem | tools/dna-graph.py:270-277 | writing the body as read gives the same text as writing the original body |
| Decisions.LevelNumber | tools/dna-graph.py:696-701 | a valid level compares as a number from 1 to 4; a missing level does not compare |
| Decisions.Inverted | tools/dna-graph.py:698-702 | `dep_level > level` once neither is None: integers by value, a valid level as its number, two texts by code point as Python orders strings |
| Decisions.InvertedStrictOrder | tools/dna-graph.py:698-702 | inversion is a strict order: never of a level against itself, never both ways, and two inversions in a chain are one |
| Decisions.StrItems | tools/dna-graph.py:525-533 | the string items of a list, exactly those and no more of them than there are items |
| Decisions.Chars | tools/dna-graph.py:525-533 | a bare string iterates as its characters, one string per character |
| Decisions.DepsList | tools/dna-graph.py:525-533 | `get_deps_list` lists exactly the string items of a list-valued `depends_on`, and nothing for a falsy one |
| Decisions.Occurrences | tools/dna-graph.py:514-522 | a count that is positive exactly when the identifier occurs |
| Decisions.Dependents | tools/dna-graph.py:514-522 | `get_dependents` lists exactly the records, in dict order, whose dependencies include the identifier |
| Decisions.DepAdjEdge | tools/dna-graph.py:658-663 | an edge of the dependency relation links two existing records, the first listing the second |
| Decisions.RevAdjConverse | tools/dna-graph.py:546-551 | the reverse adjacency is exactly the converse of the dependency relation |
| Decisions.DependentsEdge | tools/dna-graph.py:514-522 | a record has dependents exactly when it has an incoming edge |
| Transitions.ValidateTransition | tools/dna-graph.py:284-297 | a transition is allowed exactly when it keeps the state or is suggested→committed, suggested→superseded or committed→superseded |
| Transitions.TransitionForward | tools/dna-graph.py:284-297 | every allowed change of state moves strictly forward through the life cycle |
| Transitions.NeverBackToSuggested | tools/dna-graph.py:284-297 | no transition leads back to suggested |
| Transitions.SupersededFinal | tools/dna-graph.py:284-297 | superseded is final |
| Transitions.TransitionTransitive | tools/dna-graph.py:284-297 | two allowed transitions in a row make one allowed transition |
| Transitions.TransitionAntisymmetric | tools/dna-graph.py:284-297 | a change of state cannot be undone |
| Loader.IdOf | tools/dna-graph.py:500-501 | a file contributes an identifier only if it has a frontmatter holding `id` |
| Loader.NodeOf | tools/dna-graph.py:507-511 | the record keeps the file's identifier and is tagged with the file's scope |
| Loader.FileIdsSource | tools/dna-graph.py:497-511 | every identifier loaded comes from one of the files |
| Loader.LoadGraph | tools/dna-graph.py:485-511 | loading succeeds exactly when no identifier is declared twice. On success the order is the files' identifiers in load order and each file's record is stored under its identifier. On failure the error names the first repeated identifier and the scopes of its two files |
| PreValidate.Reachable | tools/dna-graph.py:372-383 | the stack-and-visited search finds the target exactly when it is reachable |
| PreValidate.CheckDeps | tools/dna-graph.py:332-344 | the errors are exactly those of the missing and self dependencies, one per listing, in list order, so a dependency listed twice is reported twice. The warnings are exactly the level inversions of the deeper existing dependencies, one per listing, in list order |
| PreValidate.ReportedCount | tools/dna-graph.py:332-360 | a message that only one dependency causes appears as many times as that dependency is listed |
| PreValidate.ReportedMembers | tools/dna-graph.py:332-360 | a message is reported exactly when some listed dependency causes it |
| PreValidate.ExistenceMembers | tools/dna-graph.py:335-339 | the existence loop reports exactly the missing dependencies and the record itself |
| PreValidate.WarnedMembers | tools/dna-graph.py:340-344 | the warnings are exactly the level inversions of the listed dependencies |
| PreValidate.CheckIronRule | tools/dna-graph.py:346-351 | an error for exactly the project-scope dependencies of a constitution record, one per listing, in list order |
| PreValidate.CheckUpstream | tools/dna-graph.py:353-360 | an error for exactly the existing dependencies that are not committed, carrying their state, one per listing, in list order |
| PreValidate.CheckCycles | tools/dna-graph.py:371-383 | a cycle error for exactly the dependencies from which the new identifier is reachable, one per listing, in list order |
| PreValidate.CreateFailureWitness | tools/dna-graph.py:304-360 | checks that do not all pass always report an error |
| PreValidate.CreateAdjAsWrittenUnreachable | tools/dna-graph.py:364-370 | as written, the adjacency drops every edge into the new identifier, so no search ever reaches it |
| PreValidate.CreateCycleMissed | tools/dna-graph.py:362-383 | creating DEC-009 that depends on DEC-005, where DEC-005 already lists DEC-009, passes every check; the search as written misses the cycle and the corrected adjacency finds it |
| PreValidate.CreateAdjAfter | tools/dna-graph.py:364-370 | the corrected adjacency is the dependency relation of the graph with the new record added |
| PreValidate.CycleThrough | tools/dna-graph.py:371-383 | a record lies on a cycle exactly when it is reachable from one of its successors |
| PreValidate.CreateCycleMeaning | tools/dna-graph.py:362-383 | with the corrected adjacency, a cycle is reported exactly when the new record would lie on a cycle |
| PreValidate.CreateChecks | tools/dna-graph.py:309-360 | the errors and warnings of the checks that come before the cycle search, exactly: the field errors without repeats, then the existence, iron-rule and upstream errors per listing, in that order |
| PreValidate.FieldChecks | tools/dna-graph.py:309-330 | identifier format, uniqueness, level, state and stakes errors, exactly those, each at most once |
| PreValidate.IsDecId | tools/dna-graph.py:309-311 | an accepted identifier starts with `DEC-`, the prefix `cmd_validate` requires |
| PreValidate.DecIdNumbers | tools/dna-graph.py:309-311 | `DEC-` with a zero-padded number is accepted exactly below 1000, and every accepted identifier is such a number |
| PreValidate.CreatePassNoError | tools/dna-graph.py:363 | the cycle search runs only when no earlier check reported an error |
| PreValidate.ValidateForCreate | tools/dna-graph.py:304-385 | `validate_for_create` reports exactly the errors of the checks, in source order; when they all pass, it reports exactly the cycle errors of the corrected search, one per listed dependency that reaches the new record. Its warnings are exactly the level inversions, in list order |
| PreValidate.ProposedDeps | tools/dna-graph.py:413 | a list value gives exactly its string items |
| PreValidate.SetAdjAfter | tools/dna-graph.py:434-442 | the set adjacency is the dependency relation of the graph after the change |
| PreValidate.SetCycleMeaning | tools/dna-graph.py:434-454 | a cycle is reported exactly when the changed record would lie on a cycle |
| PreValidate.InversionWarnings | tools/dna-graph.py:456-465 | a warning for exactly the existing dependencies at a deeper level, one per listing, in list order |
| PreValidate.InversionsMembers | tools/dna-graph.py:460-465 | the level-ordering warnings are exactly the inversions of the listed existing dependencies |
| PreValidate.InversionsCount | tools/dna-graph.py:460-465 | a deeper dependency listed twice is warned about twice: each warning occurs as often as its dependency is listed |
| PreValidate.SetState | tools/dna-graph.py:399-409 | an illegal transition gives exactly one error and nothing else. Committing after a legal transition gives one error per listing of an existing dependency that is not committed, in list order. Any other legal transition gives none |
| PreValidate.SetDepChecks | tools/dna-graph.py:411-431 | the missing and self errors per listing, then the iron-rule errors per listing, and the inversion warnings, exactly those in that order |
| PreValidate.SetDeps | tools/dna-graph.py:411-454 | the `depends_on` branch's errors: those of the earlier checks when one fails, otherwise one cycle error per proposed dependency that reaches the record; and its warnings |
| PreValidate.ValidateForSet | tools/dna-graph.py:388-478 | an unknown record gives exactly one not-found error; otherwise exactly the errors and warnings of the field's branch. The `state` and `depends_on` branches give their error sequences exactly, and every other branch at most one error, so an unknown field is exactly one error. The warnings are exactly the level inversions of the `depends_on` and `level` loops, one per listing in list order, and none for the other fields |
| Validate.AdjLists | tools/dna-graph.py:658-663 | the successor lists have one entry per record and name only existing records |
| Validate.AdjListsEdges | tools/dna-graph.py:658-663 | the successor lists describe exactly the dependency relation |
| Validate.Dfs | tools/dna-graph.py:668-680 | the corrected `dfs` keeps the search sound, finishes `u` BLACK and restores the GRAY set to the path before `u` |
| Validate.Visit | tools/dna-graph.py:670-678 | a successor is a reported cycle, is searched and then BLACK, or is skipped |
| Validate.Finish | tools/dna-graph.py:682-684 | a search that has left no record WHITE has reported no cycle exactly when the graph is acyclic |
| Validate.SearchAll | tools/dna-graph.py:682-684 | the roots loop leaves no record WHITE and none GRAY |
| Validate.FindCycles | tools/dna-graph.py:658-684 | every reported path is a cycle of the dependency relation, and none is reported exactly when the graph is acyclic |
| Validate.DfsAsWritten | tools/dna-graph.py:668-680 | `dfs` as written never adds records and turns `u` from WHITE |
| Validate.RootsAsWritten | tools/dna-graph.py:682-684 | the roots loop as written keeps the colour keys, and a crash ends it |
| Validate.DfsCrash | tools/dna-graph.py:658-684 | the graph DEC-001 ⇄ DEC-002, with DEC-003 depending on DEC-002, has a cycle, and the pass as written crashes on it |
| Validate.EdgesAsWritten | tools/dna-graph.py:670-678 | the successor loop as written keeps the colour keys and never turns a record back to WHITE |
| Validate.CrashRoots | tools/dna-graph.py:682-684 | on that graph the roots loop as written crashes while searching from DEC-003, after DEC-002 was left GRAY |
| Validate.CrashHasCycle | tools/dna-graph.py:658-663 | that graph, in that dict order, has a cycle of the dependency relation |
| GraphCheck.MissingTargets | tools/dna-graph.py:647-650 | an error for exactly the listed dependencies that do not exist |
| GraphCheck.MissingSections | tools/dna-graph.py:652-656 | a warning for exactly the required headings missing from the body |
| GraphCheck.HasSection | tools/dna-graph.py:652-656 | a section is found only where its heading text occurs, and always when the body opens with the heading line |
| GraphCheck.HeadingLineFound | tools/dna-graph.py:654-656 | a heading at a line start, followed by blanks up to a line break or the end, is found |
| GraphCheck.FieldProblems | tools/dna-graph.py:618-645 | the identifier, title, date, level, state and stakes errors and warnings of one record, exactly |
| GraphCheck.CheckNode | tools/dna-graph.py:617-656 | checks 1 to 7 of one record, exactly |
| GraphCheck.NodeChecks | tools/dna-graph.py:617-656 | the per-record errors and warnings of all records, exactly |
| GraphCheck.OrphanTest | tools/dna-graph.py:686-691 | the script's test `no deps and no dependents` is the model's orphan predicate |
| GraphCheck.OrphanIsolated | tools/dna-graph.py:686-691 | an orphan has no edge in either direction |
| GraphCheck.Orphans | tools/dna-graph.py:686-691 | an orphan warning for exactly the orphans |
| GraphCheck.OrphanSet | tools/dna-graph.py:785-788 | `existing_orphans` holds exactly the orphans |
| GraphCheck.MissingDeps | tools/dna-graph.py:784-792 | a missing-dependency warning for exactly the records at level 2 or more, with no dependencies, that are not orphans |
| GraphCheck.MissingDepMeaning | tools/dna-graph.py:784-792 | such a record has no outgoing edge but has dependents |
| GraphCheck.Inversions | tools/dna-graph.py:693-702 | a warning for exactly the existing dependencies at a greater level |
| GraphCheck.IronChecks | tools/dna-graph.py:704-710 | an error for exactly the project-scope dependencies of constitution records |
| GraphCheck.UpstreamHealth | tools/dna-graph.py:716-722 | for one committed record, an error for exactly its superseded or suggested dependencies |
| GraphCheck.HealthChecks | tools/dna-graph.py:712-722 | the same over all committed records |
| GraphCheck.CycleErrors | tools/dna-graph.py:674-677 | one cycle error per cycle found, in order |
| GraphCheck.GraphErrors | tools/dna-graph.py:611-722 | exactly the non-cycle errors of the validate pass; with the corrected search, at least one cycle error exactly when the graph has a cycle, each reported path a cycle |
| GraphCheck.GraphWarnings | tools/dna-graph.py:611-792 | exactly the warnings of the validate pass |
| GraphCheck.ValidateGraph | tools/dna-graph.py:611-794 | `cmd_validate`'s structural checks: exactly the errors and warnings the rules call for; with the corrected search, a cycle error exactly when the graph has a cycle, each with a path that is a cycle |
| GraphCheck.IronAndHealthReported | tools/dna-graph.py:704-722 | every constitution→project dependency, and every committed record with a superseded or suggested dependency, is reported |
| Traversal.NodesCard | tools/dna-graph.py:838-839 | the distinct records reached are no more than the entries |
| Traversal.Totals | tools/dna-graph.py:838-839 | the unique count never exceeds the total |
| Traversal.Spread | tools/dna-graph.py:821-832 | one entry per successor not yet visited, each with the visited record as its reason |
| Traversal.WaveStep | tools/dna-graph.py:813-832 | a wave visits the batch records not yet visited and its entries name their unvisited successors |
| Traversal.MakeEffect | tools/dna-graph.py:821-830 | an entry names the record and its reason, carries the record's state (`unknown` when the key is missing), and is cross-directory exactly when the two scopes differ |
| Traversal.Advance | tools/dna-graph.py:808-836 | one pass keeps the wave invariant and either visits a new record or stops |
| Traversal.Propagate | tools/dna-graph.py:808-836 | the loop ends. The records of all entries are exactly those reachable in one or more steps, other than the start. Every entry is well formed, and waves are numbered from 1 with no empty wave |
| Traversal.WavesDone | tools/dna-graph.py:808-836 | once nothing changed, the records visited are exactly those reachable |
| Traversal.DependentsListsEdges | tools/dna-graph.py:514-522 | the lists of `get_dependents` describe exactly the reverse relation |
| Traversal.Cascade | tools/dna-graph.py:797-839 | an unknown start is an error. Otherwise the records of the entries are exactly the transitive dependents of the start, never the start itself. Each entry's reason is a record it depends on |
| Traversal.CascadeReverse | tools/dna-graph.py:894-934 | the mirror of the cascade over `depends_on`: exactly the transitive dependencies of the start, each with a reason that depends on it |
| Traversal.CascadeMirror | tools/dna-graph.py:797-934 | the forward cascade from `a` reaches `b` exactly when the reverse cascade from `b` reaches `a` |
| Traversal.AddDependent | tools/dna-graph.py:549-551 | the inner loop adds the record to the dependent set of each existing dependency |
| Traversal.ReverseAdjacency | tools/dna-graph.py:546-551 | `reverse_adj` maps each record to exactly the records that list it |
| Traversal.Downstream | tools/dna-graph.py:555-563 | the queue search visits exactly the records reachable in one or more steps |
| Traversal.BfsTurn | tools/dna-graph.py:557-562 | one turn keeps the search invariant and makes progress |
| Traversal.TransitiveDownstream | tools/dna-graph.py:541-564 | for every record, exactly its direct and transitive dependents |
| Frontier.BlockingOf | tools/dna-graph.py:1250-1253 | the blocking entries, exactly, with no more entries than given |
| Frontier.Blockers | tools/dna-graph.py:1250-1253 | `uncommitted_deps`: exactly the existing dependencies that are not committed |
| Frontier.FirstMax | tools/dna-graph.py:595 | Python's `max` with a key: the first element of greatest depth |
| Frontier.Consider | tools/dna-graph.py:583-587 | one dependency: a blocking one not yet visited joins the tree one level down and is queued |
| Frontier.Expand | tools/dna-graph.py:582-587 | one turn visits every blocking dependency of the current record |
| Frontier.Turn | tools/dna-graph.py:580-587 | one turn keeps the search invariant and makes progress |
| Frontier.Search | tools/dna-graph.py:575-587 | the search builds a tree of blocking dependencies, and an empty tree means the target has no blocking dependency |
| Frontier.WalkBack | tools/dna-graph.py:598-602 | the walk from the deepest record follows parent links down to the target |
| Frontier.WalkDone | tools/dna-graph.py:595-604 | the finished walk is a chain of blocking dependencies ending at the target |
| Frontier.CriticalPath | tools/dna-graph.py:567-604 | the path is empty exactly when the target has no blocking dependency. Every entry is blocking. Without a further chain it is the direct blockers; otherwise it is a chain of distinct blocking dependencies, each depended on by the next, the last by the target |
| Frontier.Classify | tools/dna-graph.py:1244-1272 | the entry of a suggested record, with its downstream set sorted; it is committable exactly when it has no blockers, and otherwise carries its blockers and critical path |
| Frontier.PartitionStep | tools/dna-graph.py:1244-1272 | one record goes to the list it belongs to, or to none |
| Frontier.Partition | tools/dna-graph.py:1240-1272 | committable holds exactly the suggested records whose existing dependencies are all committed, and blocked holds exactly the other suggested records, each with its blockers and a valid critical path |
| Frontier.CountIn | tools/dna-graph.py:1284-1293 | no more records are counted than listed |
| Frontier.CountInCard | tools/dna-graph.py:1284-1293 | counting along distinct identifiers gives the size of the set counted |
| Frontier.CountLevel | tools/dna-graph.py:1280-1293 | the counts of committed, suggested and superseded records at one level |
| Frontier.MatchingCount | tools/dna-graph.py:1284-1293 | counting in dict order gives the number of matching records |
| Frontier.Flags | tools/dna-graph.py:1295-1299 | "more suggested than committed" exactly when suggested > committed, and "no committed decisions" exactly when committed is 0 and the total is positive |
| Frontier.LevelGaps | tools/dna-graph.py:1278-1308 | the four level gaps: each level's name, its three counts, their total and its flags |
| Mutations.CountPositive | tools/dna-graph.py:1688-1695 | `s.count(sub)` is positive exactly when `sub in s` |
| Mutations.CountOne | tools/dna-graph.py:1693-1695 | a count of one leaves no other occurrence apart from the first |
| Mutations.EditBody | tools/dna-graph.py:1688-1703 | the edit is refused unless the old text occurs exactly once. A missing text and a repeated text each have their error. Otherwise the new body is the old one with that occurrence replaced and the rest kept |
| Mutations.Edit | tools/dna-graph.py:1674-1710 | an unknown record and an unreadable frontmatter are refused, and a refused body edit is refused with its reason; otherwise the edit succeeds exactly when the serialiser accepts the frontmatter, and then writes, with the corrected serialiser, the file's own frontmatter and the edited body |
| Mutations.EditReadBack | tools/dna-graph.py:1703-1710 | the file an edit writes reads back to the same frontmatter block and exactly the edited body |
| Mutations.SetField | tools/dna-graph.py:1588-1643 | any validation error rejects the `set`, reporting exactly the validation errors; with none and a readable frontmatter it succeeds exactly when the serialiser accepts the new frontmatter, and then writes, with the corrected serialiser, the old frontmatter with the field changed and the old body |
| Mutations.SetKeepsBody | tools/dna-graph.py:1627-1643 | the file a `set` writes reads back to the body it read |
| Manifest.Filter | tools/dna-graph.py:1814-1822 | the identifiers of a list that a test picks, exactly |
| Manifest.FilterSorted | tools/dna-graph.py:1814 | filtering keeps ascending order |
| Manifest.SelectedSpec | tools/dna-graph.py:1814-1822 | a manifest list holds exactly the records its test picks, in ascending identifier order |
| Manifest.Summaries | tools/dna-graph.py:1797-1805 | one summary per identifier listed |
| Manifest.NodeSummary | tools/dna-graph.py:1797-1805 | the summary copies the identifier, level and stakes (null when missing), the title (empty text when the key is missing) and the state (`unknown` when the key is missing) |
| Manifest.LevelLists | tools/dna-graph.py:1812-1822 | one level's committed and suggested summaries |
| Manifest.LevelEntry | tools/dna-graph.py:1811-1826 | one level's group: its name and its two lists |
| Manifest.HumanManifest | tools/dna-graph.py:1808-1826 | four groups, levels 1 to 4 in turn, each named and holding the summaries of its committed and its suggested records in ascending identifier order |
| Manifest.Extend | tools/dna-graph.py:1860-1873 | a summary is appended exactly when the list's test picks the record |
| Manifest.AgentStep | tools/dna-graph.py:1860-1873 | one record goes to every list whose test it meets |
| Manifest.AgentManifest | tools/dna-graph.py:1853-1873 | the summaries, in ascending identifier order, of the constitution records, the high-stakes ones, the committed ones and the suggested ones |
| Manifest.StatesDisjoint | tools/dna-graph.py:1819-1822 | no record is listed as both committed and suggested |
| Manifest.LevelsCoverCommitted | tools/dna-graph.py:1808-1826 | the committed records of the four levels are exactly the committed records at a valid level |
| Scratch.SpNumber | tools/dna-graph.py:129-131 | the pattern matches exactly an `SP-` identifier followed by digits (three of them for `\d{3}`), before an optional final newline; the number captured is their value |
| Scratch.MaxSpSpec | tools/dna-graph.py:127-131 | the running maximum bounds every number carried, and is one of them unless it is 0 |
| Scratch.NextSpId | tools/dna-graph.py:125-132 | the loop fails exactly when an identifier is not text, and otherwise returns `SP-` and the maximum plus one, zero-padded to 3 digits |
| Scratch.NextIdAbove | tools/dna-graph.py:125-132 | the new identifier carries a number greater than every number found, and matches `\d{3}` only while it is below 1000 |
| Scratch.DuplicateSp1000 | tools/dna-graph.py:129 | with `\d{3}`, the entries SP-999 and SP-1000 give SP-1000 again, a duplicate |
| Scratch.CorrectedIdFresh | tools/dna-graph.py:125-132 | with `\d+`, the new identifier differs from every existing one |
| Scratch.Select | tools/dna-graph.py:2015-2020 | the entries that are active (or matured) and of the filtered type, exactly, in store order |
| Scratch.Listing | tools/dna-graph.py:2015-2020 | an entry is in the first list exactly when it is in the store, active and of the filtered type, and in the second exactly when it is in the store, matured and of the filtered type |
| Scratch.ListingPartition | tools/dna-graph.py:2015-2020 | the two lists together hold each entry at most as often as the store does, and exactly as often without a filter |
| Scratch.Types | tools/dna-graph.py:140-142 | the types are available exactly when each is text |
| Scratch.TalliesSpec | tools/dna-graph.py:140-143 | the summary's parts name each type once, in ascending order, with a positive count; the counts add up to the number of active entries |
| Scratch.CountTypes | tools/dna-graph.py:140-142 | the count of each type is its number of occurrences |
| Scratch.SortedTallies | tools/dna-graph.py:143 | `sorted(counts.items())` is the tallies in ascending type order |
| Scratch.Summarize | tools/dna-graph.py:135-144 | the summary as `_scratchpad_summary` computes it: empty with nothing active, otherwise the active count and the tally of each type |
| Scratch.NewEntry | tools/dna-graph.py:1980-1987 | the entry appended has the new identifier and type, and is active |
| Scratch.FirstMissingLink | tools/dna-graph.py:1970-1975 | the first link that names no decision, or none exactly when all of them exist |
| Scratch.FirstWithId | tools/dna-graph.py:2060-2064 | the first entry with the identifier, or none exactly when no entry has it |
| Scratch.Locate | tools/dna-graph.py:2060-2064 | the search loop finds that first entry |
| Scratch.MatureAt | tools/dna-graph.py:2080 | only the one entry changes, and in it only `matured_to` |
| Scratch.MatureKeepsIds | tools/dna-graph.py:2059-2081 | maturing keeps every identifier where it was; with a non-empty decision identifier it leaves the entry no longer active, so a second `mature` is refused (an empty `matured_to` is falsy and keeps the entry active) |
| Scratch.Scratchpad.constructor | tools/dna-graph.py:106-112 | the store holds the entries loaded |
| Scratch.Scratchpad.Add | tools/dna-graph.py:1959-1989 | a missing type, an unknown type, missing content, a link to no decision (the first such link is reported) and an unreadable store are each refused, exactly on its condition and in that order, with the store unchanged. Otherwise the new entry with the next identifier, a fresh one, is appended and nothing else changes |
| Scratch.Scratchpad.Mature | tools/dna-graph.py:2059-2081 | a missing entry, an entry already matured and a missing decision are each refused, with the store unchanged. Otherwise the first entry with the identifier gets `matured_to` and nothing else changes |

## Left out

- Printing, and the table, markdown and JSON rendering of every command.
- Reading and writing files: the directory listing of `load_graph`, `_load_scratchpad` and `_save_scratchpad`, and the temporary-file atomic writes. Callers pass parsed files and stores in, and receive the text to write.
- `date.today()` is a `today` parameter.
- Command-line argument parsing: the flags of `create`, `scratchpad add` and `scratchpad list`, and `cmd_set`'s value parsing. `set` receives a parsed `Value`.
- The body linters B1–B4 and B6, with `load_config` and `_get_terminology`. They depend on regular expressions over free text and an external configuration.
- `cmd_search`, `cmd_index`, `cmd_health` and `_read_manual_flags`: text search, report rendering and file writing, outside the engine.
- `cmd_create`'s scaffolding of a new file: only its validation, `validate_for_create`, is modelled.
- The `counts` argument of the two manifest builders, which they pass through to the output unchanged.
- The `server/` wrapper, which is process plumbing.
- Frontmatter.Coerce: the `float` branch is not modelled, so a decimal scalar stays text.
- Frontmatter.Coerce: `\s`, `\w`, `str.strip` and `int()` are ASCII-only here, with no Unicode classes: Python's `int()` also reads other Unicode decimal digits (`level: ١` is 1), which stay text here.
- PreValidate.IsDecId: `\d` in `^DEC-\d{3}$` matches ASCII digits only here; Python also accepts other Unicode decimal digits, such as `DEC-١٢٣`.
- GraphCheck.HasSection: `\s` in the heading pattern matches ASCII white space only here, not the other Unicode spaces Python accepts.
- Scratch.SpNumber: `\d` in `^SP-(\d{3})$` matches ASCII digits only here, not the other Unicode decimal digits Python accepts.
- Frontmatter.Repr: Python's `repr` also escapes non-printable characters other than tab, line feed and carriage return (as `\x..` or `\u....`); here they are kept as they are.
- Decisions.DepsList: a dependency written as a mapping with an `id` key is not modelled, because the frontmatter parser never produces mappings.
- Decisions.DepsList: a truthy `depends_on` that is neither a list nor text (`depends_on: 5`) makes the `for` loop raise `TypeError` in Python; here it gives no dependencies, since a crash of every command that reads the graph is not modelled.
- Loader.IdOf: a file whose `id` is not text is skipped, where Python would key the record by that value.
- Decisions.Inverted: two text levels compare by code point, as in Python, but comparing text with a number, or a list with anything, raises `TypeError` in Python; here such levels simply do not compare. Two list levels, which Python compares item by item, do not compare either.
- Decisions.LevelNumber: the `level >= 2` test of the strict missing-dependency rule raises `TypeError` in Python on a text level; here such a level is not at least 2.
- PreValidate.FieldChecks: a list-valued level, state or stakes is unhashable, so `in VALID_LEVELS`, `in VALID_STATES` and `in VALID_STAKES` raise `TypeError` in Python; here it is reported as invalid.
- GraphCheck.FieldProblems: the same holds for a list-valued level, state or stakes in the validate pass.
- Validate.Dfs: the guard `v not in color` of the cycle search is never true, since every successor exists, so it is not modelled.
- GraphCheck.ValidateGraph: the cycle report uses the corrected search (Findings row 1); as written the pass can raise `ValueError` and report nothing.
- GraphCheck.GraphErrors: the same corrected search; on the input of Findings row 1 the script as written raises instead of reporting the cycle.
- PreValidate.ValidateForCreate: it uses the corrected adjacency (Findings row 2); as written no create cycle is ever reported.
- GraphCheck.ValidateGraph: it states which errors and warnings are reported, not the order in which they appear in the output lists.
- Frontier.CriticalPath: not proved to be the longest chain, which the docstring promises and the breadth-first code does not deliver. It is proved to be a chain of distinct blocking dependencies ending at the target.
- Frontier.Partition: the final sort of both lists by downstream weight, level and path length is not modelled, nor is the high-weight list. The contract states which records each list holds, not their order.
- Traversal.CascadeReverse: the `nodes.get(nid, {})` fallback for a visited record missing from the graph is not modelled, because only existing records are ever visited.
- Mutations.Edit: it assumes the corrected cycle search of Findings row 1. As written, the pre-edit `cmd_validate(nodes)` at line 1699 runs before the write, so on a graph such as the one of Findings row 1 it raises `ValueError` and nothing is written, while the model returns the edited text. Otherwise the before-and-after warning delta only prints, and it is not modelled.
- Mutations.EditBody: `Count` counts non-overlapping occurrences, as `str.count` does. So the contract promises only that no other occurrence lies apart from the one replaced; an overlapping one may exist.
- Manifest.HumanManifest: a level with no suggested records leaves out the `suggested` key; here it is an empty sequence.
- Scratch.Summarize: a non-text type gives `None`, where Python would raise only for mixed types.
- Scratch.NextSpId: an identifier that is not text is modelled as a failure (`IdUnreadable`) where Python raises `TypeError`.
- Scratch.Listing: an empty filter type stands for "no filter", as Python's falsy check treats it.
- Scratch.Scratchpad.Add: it uses the corrected `\d+` identifier pattern.
- Mutations.Edit: it writes with the corrected serialiser (`SerializeFixed`), not the one that adds a blank line under the fence.
- Mutations.SetField: it writes with the corrected serialiser as well.

## Findings

| source | as written | input that shows it | evidently intended | confidence | as-written member | corrected member |
|---|---|---|---|---|---|---|
| tools/dna-graph.py:658-676 | after reporting a cycle, `dfs` returns with `u` still GRAY; a later search that meets that GRAY record off its own path calls `path.index` on a missing element and raises `ValueError` | DEC-001 → DEC-002 → DEC-001 and DEC-003 → DEC-002, in the dict order DEC-001, DEC-002, DEC-003 | finish `u` (BLACK) before returning, so that the pass reports the cycle and completes | not executed | Validate.DfsCrash | Validate.FindCycles |
| tools/dna-graph.py:364-370 | the create adjacency keeps only edges to existing identifiers, so an existing record that already lists the new identifier loses that edge and the cycle goes unreported | DEC-005 lists DEC-009, which does not exist yet; creating DEC-009 with `depends_on: [DEC-005]` | keep the edges into the new identifier, so that the search runs on the graph after the change | not executed | PreValidate.CreateCycleMissed | PreValidate.CreateCycleMeaning |
| tools/dna-graph.py:272-275 | the serialiser puts the body after `---\n`, and every body that `parse_frontmatter` returns starts with a newline, so each `set` or `edit` adds one more blank line before the body | any record run through `set` twice: the body read back grows by one newline each time | a single newline separator, so that writing a file back unchanged is the identity | not executed | Frontmatter.RewriteGrowsBody | Frontmatter.SerializeFixedStable |
| tools/dna-graph.py:125-132 | the pattern `^SP-(\d{3})$` ignores SP-1000 and later, so once SP-999 exists every new entry is SP-1000 again | entries SP-999 and SP-1000 | take the maximum over all numbers (`\d+`), so that the new identifier is fresh | not executed | Scratch.DuplicateSp1000 | Scratch.CorrectedIdFresh |
