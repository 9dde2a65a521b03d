# Prior-authorization decision trees: validation and repair, in Dafny

This project models the core of a prior-authorization demo. Insurance criteria text is turned into a
decision tree of `decision` and `outcome` nodes joined by labelled connections. That tree is then
checked and repaired:

- **Graph utilities.** A depth-bounded traverser with cycle detection, structural validation, root
  inference, cycle enumeration and simple-path enumeration.
- **Validation agent.** The four rule-based conflict detectors: contradictory paths, circular
  dependencies, redundant paths and overlapping conditions. Also the walk used for edge-case
  scenarios, the condition evaluator, and the salvage of malformed language-model answers.
- **Conflict resolver.** Groups conflicts by kind and hands each group to its handler. The circular
  handler cuts an edge and the redundant handler prunes nodes. The contradictory and overlapping
  handlers ask a language model.
- **Small cores.** Criterion classification and evaluation ordering, the document/step progress
  tracker, file-name grouping of related documents, the simple merge of multi-document results, and
  the key/value-pair schema conversions.

## Structure

- `base.dfy`: `Option`/`Result`, ASCII string helpers (`Lower`, `IsSpace`, `Strip`, `Split`), and the
  JSON-like `Value`.
- `dicts.dfy`: Python dictionaries as insertion-ordered lists of bindings with unique keys.
- `graph.dfy`: nodes and connections in the shapes the code accepts.
  - Nodes are a dictionary keyed by id, or a list.
  - Connections are a dictionary from label to target, where a target is an id, a nested
    dictionary or None. They can also be a list of records with `to`, `target_node_id` and
    `condition`.
- `tree_traversal.dfy`: `src/utils/tree_traversal.py`. Classes for the traverser and for the two
  depth-first searches, whose Python closures mutate captured lists and sets.
- `validation_agent.dfy`: `src/agents/validation_agent.py`. Loops are methods proved against
  specification functions.
- `conflict_resolver.dfy`: `src/agents/conflict_resolver.py`. Node dictionaries are heap objects
  (`NodeObj`) in a container (`NodeStore`), because the handlers edit nodes in place through a
  shallow copy of the tree.
- `criteria_parser.dfy`: `src/core/criteria_parser.py`.
- `tracker.dfy`: `src/demo/tracker.py`. The `ProgressTracker` class, with one pure transition
  function per operation.
- `document_set_manager.dfy`: `src/utils/document_set_manager.py`.
- `multi_document_adapter.dfy`: `src/adapters/multi_document_adapter.py`.
- `schemas.dfy`: `src/core/schemas.py`.

Language-model calls, regular expressions whose content is not a fixed word list, clocks and random
identifiers are function parameters of the operations that use them.

### Where the code and its description differ (the model follows the code)

- The detectors select nodes with `type == 'decision'` (not `question`).
- The detectors and the resolver follow list records by their `to` key. The traversal utilities
  follow `target_node_id`.
- The circular handler silently drops a conflict whose cut-edge source node is absent. It is
  neither resolved nor unresolved.
- The redundant handler does the following:
  - It records nothing for a conflict naming at most one node.
  - It filters the node list it started from for every conflict.
  - It reports every multi-node conflict unresolved when the nodes are a dictionary (an exception
    inside its `try`).
  - It shrinks the node count only when a removed id is present.
- The contradictory and overlapping handlers only record the language model's text. They never
  edit the tree.
- `validate_tree_structure` raises `TypeError` on a nested-dictionary connection target: such a
  target is unhashable, so the membership test fails.
- A redundant-path conflict lists the later path's ids followed by the earlier path's ids. This is
  a concatenation, not a union.
- The primary document of a pattern-grouped set is always the group's first file (see Findings).

## Model

| member | source | states |
|---|---|---|
| Graph.Get | src/utils/tree_traversal.py:341 | `nodes.get(k)` finds a node exactly when `k` is a key, and the node found is bound to `k` |
| Graph.Values | src/agents/validation_agent.py:352-355 | `nodes.values()` has one node per entry, in dictionary order; a list is itself |
| Graph.DfsTargets | src/utils/tree_traversal.py:344-356 | the ids the cycle and path searches recurse into are truthy and are keys of the node dictionary |
| TreeTraversal.SafeTreeTraverser.constructor | src/utils/tree_traversal.py:30-34 | a missing configuration means the defaults; visited set, path stack and cycle flag start empty |
| TreeTraversal.SafeTreeTraverser.TraverseTree | src/utils/tree_traversal.py:36-62 | the path stack is empty afterwards; a negative depth bound processes nothing; otherwise the start is visited, every visited id is within `max_depth` child steps, a normal return is the start's processing result, no cycle is flagged when detection is off, and a raise happens only with `raise_on_cycle` and the flag set |
| TreeTraversal.SafeTreeTraverser.TraverseRecursive | src/utils/tree_traversal.py:64-126 | the depth check comes first and changes nothing; a key already on the path sets the flag and raises the cycle slice (or returns None); otherwise the key is visited and the result is the node's processing; the path stack is restored on every exit |
| TreeTraversal.SafeTreeTraverser.HasCycle | src/utils/tree_traversal.py:128-130 | returns the cycle flag |
| TreeTraversal.SafeTreeTraverser.GetVisitedNodes | src/utils/tree_traversal.py:132-134 | returns the visited set |
| TreeTraversal.UnreferencedExactly | src/utils/tree_traversal.py:298-301 | the root candidates are exactly the entries whose key no connection references |
| TreeTraversal.ReferencedExactly | src/utils/tree_traversal.py:271-296 | an id is referenced iff some node's connections name it (string value, nested `id`, or list `target_node_id`) |
| TreeTraversal.FindRootNodes | src/utils/tree_traversal.py:265-307 | the loop computes the root specification `Roots` |
| TreeTraversal.RootsCharacterized | src/utils/tree_traversal.py:265-307 | no roots for no nodes; every unreferenced node is a root and only those when any exist; the first node when all are referenced |
| TreeTraversal.ValidateTreeStructure | src/utils/tree_traversal.py:186-262 | a list of nodes is invalid with one issue; a nested-dictionary target raises; the structural issues come first and every later issue is a circular one; besides those, the report holds exactly the issues some connection raises (a self-reference or a missing target); valid iff there are no issues |
| TreeTraversal.RecIssuesExactly | src/utils/tree_traversal.py:217-224 | a list of records yields exactly one issue per record targeting its own node (self-reference) or a truthy id that is not a node (missing target) |
| TreeTraversal.DictIssuesRaise | src/utils/tree_traversal.py:210-215 | a dictionary of connections raises iff one of its targets is a nested dictionary |
| TreeTraversal.DictIssuesExactly | src/utils/tree_traversal.py:210-215 | otherwise it yields exactly one issue per target that is its own node (self-reference) or not a node, None included (missing target) |
| TreeTraversal.StructuralIssuesExactly | src/utils/tree_traversal.py:202-224 | the structural pass yields exactly the issues some node's connections raise |
| TreeTraversal.StructuralThenCircular | src/utils/tree_traversal.py:202-262 | structural issues followed by circular ones: every non-circular issue is raised by some connection, and every issue a connection raises is reported |
| TreeTraversal.CycleSearch.Dfs | src/utils/tree_traversal.py:327-359 | a node on the branch appends the cycle from its first occurrence; otherwise the node ends finished; every reported sequence is a closed walk; every self-loop of a finished node is reported as `[n, n]` |
| TreeTraversal.CycleSearch.Explore | src/utils/tree_traversal.py:338-359 | exploring a node finishes it, keeps every reported sequence a closed walk, and reports the self-loops of the nodes it finishes; while no cycle is reported, the node finishes after every node it has an edge to |
| TreeTraversal.CycleSearch.ExploreTargets | src/utils/tree_traversal.py:344-356 | the loop over a pushed node's targets: afterwards a self-loop of the node is reported, and if no cycle was reported every target is finished |
| TreeTraversal.CycleSearch.VisitTarget | src/utils/tree_traversal.py:348-349 | one target is searched on a copy of the branch; the finished nodes and the reported cycles only grow |
| TreeTraversal.Descent | src/utils/tree_traversal.py:358-359 | along a walk, finishing ranks strictly fall when every edge leads to an earlier-finished node |
| TreeTraversal.NoCycleWhenRanked | src/utils/tree_traversal.py:327-366 | a graph whose nodes all finished after their successors has no cycle |
| TreeTraversal.CycleSearch.CycleCloses | src/utils/tree_traversal.py:328-333 | the slice of the branch from the re-entered node, plus that node, is a cycle of the graph |
| TreeTraversal.CycleSearch.ExtendBranch | src/utils/tree_traversal.py:344-356 | pushing a node and following one of its targets keeps the branch a repetition-free walk ending in an edge |
| TreeTraversal.DetectCircularReferences | src/utils/tree_traversal.py:310-366 | no nodes yields none; a non-empty node list raises; over a dictionary every result is a cycle, every self-loop is found, an acyclic graph yields none, and a graph with a cycle yields at least one |
| TreeTraversal.ExpansionComplete | src/utils/tree_traversal.py:405-417 | if every target's remainders were collected, every simple remainder from the current node was collected |
| TreeTraversal.PathSearch.Dfs | src/utils/tree_traversal.py:391-417 | reaching the target records the path; every recorded path is a simple start-to-target path, and every simple completion of the current path is recorded |
| TreeTraversal.PathSearch.Explore | src/utils/tree_traversal.py:399-417 | after the guards, every simple completion through the current node is recorded and nothing else |
| TreeTraversal.PathSearch.CallStep | src/utils/tree_traversal.py:405-417 | recursing into a target keeps the call state and strictly shrinks the unvisited keys |
| TreeTraversal.PathSearch.SimplePathClosed | src/utils/tree_traversal.py:392-394 | the path closed at the target is a simple path from the start |
| TreeTraversal.FindAllPaths | src/utils/tree_traversal.py:369-419 | none when an endpoint is missing or the nodes are not a dictionary; otherwise exactly the simple paths from start to end; `[[start]]` when start equals end |
| ValidationAgent.FirstMatch | src/agents/validation_agent.py:554-556 | the first node of the list whose `id` matches, and only when one does |
| ValidationAgent.FindNodeById | src/agents/validation_agent.py:548-557 | a dictionary is indexed by the key (a nested-dictionary key raises `TypeError`, None finds nothing); a list yields its first node with that id; any node found belongs to the collection |
| ValidationAgent.Lookups | src/agents/validation_agent.py:366-377 | the keys looked up are the label values of a dictionary, or the `to` of each record of a list, in order |
| ValidationAgent.OutcomeLabels | src/agents/validation_agent.py:366-377 | a failing lookup raises `TypeError` |
| ValidationAgent.OutcomeLabelsExactly | src/agents/validation_agent.py:366-377 | raises iff some lookup raises; otherwise the labels are exactly the `decision` texts of the outcome nodes found |
| ValidationAgent.DirectOutcomes | src/agents/validation_agent.py:360-377 | the inner loop computes the outcome labels of the node's direct targets |
| ValidationAgent.ContradictionsExactly | src/agents/validation_agent.py:379-388 | a conflict is reported for exactly each later decision node whose text is known with different labels; each is high-severity and names that one node; the first node of a text never yields one |
| ValidationAgent.RememberStep | src/agents/validation_agent.py:379-388 | the remembered labels of a text are those of its first node and are never overwritten; node `i` contradicts iff its text is remembered with other labels |
| ValidationAgent.MemoryRemembered | src/agents/validation_agent.py:379-388 | the dictionary the scan builds holds the first node's labels for each text seen |
| ValidationAgent.ScanNode | src/agents/validation_agent.py:357-388 | one pass of the scan over a node keeps the scan state (first-text dictionary, conflicts so far) or, when it raises, the whole scan fails |
| ValidationAgent.DetectContradictoryPaths | src/agents/validation_agent.py:343-390 | succeeds iff no lookup raises and every contradicting node has an id; then returns exactly the contradiction conflicts in node order |
| ValidationAgent.DetectCircularDependencies | src/agents/validation_agent.py:392-411 | exactly one critical conflict per cycle the cycle search reports, in its order, for some result that search may give; none when it raises |
| ValidationAgent.CircularOfCycles | src/agents/validation_agent.py:392-411 | so every circular conflict names a cycle of the graph and is critical; every self-loop is reported; none for an acyclic graph, a list of nodes or no nodes; at least one for a dictionary of nodes with a cycle |
| ValidationAgent.ConditionsOverlapSymmetric | src/agents/validation_agent.py:559-575 | overlap does not depend on argument order |
| ValidationAgent.ConditionsOverlapCaseless | src/agents/validation_agent.py:565-566 | overlap ignores letter case |
| ValidationAgent.ConditionsOverlapWordCount | src/agents/validation_agent.py:565-575 | overlapping conditions both have at least two words |
| ValidationAgent.Decisions | src/agents/validation_agent.py:529 | exactly the decision nodes are kept |
| ValidationAgent.RowExactly | src/agents/validation_agent.py:532-544 | row `i` reports exactly the later nodes whose conditions overlap node `i`'s |
| ValidationAgent.RowsExactly | src/agents/validation_agent.py:532-544 | each unordered pair `i < j` is compared once and reported iff it overlaps; every conflict is low-severity with two ids |
| ValidationAgent.ScanOverlaps | src/agents/validation_agent.py:532-544 | the nested loops succeed iff every flagged pair has ids, and then return the row-ordered pair conflicts |
| ValidationAgent.DetectOverlappingConditions | src/agents/validation_agent.py:518-546 | the pair scan over the decision nodes with the keyword-overlap test |
| ValidationAgent.NodeRefs | src/agents/validation_agent.py:437-443 | one node's references raise `TypeError` iff its dictionary connections hold a nested dictionary |
| ValidationAgent.ReferencedIds | src/agents/validation_agent.py:435-443 | collecting references fails only with `TypeError` |
| ValidationAgent.ReferencedIdsExactly | src/agents/validation_agent.py:435-443 | raises iff some node raises; otherwise the union of the nodes' references |
| ValidationAgent.CollectReferenced | src/agents/validation_agent.py:435-443 | the loop computes `ReferencedIds` |
| ValidationAgent.PathTexts | src/agents/validation_agent.py:463-478 | only truthy condition texts, at most one per id |
| ValidationAgent.NonEmptyIds | src/agents/validation_agent.py:475-476 | exactly the truthy ids |
| ValidationAgent.RecordSignatureEmpty | src/agents/validation_agent.py:488 | a path's signature is empty iff no node before its last has a condition text |
| ValidationAgent.BuildRecord | src/agents/validation_agent.py:458-488 | the inner loop computes the path record (texts of all but the last node, every id) |
| ValidationAgent.AddRecord | src/agents/validation_agent.py:490-495 | `setdefault(...).append`: the record joins its outcome's group, nothing else changes, and a new outcome goes last in key order |
| ValidationAgent.OutcomeNodes | src/agents/validation_agent.py:429 | exactly the nodes with a `decision` |
| ValidationAgent.StartCandidates | src/agents/validation_agent.py:446 | exactly the nodes whose id nobody references |
| ValidationAgent.NonOutcomes | src/agents/validation_agent.py:450 | exactly the nodes without a `decision` |
| ValidationAgent.RecordedPath | src/agents/validation_agent.py:452-495 | a simple path from a node to an outcome node yields a record of that outcome |
| ValidationAgent.CollectOutcomePaths | src/agents/validation_agent.py:427-498 | the grouping is well ordered and every record comes from a simple path ending at a node with that decision; nothing for a node list |
| ValidationAgent.SigMemoryFirst | src/agents/validation_agent.py:501-514 | `condition_sets` binds each non-empty signature seen to the ids of the first record with it |
| ValidationAgent.GroupFlagsExactly | src/agents/validation_agent.py:501-514 | a medium redundant conflict is reported for exactly each record repeating an earlier non-empty signature, listing the later ids then the first ones |
| ValidationAgent.RedundantConflictsKinds | src/agents/validation_agent.py:507-512 | every conflict of the flagging pass is a medium redundant one |
| ValidationAgent.FlagRedundant | src/agents/validation_agent.py:500-515 | the flagging loops compute the conflicts of every outcome group in key order |
| ValidationAgent.DetectRedundantPaths | src/agents/validation_agent.py:413-516 | the conflicts flagged over a sound grouping of recorded paths, all medium; none for a node list |
| ValidationAgent.EvaluateCondition | src/agents/validation_agent.py:821-866 | the true labels hold, the false labels fail (case-insensitively); any other text holds unless the numeric comparison says it fails |
| ValidationAgent.BooleanLabelsCaseless | src/agents/validation_agent.py:824-830 | two case variants of one boolean label evaluate alike |
| ValidationAgent.FirstLabelled | src/agents/validation_agent.py:805-809 | the target of the first label that holds; None when no label holds |
| ValidationAgent.FirstRecord | src/agents/validation_agent.py:810-817 | the `to` or `target_node_id` of the first record whose condition holds; None when none holds |
| ValidationAgent.FindStart | src/agents/validation_agent.py:247-279 | a truthy `start_node_id` wins; otherwise some unreferenced id, else the first node (or None for no nodes); raises `TypeError` iff collecting references raises |
| ValidationAgent.Walk | src/agents/validation_agent.py:282-319 | the path starts at the start id's node; each later node is the lookup of the previous node's truthy choice; no id is entered twice and no node before the last is terminal; the walk stops exactly at a terminal node, a None or falsy choice, an id already entered or an id that is not found; a nested-dictionary choice raises `TypeError`; at most one node per id |
| ValidationAgent.WalkResultUnique | src/agents/validation_agent.py:282-319 | these stopping conditions fix the result: two results that both meet them are equal |
| ValidationAgent.WalkFrom | src/agents/validation_agent.py:282-319 | the walk over the graph's own lookup and first-holding-connection choice: at most one node per node, all from the tree, each linked to the next by that choice; no nodes give the empty path |
| ValidationAgent.TraverseTreeWalk | src/agents/validation_agent.py:241-319 | the walk from a start `_find_start_node` may choose, or the empty path when there is no start; `TypeError` when collecting references or the walk raises; the path lies in the tree and is linked connection by connection |
| ValidationAgent.ScenarioOutcome | src/agents/validation_agent.py:223-231 | "No outcome reached" for an empty path, the outcome's decision at an outcome node, otherwise the incomplete-path note |
| ValidationAgent.NoOutcomeScenarios | src/agents/validation_agent.py:326 | empty iff every scenario reached an outcome |
| ValidationAgent.ReachedOutcomes | src/agents/validation_agent.py:332 | never contains "No outcome reached" |
| ValidationAgent.ShortPaths | src/agents/validation_agent.py:337 | zero iff every reached outcome took at least three nodes |
| ValidationAgent.NoOutcomeSuggestion | src/agents/validation_agent.py:326-329 | one suggestion iff some scenario reached no outcome |
| ValidationAgent.SameOutcomeSuggestion | src/agents/validation_agent.py:332-334 | one suggestion iff more than two reached outcomes are all equal |
| ValidationAgent.ShortPathSuggestion | src/agents/validation_agent.py:337-339 | one suggestion iff some reached outcome has a short path |
| ValidationAgent.AnalyzeTestResults | src/agents/validation_agent.py:321-341 | at most three suggestions, none iff none of the three findings applies |
| ValidationAgent.AnalyzeTestResultsEmpty | src/agents/validation_agent.py:321-341 | no suggestion iff every scenario reached an outcome, the outcomes are not uniformly one over more than two, and no reached path is short |
| ValidationAgent.FewScenariosNoSameOutcome | src/agents/validation_agent.py:333 | with two scenarios the same-outcome suggestion never appears |
| ValidationAgent.EdgeCaseResults | src/agents/validation_agent.py:206-239 | the elderly then the young scenario, each path the walk under that scenario's numeric comparison, each outcome the one its path yields; an error is one of the two walks' errors |
| ValidationAgent.IssueOf | src/agents/validation_agent.py:713-715 | the issue built from a parsed string is a valid issue with that node id and explanation |
| ValidationAgent.KeptIssues | src/agents/validation_agent.py:704-715 | every kept item has both issue keys, and nothing is added |
| ValidationAgent.KeptIssuesKeepsWellFormed | src/agents/validation_agent.py:708-710 | a list of issue dictionaries passes unchanged |
| ValidationAgent.KeptIssuesIdempotent | src/agents/validation_agent.py:697-717 | salvaging twice equals salvaging once |
| ValidationAgent.KeepIssues | src/agents/validation_agent.py:707-715 | the loop computes the kept issues |
| ValidationAgent.SalvageConsistencyResult | src/agents/validation_agent.py:697-717 | `{"issues": kept}` from an `issues` list, `{"issues": []}` otherwise |
| ValidationAgent.ValidResultSurvivesSalvage | src/agents/validation_agent.py:674-717 | a result passing the shape check keeps all its issues through salvage |
| ValidationAgent.ValidateIssuesFormat | src/agents/validation_agent.py:776-798 | the issue list after validation is the salvageable items |
| ValidationAgent.CircularThenRedundant | src/agents/validation_agent.py:47-53 | the circular detector's conflicts followed by the redundant detector's |
| ValidationAgent.CycleReported | src/agents/validation_agent.py:47-49 | a dictionary of nodes with a cycle puts a circular conflict naming a cycle among the rule-based conflicts |
| ValidationAgent.RuleConflicts | src/agents/validation_agent.py:42-60 | succeeds iff the contradiction and overlap scans succeed; then the contradictions, the circular conflicts, the redundant conflicts and the overlaps, each exactly as its detector reports them |
| ValidationAgent.Validate | src/agents/validation_agent.py:19-76 | valid iff there are no issues and no conflicts; the issues are the salvaged logic issues, then completeness, then ambiguity; the conflicts are those of the four detectors in order; the suggestions are the analysis of the two scenario walks, at most two of them; a dictionary of nodes with a cycle is never valid |
| ConflictResolver.KindName | src/agents/conflict_resolver.py:52-59 | each detector kind maps to one of the four handler keys |
| ConflictResolver.KindNamesDistinct | src/agents/conflict_resolver.py:52-59 | different detector kinds reach different handlers |
| ConflictResolver.Kept | src/agents/conflict_resolver.py:76-91 | grouping keeps at most the input |
| ConflictResolver.KeptExactly | src/agents/conflict_resolver.py:76-91 | exactly the dictionaries and the wrapped strings are kept |
| ConflictResolver.OfKind | src/agents/conflict_resolver.py:93-96 | a kind's list is no longer than the input |
| ConflictResolver.OfKindExactly | src/agents/conflict_resolver.py:93-96 | a kind's list holds exactly the conflicts of that kind |
| ConflictResolver.OfKindAbsent | src/agents/conflict_resolver.py:93-96 | a kind no conflict has gets an empty list |
| ConflictResolver.KindsInOrderExactly | src/agents/conflict_resolver.py:93-96 | each kind present is a group key once, and only those |
| ConflictResolver.AppendGroups | src/agents/conflict_resolver.py:93-96 | appending one conflict keeps the grouping of the longer list |
| ConflictResolver.GroupConflictsByType | src/agents/conflict_resolver.py:73-97 | the result is the grouping of the kept conflicts by kind |
| ConflictResolver.GroupedOnce | src/agents/conflict_resolver.py:93-96 | every kept conflict is in its own kind's group and in no other |
| ConflictResolver.AskEach | src/agents/conflict_resolver.py:104-134 | every conflict ends resolved or unresolved, never both |
| ConflictResolver.AskEachSplits | src/agents/conflict_resolver.py:104-134 | answered conflicts are resolved with the model's text and the fixed action; the rest are unresolved |
| ConflictResolver.AskOracle | src/agents/conflict_resolver.py:104-140 | the loop computes `AskEach` without touching the tree |
| ConflictResolver.ResolveContradictoryPaths | src/agents/conflict_resolver.py:99-140 | the oracle loop with the contradiction action |
| ConflictResolver.ResolveOverlappingConditions | src/agents/conflict_resolver.py:254-294 | the oracle loop with the overlap action |
| ConflictResolver.NodeStore.SetKey | src/agents/conflict_resolver.py:180-183 | `nodes[k] = o` replaces an existing key's node in place or appends a new entry |
| ConflictResolver.CycleEdge | src/agents/conflict_resolver.py:158-168 | the cut edge ends at the cycle's first node, or at its last for a closed cycle |
| ConflictResolver.CycleEdgeOnCycle | src/agents/conflict_resolver.py:158-168 | on a reported cycle the cut edge ends at the first node and is an edge of the graph |
| ConflictResolver.DropTo | src/agents/conflict_resolver.py:173-177 | raises iff the connections are a non-empty dictionary; otherwise keeps only old records and none whose `to` is the target |
| ConflictResolver.FindFrom | src/agents/conflict_resolver.py:171-172 | the index of the first node with the source id, or the length when none |
| ConflictResolver.BreakCycle | src/agents/conflict_resolver.py:156-198 | fewer than two ids is unresolved; no source node is silent; labelled connections are unresolved; otherwise exactly the source node loses its records to the target, a dictionary container re-binds the source id to it (keys and nodes stated exactly), and the cut message is recorded; nothing changes when unresolved or silent |
| ConflictResolver.ResolveCircularDependencies | src/agents/conflict_resolver.py:142-204 | nodes only lose connection records; the container keeps its kind and loses no key; short conflicts are unresolved; every resolution is a circular one of an input conflict |
| ConflictResolver.RemovalHalves | src/agents/conflict_resolver.py:224 | of distinct ids, the second half is removed and the first half kept |
| ConflictResolver.PruneConns | src/agents/conflict_resolver.py:230-235 | raises iff the connections are a non-empty dictionary; otherwise no record points at a removed id and only old records remain |
| ConflictResolver.PruneClean | src/agents/conflict_resolver.py:230-235 | pruning clean connections changes nothing |
| ConflictResolver.Surviving | src/agents/conflict_resolver.py:227 | the survivors are nodes of the input, no more of them |
| ConflictResolver.SurvivingExactly | src/agents/conflict_resolver.py:227 | exactly the nodes whose id is not removed survive |
| ConflictResolver.SurvivingShrinks | src/agents/conflict_resolver.py:224-227 | the node count drops when some node has a removed id |
| ConflictResolver.PruneAll | src/agents/conflict_resolver.py:230-235 | succeeds iff no node has labelled connections; then every node is clean, and nodes only lose records |
| ConflictResolver.InstallSurvivors | src/agents/conflict_resolver.py:227-235 | a fresh node list of the survivors replaces the nodes; removed nodes are untouched; survivors are pruned |
| ConflictResolver.PruneRedundant | src/agents/conflict_resolver.py:219-246 | silent iff at most one id; a dictionary of nodes fails; otherwise the survivors of the starting nodes are installed and the removal message is recorded |
| ConflictResolver.RedundantTally | src/agents/conflict_resolver.py:218-246 | failures and resolutions are multi-id input conflicts; resolutions carry the removal message; a dictionary fails all of them; clean list nodes resolve all of them |
| ConflictResolver.RedundantLoop | src/agents/conflict_resolver.py:218-246 | the conflict loop: verdicts fit their conflicts and the node list is that of the last multi-id conflict |
| ConflictResolver.ResolveRedundantPaths | src/agents/conflict_resolver.py:206-252 | the nodes left are the survivors of the last multi-id conflict; a conflict naming at most one id leaves no trace; a dictionary fails every multi-id conflict; clean list nodes resolve all of them |
| ConflictResolver.ResolveGroup | src/agents/conflict_resolver.py:51-65 | each conflict of the group is settled as its handler settles it; oracle groups leave the tree alone; every handler but the redundant one keeps the container, a non-empty dictionary stays one and a clean list stays clean |
| ConflictResolver.CircularGroup | src/agents/conflict_resolver.py:54-55 | the circular group is settled; a non-empty dictionary stays one and a clean list stays clean |
| ConflictResolver.RedundantGroup | src/agents/conflict_resolver.py:56-57 | a redundant conflict naming at most one id leaves no trace; one naming several fails on a non-empty dictionary and is resolved on a clean list |
| ConflictResolver.SettledStep | src/agents/conflict_resolver.py:63-65 | extending the reports with another kind's group keeps the earlier kinds settled and settles the new one |
| ConflictResolver.DispatchGroups | src/agents/conflict_resolver.py:51-65 | every grouped conflict is settled, redundant ones by the container as it was at the start, and only input conflicts are reported; nodes only lose connection records |
| ConflictResolver.ResolveConflicts | src/agents/conflict_resolver.py:17-71 | no conflicts changes nothing; every kept conflict is settled by its handler: an answered contradiction or overlap is resolved with the answer, an unanswered one is unresolved, a short circular conflict is unresolved, a redundant conflict naming at most one id leaves no trace and one naming several fails when the nodes were a non-empty dictionary and is resolved when they were a list without labelled connections, and an unknown kind is unresolved; the tree changes only by the circular and redundant handlers |
| ConflictResolver.CircularCutMissesTargetEdge | src/agents/conflict_resolver.py:171-177 | a self-loop written with `target_node_id` survives the cut (Finding 1) |
| ConflictResolver.DropEdgesTo | src/agents/conflict_resolver.py:173-177 | the intended cut raises iff the connections are labelled |
| ConflictResolver.DropEdgesToCutsEdge | src/agents/conflict_resolver.py:171-183 | with the intended cut the reported edge is gone from the graph |
| ConflictResolver.RedundantLastWins | src/agents/conflict_resolver.py:218-235 | with conflicts `[A,B]` then `[C,D]`, node B survives (Finding 2) |
| ConflictResolver.FilterEach | src/agents/conflict_resolver.py:218-235 | the intended sequential filter never grows the list |
| ConflictResolver.FilterEachExactly | src/agents/conflict_resolver.py:218-235 | a node survives iff no multi-id conflict removes it |
| CriteriaParser.MatchesAny | src/core/criteria_parser.py:149-161 | true iff some pattern occurs in the text |
| CriteriaParser.CriterionTypeCases | src/core/criteria_parser.py:144-164 | exclusionary iff an exclusionary phrase occurs; documentation iff a documentation phrase but no exclusionary one; threshold iff neither but a threshold phrase or number; required otherwise |
| CriteriaParser.ExclusionaryFirstType | src/core/criteria_parser.py:148-151 | an exclusionary phrase decides the type |
| CriteriaParser.IdsWhereMembers | src/core/criteria_parser.py:280-292 | the ids kept are those of the criteria passing the test |
| CriteriaParser.IdsWhereCount | src/core/criteria_parser.py:280-292 | with unique ids each passing id occurs once, others never |
| CriteriaParser.IdsWhereUnique | src/core/criteria_parser.py:280-292 | with unique ids membership is the test |
| CriteriaParser.ClassesPartition | src/core/criteria_parser.py:264-273 | the four class lists together are as long as the input |
| CriteriaParser.CriterionIdInjective | src/core/criteria_parser.py:72 | distinct positions give distinct ids |
| CriteriaParser.ParseItems | src/core/criteria_parser.py:71-83 | criterion `i` is the parse of item `i` with id `criterion_i`, and each category list holds exactly the ids of the criteria of that type, in order |
| CriteriaParser.ParsedCategories | src/core/criteria_parser.py:71-83 | the ids are distinct, so each criterion sits in exactly the category of its own type |
| CriteriaParser.ParseCriteriaText | src/core/criteria_parser.py:56-85 | one criterion per item with ids `criterion_1`, …; AND structure; unique ids; each id in exactly its type's category; the categories partition the list |
| CriteriaParser.LongFragments | src/core/criteria_parser.py:119-124 | keeps at most the fragments |
| CriteriaParser.LongFragmentsEmpty | src/core/criteria_parser.py:119-127 | empty iff every cleaned fragment has at most ten characters |
| CriteriaParser.LongFragmentsKept | src/core/criteria_parser.py:119-124 | what is kept is a cleaned fragment of more than ten characters |
| CriteriaParser.SplitCriteriaFallback | src/core/criteria_parser.py:119-127 | never empty: the long fragments, or the stripped text when there are none |
| CriteriaParser.EvaluationOrder | src/core/criteria_parser.py:277-294 | at most one entry per criterion |
| CriteriaParser.OrderedCount | src/core/criteria_parser.py:280-294 | the five type filters together pick each criterion at most once |
| CriteriaParser.EvaluationOrderMembers | src/core/criteria_parser.py:280-294 | exactly the ids of criteria with a known type |
| CriteriaParser.EvaluationOrderOnce | src/core/criteria_parser.py:280-294 | with unique ids each known-type criterion is ordered once |
| CriteriaParser.ExclusionaryFirst | src/core/criteria_parser.py:277-294 | every exclusionary id precedes every other ordered id |
| CriteriaParser.GroupRelatedCriteria | src/core/criteria_parser.py:255-275 | the groups partition the criteria; untyped criteria are eligibility; with unique ids each id is in its class's group only |
| CriteriaParser.DependenciesOthers | src/core/criteria_parser.py:305-317 | a dependency is another criterion's id |
| CriteriaParser.CollectDependencies | src/core/criteria_parser.py:302-317 | the inner loop computes the criterion's dependencies |
| CriteriaParser.BuildDependencyMap | src/core/criteria_parser.py:296-321 | one key per id with the last such criterion's dependencies; no id depends on itself; every dependency is an id |
| CriteriaParser.ParsedDict | src/core/criteria_parser.py:62-69 | the parsed dictionary has exactly its six keys |
| CriteriaParser.EnhanceCriteriaRelationships | src/core/criteria_parser.py:234-253 | a copy with the groups, evaluation order and dependency map added and every other key kept |
| CriteriaParser.EnhancedParsedKeys | src/core/criteria_parser.py:246-253 | a parsed result is well formed and enhancing it adds three new keys |
| Tracker.TotalApiCalls | src/demo/tracker.py:41-44 | no steps, no calls |
| Tracker.TotalTokens | src/demo/tracker.py:46-49 | no steps, no tokens |
| Tracker.TotalsAppend | src/demo/tracker.py:41-49 | the totals add over a split of the steps |
| Tracker.TotalApiCallsBound | src/demo/tracker.py:41-44 | each step's calls are within the total |
| Tracker.StartSessionOn | src/demo/tracker.py:76-79 | the session starts now with an empty history; document and step untouched |
| Tracker.FinishStepOn | src/demo/tracker.py:179-208 | raises `ValueError` iff no step or no document; otherwise the completed step joins the document and the totals grow by its counts |
| Tracker.FinishDocumentOn | src/demo/tracker.py:102-132 | raises `ValueError` iff no document; otherwise an open step is finished with the same outcome and the completed document joins the history |
| Tracker.StartDocumentOn | src/demo/tracker.py:81-100 | an open document is closed as failed with the interruption message; a fresh document becomes current |
| Tracker.StartStepOn | src/demo/tracker.py:155-177 | raises `ValueError` iff no document; an open step is finished successfully; a fresh step becomes current |
| Tracker.AddApiCallOn | src/demo/tracker.py:210-219 | one more call and the tokens on the open step, nothing else changed; no step, no change |
| Tracker.FinishStepValid | src/demo/tracker.py:179-208 | finishing a step keeps the tracker well formed |
| Tracker.FinishDocumentValid | src/demo/tracker.py:102-132 | finishing a document keeps the tracker well formed |
| Tracker.StartDocumentValid | src/demo/tracker.py:81-100 | starting a document keeps the tracker well formed |
| Tracker.StartStepValid | src/demo/tracker.py:155-177 | starting a step keeps the tracker well formed |
| Tracker.SessionAndCallsValid | src/demo/tracker.py:76-79 | starting a session and counting a call keep the tracker well formed |
| Tracker.GuardsArePresence | src/demo/tracker.py:113-118 | in a well-formed tracker a current step or document is an open one |
| Tracker.SessionSummaryOf | src/demo/tracker.py:232-283 | none before a session; the total is the history length, failed is total minus successful, and the status is active iff a document is open |
| Tracker.FinishDocumentCounts | src/demo/tracker.py:245-256 | finishing a document adds one to the total and to successful or failed by its outcome, and its calls to the session's |
| Tracker.ProgressTracker.constructor | src/demo/tracker.py:69-74 | starts in the initial, well-formed state |
| Tracker.ProgressTracker.StartSession | src/demo/tracker.py:76-79 | the new state is `StartSessionOn` of the old |
| Tracker.ProgressTracker.FinishStep | src/demo/tracker.py:179-208 | the new state and result are `FinishStepOn` of the old |
| Tracker.ProgressTracker.FinishDocument | src/demo/tracker.py:102-132 | the new state and result are `FinishDocumentOn` of the old |
| Tracker.ProgressTracker.StartDocument | src/demo/tracker.py:81-100 | the new state and result are `StartDocumentOn` of the old |
| Tracker.ProgressTracker.StartStep | src/demo/tracker.py:155-177 | the new state and result are `StartStepOn` of the old |
| Tracker.ProgressTracker.AddApiCall | src/demo/tracker.py:210-219 | the new state is `AddApiCallOn` of the old |
| Tracker.ProgressTracker.GetDocumentSummary | src/demo/tracker.py:285-307 | the summary of the first document with that name; None iff there is none |
| DocumentSetManager.Body | src/utils/document_set_manager.py:20 | `$` matches at the end or before one final newline |
| DocumentSetManager.MatchSep | src/utils/document_set_manager.py:18-23 | a match gives a non-empty base without newline and a known type, and the name is base, separator, type, `.txt` |
| DocumentSetManager.ClassifySound | src/utils/document_set_manager.py:84-90 | only `<base>_<type>.txt` and `<base>-<type>.txt` names match, to their base and type |
| DocumentSetManager.TypesByLastLetter | src/utils/document_set_manager.py:20-22 | the four types end in distinct letters |
| DocumentSetManager.TailUnique | src/utils/document_set_manager.py:20-22 | one body cannot end in two types' tails |
| DocumentSetManager.MatchSepFinds | src/utils/document_set_manager.py:86-88 | a name of the pattern's form matches to its base and type |
| DocumentSetManager.OtherSeparator | src/utils/document_set_manager.py:86-88 | a body ending in one separator's tail ends in no tail of the other |
| DocumentSetManager.MatchSepMisses | src/utils/document_set_manager.py:86-88 | the underscore pattern misses a dash name |
| DocumentSetManager.ClassifyComplete | src/utils/document_set_manager.py:84-103 | every name of either form is classified to its own base and type |
| DocumentSetManager.Compound | src/utils/document_set_manager.py:94-98 | either unchanged, or a type ending the base moves to the front of the type; unchanged when none ends it |
| DocumentSetManager.AppendTo | src/utils/document_set_manager.py:100-102 | `setdefault(k, []).append(e)` extends `k`'s group in place or appends a new group |
| DocumentSetManager.GroupsOf | src/utils/document_set_manager.py:83-103 | the grouping has unique keys |
| DocumentSetManager.GroupsOfMembers | src/utils/document_set_manager.py:83-103 | each group holds exactly its base's matching paths in order, and every base has a group |
| DocumentSetManager.GroupsNonEmpty | src/utils/document_set_manager.py:100-102 | no group is empty |
| DocumentSetManager.Largest | src/utils/document_set_manager.py:109-110 | the first group of largest size |
| DocumentSetManager.DocumentsOf | src/utils/document_set_manager.py:120-127 | the document dictionary has unique ids |
| DocumentSetManager.DocumentsOfKeyList | src/utils/document_set_manager.py:120-127 | a document for every id of the group and no other |
| DocumentSetManager.DocumentsOfLast | src/utils/document_set_manager.py:120-127 | each id holds the metadata of its last file |
| DocumentSetManager.PrimaryIsFirst | src/utils/document_set_manager.py:129-133 | the loop's primary is always the first file (Finding 3) |
| DocumentSetManager.Select | src/utils/document_set_manager.py:136-137 | exactly the ids passing the test |
| DocumentSetManager.Cross | src/utils/document_set_manager.py:139-145 | one relationship per pair |
| DocumentSetManager.CrossExactly | src/utils/document_set_manager.py:139-145 | exactly the source-target pairs, cross-referenced, without references |
| DocumentSetManager.PatternSetSpec | src/utils/document_set_manager.py:78-153 | a set iff a largest group has at least two files; its primary is that group's first file, its ids are base and type, its relationships every insurance/policy id against every guidelines/clinical id |
| DocumentSetManager.GroupByPatterns | src/utils/document_set_manager.py:78-153 | the method computes `PatternSet` |
| DocumentSetManager.CollectGroups | src/utils/document_set_manager.py:83-103 | the first loop computes the grouping |
| DocumentSetManager.CollectDocuments | src/utils/document_set_manager.py:120-133 | the loop computes the documents and the as-written primary |
| DocumentSetManager.CrossReference | src/utils/document_set_manager.py:135-145 | the relationship loops compute the cross product |
| DocumentSetManager.IdentifyDocumentSet | src/utils/document_set_manager.py:25-39 | a single path or fewer than two paths give none; a manifest wins; otherwise the pattern grouping |
| DocumentSetManager.PrimaryIgnoresInsurance | src/utils/document_set_manager.py:129-133 | guidelines then insurance gives the guidelines primary (Finding 3) |
| DocumentSetManager.PreferredPrimary | src/utils/document_set_manager.py:129-133 | the intended primary exists iff the group is non-empty |
| DocumentSetManager.FirstInsurance | src/utils/document_set_manager.py:129-131 | the index of the first insurance or policy file, or the length |
| DocumentSetManager.PreferredPrimarySpec | src/utils/document_set_manager.py:129-133 | the intended primary is the first insurance/policy file when there is one, else the first file |
| MultiDocumentAdapters.Assign | src/adapters/multi_document_adapter.py:112 | the key is present after `d[key] = v` |
| MultiDocumentAdapters.AssignField | src/adapters/multi_document_adapter.py:112 | after `d[key] = v` the key holds `v` and every other key what it held |
| MultiDocumentAdapters.Iterate | src/adapters/multi_document_adapter.py:172 | lists give their items, strings characters, dictionaries keys; other values raise `TypeError` |
| MultiDocumentAdapters.GatherStep | src/adapters/multi_document_adapter.py:107-113 | one more item extends the list or ends it with the item's error |
| MultiDocumentAdapters.GatherStops | src/adapters/multi_document_adapter.py:107-113 | the first failure is the outcome |
| MultiDocumentAdapters.GatherOk | src/adapters/multi_document_adapter.py:107-113 | completes iff no item fails; an error is some item's error |
| MultiDocumentAdapters.GatherMembers | src/adapters/multi_document_adapter.py:107-113 | the list holds exactly the items' contributions |
| MultiDocumentAdapters.GatherSize | src/adapters/multi_document_adapter.py:107-113 | nothing dropped, nothing doubled |
| MultiDocumentAdapters.GatherOneEach | src/adapters/multi_document_adapter.py:107-113 | one value per item gives those values in order |
| MultiDocumentAdapters.CriteriaOfTopFirst | src/adapters/multi_document_adapter.py:169-172 | a non-dictionary has no criteria; the tree's own come first |
| MultiDocumentAdapters.NestedMembers | src/adapters/multi_document_adapter.py:173-180 | the nested contributions are exactly the entries' criteria |
| MultiDocumentAdapters.CriteriaOfMembers | src/adapters/multi_document_adapter.py:163-182 | extracted iff own, a node's, or a decision point's criterion |
| MultiDocumentAdapters.ExtendFrom | src/adapters/multi_document_adapter.py:173-180 | the loop extends the list with every entry's criteria or raises |
| MultiDocumentAdapters.ExtractCriteriaFromTree | src/adapters/multi_document_adapter.py:163-182 | the method computes `CriteriaOf` |
| MultiDocumentAdapters.SupplementaryCriteriaSpec | src/adapters/multi_document_adapter.py:106-113 | every collected criterion is attributed to a supplementary document, and every parsed criterion is collected with its attribution, once per occurrence |
| MultiDocumentAdapters.MergeOfErrors | src/adapters/multi_document_adapter.py:97-161 | a non-dictionary primary raises `AttributeError`; a non-dictionary tree `TypeError`; a collection error is a document's error |
| MultiDocumentAdapters.MergeKeepsTree | src/adapters/multi_document_adapter.py:103 | every key of the primary tree keeps its value except the two extended |
| MultiDocumentAdapters.MergeSections | src/adapters/multi_document_adapter.py:116-129 | a section holding all collected criteria is appended iff some were collected |
| MultiDocumentAdapters.MergeRecords | src/adapters/multi_document_adapter.py:132-159 | the metadata records the strategy, document count, primary and supplementary ids; the source list is primary then supplementary |
| MultiDocumentAdapters.AttributedInOrder | src/adapters/multi_document_adapter.py:109-113 | the copies are the criteria in order with `source_document` set and other keys kept |
| MultiDocumentAdapters.AttributeCriteria | src/adapters/multi_document_adapter.py:109-113 | the loop computes the attributed copies |
| MultiDocumentAdapters.CollectSupplementary | src/adapters/multi_document_adapter.py:106-113 | the loop computes the supplementary criteria |
| MultiDocumentAdapters.SimpleMerge | src/adapters/multi_document_adapter.py:97-161 | the method computes `MergeOf` |
| MultiDocumentAdapters.MultiDocumentAdapter.constructor | src/adapters/multi_document_adapter.py:11-13 | the cache starts empty |
| MultiDocumentAdapters.MultiDocumentAdapter.Remember | src/adapters/multi_document_adapter.py:57 | the result is stored under its document id |
| MultiDocumentAdapters.MultiDocumentAdapter.ClearCache | src/adapters/multi_document_adapter.py:184-186 | the cache is empty afterwards |
| Schemas.FromDict | src/core/schemas.py:9-12 | one pair per binding, in order |
| Schemas.ToDict | src/core/schemas.py:14-17 | unique keys, no more bindings than pairs |
| Schemas.EmptyConversions | src/core/schemas.py:9-17 | both conversions take nothing to nothing |
| Schemas.ToDictKeys | src/core/schemas.py:14-17 | exactly the keys of the pairs |
| Schemas.ToDictLastWins | src/core/schemas.py:14-17 | each key holds its last pair's value |
| Schemas.DictRoundTrip | src/core/schemas.py:9-17 | a dictionary survives the round trip through pairs |
| Schemas.PairsRoundTrip | src/core/schemas.py:9-17 | pairs survive the round trip iff their keys are distinct |
| Schemas.DistinctPairsRoundTrip | src/core/schemas.py:9-17 | distinct-key pairs survive the round trip |
| Schemas.ToDictShrinks | src/core/schemas.py:14-17 | a repeated key makes the dictionary smaller |

## Left out

- Language-model calls are not modelled. They become inputs or oracle parameters:
  - the logical-consistency check with its retry loop (`_check_logical_consistency_with_retry`);
  - `_parse_string_issue`;
  - the completeness and ambiguity checks;
  - the resolver's two oracle handlers.
- The numeric branch of `_evaluate_condition` (regular expressions and floating-point comparison)
  is the parameter `numeric`.
- The pydantic-object branch of `_validate_issues_format` is not modelled: `Value` has no objects.
- The start node chosen by `_traverse_tree` depends on set iteration order, so the model allows any
  unreferenced id.
- Logging and `TraversalConfig.log_warnings` are left out: they have no effect on results.
- Criteria parsing:
  - The `\d` threshold patterns are the parameter `digits`.
  - The numbered and bullet branches of `_split_criteria` are not modelled. Their fragments
    arrive as the input `pieces`.
  - Description and medical-condition extraction are parameters. The `thresholds` and
    `exceptions` fields of a parsed criterion are left out.
- `Lower` folds ASCII letters only, and `IsSpace` (hence `Strip` and `Split`) knows ASCII
  whitespace only. Python's `str.lower`, `str.strip` and `str.split` are Unicode-aware.
- Tracker:
  - Time is an integer `now`.
  - Durations, averages and rates are floating point and left out.
  - `track_step`, `add_custom_metric`, step durations, the step performance summary and export
    are left out: they are context managers, I/O and floating point.
- Document sets:
  - Manifest discovery and loading are the parameter `manifest`; `create_manifest` (file
    writing) is left out.
  - The random set id is the parameter `hex`.
  - A path is its string, its parent's name and its file name.
- The document-set, relationship and unified-tree types are not part of this model's source. Their
  fields are taken from the constructor calls, and the relationship value `primary_supplementary`
  is assumed.
- Multi-document adapter:
  - Document processing (`process_document_set`, `_process_primary`,
    `_process_supplementary_docs`) reads files and calls the parser and generator. It is left out.
  - Cache writes are `Remember`.
  - Deep copies are values, so aliasing is not modelled.
- Schemas: keys and values are strings, so `str()` of other types is not modelled. The other
  pydantic schema classes are plain data and are left out.
- A dictionary key present with value None is treated like an absent key.
- A keyed node container has unique keys, as Python dictionaries do.
- TreeTraversal.SafeTreeTraverser.TraverseTree: states that the visited set contains the start and
  lies within the depth-bounded reach. It does not state that the set equals exactly the pushed
  ids.
- TreeTraversal.ValidateTreeStructure: does not state which roots yield a circular-reference issue,
  only that every issue after the structural ones is one.
- A node value is always a dictionary in this model, so the "is not a dictionary" issue of a single
  node (src/utils/tree_traversal.py:204-206) cannot arise.
- ValidationAgent.Walk: two falsy-dictionary cases are not modelled. An empty dictionary as the next
  target ends the Python loop, and the model raises `TypeError` as for any nested dictionary. A found
  node that is an empty dictionary stops the Python walk before it is appended, and the model appends
  it.
- TreeTraversal.FindAllPaths, TreeTraversal.DetectCircularReferences: stated by membership. Two
  records of one node with the same target make the code report the same path or cycle twice, and
  the contracts do not count repetitions.
- ValidationAgent.CollectOutcomePaths: states soundness only. Every record comes from a simple path
  to an outcome; that every such path is recorded is not stated.
- ValidationAgent.DetectRedundantPaths: inherits the soundness-only grouping of
  `CollectOutcomePaths`.
- ConflictResolver.ResolveConflicts: the verdict on a redundant conflict naming several ids is not
  stated when the nodes start as an empty dictionary (it depends on whether the circular handler added
  a key before the redundant group's turn) or as a list where some node has labelled connections (it
  depends on which nodes the conflict removes); `ResolveRedundantPaths` fixes it conflict by conflict.
- ConflictResolver.ResolveCircularDependencies: states bounds and membership for the whole
  handler. The exact effect of each conflict on the nodes and the container is stated by
  `BreakCycle`.

## Findings

| source | as written | input that shows it | evidently intended | confidence | as-written member | corrected member |
|---|---|---|---|---|---|---|
| src/agents/conflict_resolver.py:171-177 | the circular handler drops records whose `to` is the target, but the cycle was found by following `target_node_id` | node `a` with one record `{target_node_id: "a"}`: cycle `[a, a]` is reported cut, yet the edge stays | drop every record leading to the target, by `to` or `target_node_id` | not executed | ConflictResolver.CircularCutMissesTargetEdge | ConflictResolver.DropEdgesToCutsEdge |
| src/agents/conflict_resolver.py:218-235 | every redundant conflict filters the node list the handler started from | conflicts `[A,B]` then `[C,D]`: B is removed by the first and restored by the second | each conflict filters the list the previous one left | not executed | ConflictResolver.RedundantLastWins | ConflictResolver.FilterEachExactly |
| src/utils/document_set_manager.py:129-133 | the primary is set when unset for insurance/policy files and also for the first file, so the first file always wins | files `drug_guidelines.txt`, `drug_insurance.txt`: primary `drug_guidelines` | prefer the first insurance or policy document, else the first file | not executed | DocumentSetManager.PrimaryIgnoresInsurance | DocumentSetManager.PreferredPrimarySpec |

The main model (`PatternSet`, `ResolveConflicts`) follows the code as written. The corrected
definitions stand beside it.
