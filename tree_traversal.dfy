/** Safe traversal utilities over a decision graph that may contain cycles:
    a depth- and cycle-bounded walker with a current-path stack, root
    inference, a structural validator, a whole-graph cycle finder and a
    simple-path enumerator. */
module TreeTraversal {
  import opened Base
  import opened Graph

  // =====================================================================
  // SafeTreeTraverser

  datatype TraversalConfig = TraversalConfig(
    maxDepth: int,
    detectCycles: bool,
    raiseOnCycle: bool,
    logWarnings: bool)

  /** `TraversalConfig()` with its declared defaults. */
  const DefaultConfig := TraversalConfig(50, true, false, true)

  /** How a traversal call ends: it returns (None when the branch was cut by
      the depth bound or a cycle), or it raises RecursionError for the cycle
      whose ids it names. */
  datatype Step<R> = Returned(value: Option<R>) | Raised(cycle: seq<string>)

  /** The ids of every node within `k` child steps of `n`. */
  ghost function Reach<N, V>(children: N -> seq<(N, map<string, V>)>, key: N -> string, n: N, k: nat): set<string>
    decreases k, 0
  {
    {key(n)} + (if k == 0 then {} else ReachAll(children, key, children(n), k - 1))
  }

  ghost function ReachAll<N, V>(children: N -> seq<(N, map<string, V>)>, key: N -> string,
                                cs: seq<(N, map<string, V>)>, k: nat): set<string>
    decreases k, 1, |cs|
  {
    if cs == [] then {} else Reach(children, key, cs[0].0, k) + ReachAll(children, key, cs[1..], k)
  }

  lemma {:induction false} ReachAllContains<N, V>(children: N -> seq<(N, map<string, V>)>, key: N -> string,
                                                  cs: seq<(N, map<string, V>)>, i: nat, k: nat)
    requires i < |cs|
    ensures Reach(children, key, cs[i].0, k) <= ReachAll(children, key, cs, k)
    decreases i
  {
    if i > 0 {
      ReachAllContains(children, key, cs[1..], i - 1, k);
    }
  }

  class SafeTreeTraverser {
    const config: TraversalConfig
    var visitedNodes: set<string>
    var currentPath: seq<string>
    var cycleDetected: bool

    /** `SafeTreeTraverser(config)`; a missing configuration means the defaults. */
    constructor (config: Option<TraversalConfig>)
      ensures this.config == (if config.Some? then config.value else DefaultConfig)
      ensures visitedNodes == {} && currentPath == [] && !cycleDetected
    {
      this.config := if config.Some? then config.value else DefaultConfig;
      visitedNodes := {};
      currentPath := [];
      cycleDetected := false;
    }

    /** `traverse_tree`: resets the visited set, the path stack and the cycle
        flag, then walks from `node` at depth 0 with the given context (or
        an empty one). */
    method TraverseTree<N, V, R>(node: N, processNode: (N, map<string, V>, int) -> R,
                                 getChildren: N -> seq<(N, map<string, V>)>, key: N -> string,
                                 context: Option<map<string, V>>)
      returns (out: Step<R>)
      modifies this
      ensures currentPath == []
      ensures config.maxDepth < 0 ==> out == Returned(None) && visitedNodes == {} && !cycleDetected
      ensures 0 <= config.maxDepth ==> visitedNodes <= Reach(getChildren, key, node, config.maxDepth)
      ensures 0 <= config.maxDepth ==> key(node) in visitedNodes
      ensures 0 <= config.maxDepth && out.Returned? ==>
                out.value == Some(processNode(node, if context.Some? then context.value else map[], 0))
      ensures !config.detectCycles ==> !cycleDetected && out.Returned?
      ensures out.Raised? ==> config.raiseOnCycle && cycleDetected
    {
      visitedNodes := {};
      currentPath := [];
      cycleDetected := false;
      out := TraverseRecursive(node, processNode, getChildren, key,
                               if context.Some? then context.value else map[], 0);
    }

    /** `_traverse_recursive`: the depth bound is checked first and always;
        the cycle check only when enabled; otherwise the node's key is
        pushed, the node processed and each child walked one level deeper
        with the merged context, and the key popped again on every exit. */
    method TraverseRecursive<N, V, R>(node: N, processNode: (N, map<string, V>, int) -> R,
                                      getChildren: N -> seq<(N, map<string, V>)>, key: N -> string,
                                      context: map<string, V>, depth: int)
      returns (out: Step<R>)
      modifies this
      decreases if depth > config.maxDepth then 0 else config.maxDepth - depth + 1
      ensures currentPath == old(currentPath)
      ensures old(visitedNodes) <= visitedNodes
      ensures old(cycleDetected) ==> cycleDetected
      ensures depth > config.maxDepth ==>
                out == Returned(None) && visitedNodes == old(visitedNodes) && cycleDetected == old(cycleDetected)
      ensures depth <= config.maxDepth ==>
                visitedNodes - old(visitedNodes) <= Reach(getChildren, key, node, config.maxDepth - depth)
      ensures !config.detectCycles ==> out.Returned? && cycleDetected == old(cycleDetected)
      ensures out.Raised? ==> config.raiseOnCycle && cycleDetected
      ensures depth <= config.maxDepth && config.detectCycles && key(node) in old(currentPath) ==>
                && cycleDetected
                && visitedNodes == old(visitedNodes)
                && out == (if config.raiseOnCycle
                           then Raised(old(currentPath)[IndexOf(old(currentPath), key(node))..] + [key(node)])
                           else Returned(None))
      ensures depth <= config.maxDepth && !(config.detectCycles && key(node) in old(currentPath)) ==>
                && key(node) in visitedNodes
                && (out.Returned? ==> out.value == Some(processNode(node, context, depth)))
    {
      var id := key(node);
      if depth > config.maxDepth {
        return Returned(None);
      }
      if config.detectCycles && id in currentPath {
        cycleDetected := true;
        var cycle := currentPath[IndexOf(currentPath, id)..] + [id];
        if config.raiseOnCycle {
          return Raised(cycle);
        }
        return Returned(None);
      }
      ghost var k: nat := config.maxDepth - depth;
      currentPath := currentPath + [id];
      visitedNodes := visitedNodes + {id};
      var result := processNode(node, context, depth);
      var children := getChildren(node);
      var i := 0;
      while i < |children|
        invariant 0 <= i <= |children|
        invariant currentPath == old(currentPath) + [id]
        invariant old(visitedNodes) + {id} <= visitedNodes
        invariant visitedNodes - old(visitedNodes) <= Reach(getChildren, key, node, k)
        invariant old(cycleDetected) ==> cycleDetected
        invariant !config.detectCycles ==> cycleDetected == old(cycleDetected)
      {
        ghost var before := visitedNodes;
        var sub := TraverseRecursive(children[i].0, processNode, getChildren, key,
                                     context + children[i].1, depth + 1);
        if depth + 1 <= config.maxDepth {
          ReachAllContains(getChildren, key, children, i, k - 1);
        }
        if sub.Raised? {
          currentPath := currentPath[..|currentPath| - 1];
          return sub;
        }
        i := i + 1;
      }
      if currentPath != [] && currentPath[|currentPath| - 1] == id {
        currentPath := currentPath[..|currentPath| - 1];
      }
      return Returned(Some(result));
    }

    /** `has_cycle`. */
    method HasCycle() returns (b: bool)
      ensures b == cycleDetected
    {
      b := cycleDetected;
    }

    /** `get_visited_nodes`: a copy of the visited set. */
    method GetVisitedNodes() returns (s: set<string>)
      ensures s == visitedNodes
    {
      s := visitedNodes;
    }
  }

  // =====================================================================
  // find_root_nodes

  /** The ids a node's connections name, as root inference collects them:
      string values and the `id` of dictionary values on the dict shape,
      string `target_node_id`s on the list shape. */
  function RefsOf(c: Conns): (r: set<string>)
  {
    match c
    case DictConns(l) => set i | 0 <= i < |l| && Unwrap(l[i].1).Some? :: Unwrap(l[i].1).value
    case ListConns(rs) => set i | 0 <= i < |rs| && rs[i].targetNodeId.Some? :: rs[i].targetNodeId.value
  }

  /** Every id referenced by some node's connections. */
  function Referenced(entries: seq<(string, Node)>): set<string>
  {
    if entries == [] then {} else RefsOf(ConnsOf(entries[0].1)) + Referenced(entries[1..])
  }

  /** The entries whose key nobody references, in dictionary order. */
  function Unreferenced(entries: seq<(string, Node)>, refs: set<string>): (r: seq<(string, Node)>)
  {
    if entries == [] then []
    else (if entries[0].0 !in refs then [entries[0]] else []) + Unreferenced(entries[1..], refs)
  }

  lemma {:induction false} UnreferencedExactly(entries: seq<(string, Node)>, refs: set<string>)
    ensures forall e :: e in Unreferenced(entries, refs) <==> e in entries && e.0 !in refs
  {
    if entries != [] {
      UnreferencedExactly(entries[1..], refs);
      assert entries == [entries[0]] + entries[1..];
    }
  }

  lemma {:induction false} ReferencedExactly(entries: seq<(string, Node)>, s: string)
    ensures s in Referenced(entries) <==> exists i :: 0 <= i < |entries| && s in RefsOf(ConnsOf(entries[i].1))
  {
    if entries != [] {
      ReferencedExactly(entries[1..], s);
      if s in Referenced(entries[1..]) {
        var i :| 0 <= i < |entries[1..]| && s in RefsOf(ConnsOf(entries[1..][i].1));
        assert s in RefsOf(ConnsOf(entries[i + 1].1));
      }
      if exists i :: 0 <= i < |entries| && s in RefsOf(ConnsOf(entries[i].1)) {
        var i :| 0 <= i < |entries| && s in RefsOf(ConnsOf(entries[i].1));
        if i > 0 {
          assert s in RefsOf(ConnsOf(entries[1..][i - 1].1));
        }
      }
    }
  }

  /** When every key is referenced no entry is unreferenced. */
  lemma {:induction false} AllReferenced(entries: seq<(string, Node)>, refs: set<string>)
    requires forall e :: e in entries ==> e.0 in refs
    ensures Unreferenced(entries, refs) == []
  {
    if entries != [] {
      assert entries[0] in entries;
      assert forall e :: e in entries[1..] ==> e in entries;
      AllReferenced(entries[1..], refs);
    }
  }

  /** The roots `find_root_nodes` returns for a dictionary of nodes. */
  function Roots(entries: seq<(string, Node)>): seq<(string, Node)>
  {
    if entries == [] then []
    else if Unreferenced(entries, Referenced(entries)) != [] then Unreferenced(entries, Referenced(entries))
    else [entries[0]]
  }

  /** The first loop of `find_root_nodes`: every key some connection
      references. */
  method CollectReferenced(entries: seq<(string, Node)>) returns (referenced: set<string>)
    ensures referenced == Referenced(entries)
  {
    referenced := {};
    var i := 0;
    while i < |entries|
      invariant 0 <= i <= |entries|
      invariant referenced + Referenced(entries[i..]) == Referenced(entries)
    {
      assert entries[i..][1..] == entries[i + 1..];
      assert Referenced(entries[i..]) == RefsOf(ConnsOf(entries[i].1)) + Referenced(entries[i + 1..]);
      referenced := referenced + RefsOf(ConnsOf(entries[i].1));
      i := i + 1;
    }
    assert entries[i..] == [];
  }

  lemma UnreferencedStep(entries: seq<(string, Node)>, refs: set<string>, roots: seq<(string, Node)>, j: nat)
    requires j < |entries| && roots + Unreferenced(entries[j..], refs) == Unreferenced(entries, refs)
    ensures (roots + if entries[j].0 !in refs then [entries[j]] else []) + Unreferenced(entries[j + 1..], refs)
            == Unreferenced(entries, refs)
  {
    assert entries[j..][1..] == entries[j + 1..];
    var head := if entries[j].0 !in refs then [entries[j]] else [];
    var rest := Unreferenced(entries[j + 1..], refs);
    assert Unreferenced(entries[j..], refs) == head + rest;
    AppendAssoc(roots, head, rest);
  }

  /** The second loop of `find_root_nodes`: the entries whose key is not
      referenced, in order. */
  method CollectUnreferenced(entries: seq<(string, Node)>, referenced: set<string>) returns (roots: seq<(string, Node)>)
    ensures roots == Unreferenced(entries, referenced)
  {
    roots := [];
    var j := 0;
    while j < |entries|
      invariant 0 <= j <= |entries|
      invariant roots + Unreferenced(entries[j..], referenced) == Unreferenced(entries, referenced)
    {
      UnreferencedStep(entries, referenced, roots, j);
      if entries[j].0 !in referenced {
        roots := roots + [entries[j]];
      }
      j := j + 1;
    }
    assert entries[j..] == [];
  }

  /** `find_root_nodes`, returning each root with its key. */
  method FindRootNodes(entries: seq<(string, Node)>) returns (roots: seq<(string, Node)>)
    ensures roots == Roots(entries)
  {
    if entries == [] {
      return [];
    }
    var referenced := CollectReferenced(entries);
    roots := CollectUnreferenced(entries, referenced);
    if roots == [] {
      roots := [entries[0]];
    }
  }

  /** Root inference, stated outright: none for an empty dictionary; the
      unreferenced entries when there are any; otherwise the first entry. */
  lemma RootsCharacterized(entries: seq<(string, Node)>)
    ensures entries == [] ==> Roots(entries) == []
    ensures forall e :: e in entries && e.0 !in Referenced(entries) ==> e in Roots(entries)
    ensures (forall e :: e in entries ==> e.0 in Referenced(entries)) && entries != [] ==>
              Roots(entries) == [entries[0]]
    ensures (exists e :: e in entries && e.0 !in Referenced(entries)) ==>
              forall e :: e in Roots(entries) ==> e in entries && e.0 !in Referenced(entries)
  {
    var refs := Referenced(entries);
    var u := Unreferenced(entries, refs);
    UnreferencedExactly(entries, refs);
    if (forall e :: e in entries ==> e.0 in refs) && entries != [] {
      AllReferenced(entries, refs);
      assert Roots(entries) == [entries[0]];
    }
    if exists e :: e in entries && e.0 !in refs {
      var e :| e in entries && e.0 !in refs;
      assert e in u;
      assert Roots(entries) == u;
    }
  }

  // =====================================================================
  // validate_tree_structure

  datatype Issue =
    | NotADictionary
    | SelfReference(nodeId: string)
    | MissingTarget(nodeId: string, target: Option<string>)
    | CircularFrom(rootId: string)

  /** The issues of one dict-shaped connection list; a nested-dictionary
      target is tested for membership in the node dictionary, which raises. */
  function DictIssues(nodeId: string, l: seq<(string, Target)>, keys: set<string>): Result<seq<Issue>>
  {
    if l == [] then Ok([])
    else
      var rest := DictIssues(nodeId, l[1..], keys);
      match l[0].1
      case Obj(_) => Err(TypeError)
      case Null => if rest.Ok? then Ok([MissingTarget(nodeId, None)] + rest.value) else rest
      case Id(s) =>
        if rest.Err? then rest
        else if s == nodeId then Ok([SelfReference(nodeId)] + rest.value)
        else if s !in keys then Ok([MissingTarget(nodeId, Some(s))] + rest.value)
        else rest
  }

  /** The issues of one list-shaped connection list (`target_node_id`). */
  function RecIssues(nodeId: string, rs: seq<Rec>, keys: set<string>): seq<Issue>
  {
    if rs == [] then []
    else
      var t := rs[0].targetNodeId;
      (if t == Some(nodeId) then [SelfReference(nodeId)]
       else if Truthy(t) && t.value !in keys then [MissingTarget(nodeId, t)]
       else [])
      + RecIssues(nodeId, rs[1..], keys)
  }

  function NodeIssues(nodeId: string, n: Node, keys: set<string>): Result<seq<Issue>>
  {
    match ConnsOf(n)
    case DictConns(l) => DictIssues(nodeId, l, keys)
    case ListConns(rs) => Ok(RecIssues(nodeId, rs, keys))
  }

  /** The per-node structural issues of a dictionary of nodes, in order. */
  function StructuralIssues(entries: seq<(string, Node)>, keys: set<string>): Result<seq<Issue>>
  {
    if entries == [] then Ok([])
    else
      Concat(NodeIssues(entries[0].0, entries[0].1, keys), StructuralIssues(entries[1..], keys))
  }

  /** Issues of two parts in order; the first exception raised escapes. */
  function Concat(a: Result<seq<Issue>>, b: Result<seq<Issue>>): Result<seq<Issue>>
  {
    if a.Err? then a else if b.Err? then b else Ok(a.value + b.value)
  }

  lemma ConcatUnit(r: Result<seq<Issue>>)
    ensures Concat(Ok([]), r) == r
  {
    if r.Ok? {
      assert [] + r.value == r.value;
    }
  }

  lemma ConcatAppend(issues: seq<Issue>, more: seq<Issue>, rest: Result<seq<Issue>>)
    ensures Concat(Ok(issues), Concat(Ok(more), rest)) == Concat(Ok(issues + more), rest)
  {
    if rest.Ok? {
      assert issues + (more + rest.value) == (issues + more) + rest.value;
    }
  }

  /** The issue a dict-shaped connection to `t` raises for node `nodeId`:
      a connection to itself, or to a target that is not a node (`None`
      included). */
  predicate DictFlag(nodeId: string, t: Target, keys: set<string>, iss: Issue)
  {
    match t
    case Null => iss == MissingTarget(nodeId, None)
    case Id(s) =>
      || (s == nodeId && iss == SelfReference(nodeId))
      || (s != nodeId && s !in keys && iss == MissingTarget(nodeId, Some(s)))
    case Obj(_) => false
  }

  /** The issue a `target_node_id` of `t` raises for node `nodeId`: a record
      targeting its own node, or a truthy target that is not a node. */
  predicate RecFlag(nodeId: string, t: Option<string>, keys: set<string>, iss: Issue)
  {
    || (t == Some(nodeId) && iss == SelfReference(nodeId))
    || (t != Some(nodeId) && Truthy(t) && t.value !in keys && iss == MissingTarget(nodeId, t))
  }

  /** Some connection of node `n` (stored under `nodeId`) raises `iss`. */
  predicate NodeFlag(nodeId: string, n: Node, keys: set<string>, iss: Issue)
  {
    match ConnsOf(n)
    case DictConns(l) => exists k :: 0 <= k < |l| && DictFlag(nodeId, l[k].1, keys, iss)
    case ListConns(rs) => exists k :: 0 <= k < |rs| && RecFlag(nodeId, rs[k].targetNodeId, keys, iss)
  }

  /** A list-shaped connection list yields exactly the issues its records
      raise. */
  lemma {:induction false} RecIssuesExactly(nodeId: string, rs: seq<Rec>, keys: set<string>, iss: Issue)
    ensures iss in RecIssues(nodeId, rs, keys) <==>
            exists k :: 0 <= k < |rs| && RecFlag(nodeId, rs[k].targetNodeId, keys, iss)
  {
    if rs != [] {
      RecIssuesExactly(nodeId, rs[1..], keys, iss);
      if iss in RecIssues(nodeId, rs[1..], keys) {
        var k :| 0 <= k < |rs[1..]| && RecFlag(nodeId, rs[1..][k].targetNodeId, keys, iss);
        assert RecFlag(nodeId, rs[k + 1].targetNodeId, keys, iss);
      }
      if exists k :: 0 <= k < |rs| && RecFlag(nodeId, rs[k].targetNodeId, keys, iss) {
        var k :| 0 <= k < |rs| && RecFlag(nodeId, rs[k].targetNodeId, keys, iss);
        if k > 0 {
          assert RecFlag(nodeId, rs[1..][k - 1].targetNodeId, keys, iss);
        }
      }
    }
  }

  /** A dict-shaped connection list raises exactly when one of its targets
      is a dictionary. */
  lemma {:induction false} DictIssuesRaise(nodeId: string, l: seq<(string, Target)>, keys: set<string>)
    ensures DictIssues(nodeId, l, keys).Err? <==> exists k :: 0 <= k < |l| && l[k].1.Obj?
  {
    if l != [] {
      DictIssuesRaise(nodeId, l[1..], keys);
      if exists k :: 0 <= k < |l[1..]| && l[1..][k].1.Obj? {
        var k :| 0 <= k < |l[1..]| && l[1..][k].1.Obj?;
        assert l[k + 1].1.Obj?;
      }
      if exists k :: 0 <= k < |l| && l[k].1.Obj? {
        var k :| 0 <= k < |l| && l[k].1.Obj?;
        if k > 0 {
          assert l[1..][k - 1].1.Obj?;
        }
      }
    }
  }

  /** Otherwise it yields exactly the issues its targets raise. */
  lemma {:induction false} DictIssuesExactly(nodeId: string, l: seq<(string, Target)>, keys: set<string>, iss: Issue)
    requires DictIssues(nodeId, l, keys).Ok?
    ensures iss in DictIssues(nodeId, l, keys).value <==>
            exists k :: 0 <= k < |l| && DictFlag(nodeId, l[k].1, keys, iss)
  {
    if l != [] {
      DictIssuesExactly(nodeId, l[1..], keys, iss);
      if iss in DictIssues(nodeId, l[1..], keys).value {
        var k :| 0 <= k < |l[1..]| && DictFlag(nodeId, l[1..][k].1, keys, iss);
        assert DictFlag(nodeId, l[k + 1].1, keys, iss);
      }
      if exists k :: 0 <= k < |l| && DictFlag(nodeId, l[k].1, keys, iss) {
        var k :| 0 <= k < |l| && DictFlag(nodeId, l[k].1, keys, iss);
        if k > 0 {
          assert DictFlag(nodeId, l[1..][k - 1].1, keys, iss);
        }
      }
    }
  }

  /** The structural pass yields exactly the issues some node's connections
      raise. */
  lemma {:induction false} StructuralIssuesExactly(entries: seq<(string, Node)>, keys: set<string>, iss: Issue)
    requires StructuralIssues(entries, keys).Ok?
    ensures iss in StructuralIssues(entries, keys).value <==>
            exists j :: 0 <= j < |entries| && NodeFlag(entries[j].0, entries[j].1, keys, iss)
  {
    if entries != [] {
      var e := entries[0];
      assert NodeIssues(e.0, e.1, keys).Ok?;
      match ConnsOf(e.1) {
        case DictConns(l) => DictIssuesExactly(e.0, l, keys, iss);
        case ListConns(rs) => RecIssuesExactly(e.0, rs, keys, iss);
      }
      StructuralIssuesExactly(entries[1..], keys, iss);
      if iss in StructuralIssues(entries[1..], keys).value {
        var j :| 0 <= j < |entries[1..]| && NodeFlag(entries[1..][j].0, entries[1..][j].1, keys, iss);
        assert NodeFlag(entries[j + 1].0, entries[j + 1].1, keys, iss);
      }
      if exists j :: 0 <= j < |entries| && NodeFlag(entries[j].0, entries[j].1, keys, iss) {
        var j :| 0 <= j < |entries| && NodeFlag(entries[j].0, entries[j].1, keys, iss);
        if j > 0 {
          assert NodeFlag(entries[1..][j - 1].0, entries[1..][j - 1].1, keys, iss);
        }
      }
    }
  }

  /** A report made of the structural issues followed by circular-reference
      issues holds, besides the latter, exactly the issues some node's
      connections raise. */
  lemma StructuralThenCircular(entries: seq<(string, Node)>, keys: set<string>, structural: seq<Issue>, issues: seq<Issue>)
    requires StructuralIssues(entries, keys) == Ok(structural)
    requires structural <= issues
    requires forall k :: |structural| <= k < |issues| ==> issues[k].CircularFrom?
    ensures forall iss :: iss in issues && !iss.CircularFrom? ==>
              exists j :: 0 <= j < |entries| && NodeFlag(entries[j].0, entries[j].1, keys, iss)
    ensures forall j, iss :: 0 <= j < |entries| && NodeFlag(entries[j].0, entries[j].1, keys, iss) ==> iss in issues
  {
    forall iss | iss in issues && !iss.CircularFrom?
      ensures exists j :: 0 <= j < |entries| && NodeFlag(entries[j].0, entries[j].1, keys, iss)
    {
      var k :| 0 <= k < |issues| && issues[k] == iss;
      assert issues[k] == structural[k];
      StructuralIssuesExactly(entries, keys, iss);
    }
    forall j, iss | 0 <= j < |entries| && NodeFlag(entries[j].0, entries[j].1, keys, iss)
      ensures iss in issues
    {
      StructuralIssuesExactly(entries, keys, iss);
      var k :| 0 <= k < |structural| && structural[k] == iss;
      assert issues[k] == iss;
    }
  }

  /** The children the validator's cycle pass follows: unwrapped truthy
      dict targets that are keys, and list `target_node_id`s that are keys. */
  function ValidationChildren(entries: seq<(string, Node)>, n: Node): seq<((string, Node), map<string, bool>)>
  {
    match ConnsOf(n)
    case DictConns(l) => DictChildren(entries, l)
    case ListConns(rs) => RecChildren(entries, rs)
  }

  function DictChildren(entries: seq<(string, Node)>, l: seq<(string, Target)>): seq<((string, Node), map<string, bool>)>
  {
    if l == [] then []
    else
      var t := Unwrap(l[0].1);
      (if Truthy(t) && t.value in Keys(entries) then [((t.value, Get(entries, t.value).value), map[])] else [])
      + DictChildren(entries, l[1..])
  }

  function RecChildren(entries: seq<(string, Node)>, rs: seq<Rec>): seq<((string, Node), map<string, bool>)>
  {
    if rs == [] then []
    else
      var t := rs[0].targetNodeId;
      (if t.Some? && t.value in Keys(entries) then [((t.value, Get(entries, t.value).value), map[])] else [])
      + RecChildren(entries, rs[1..])
  }

  /** The traverser's node key, `node.get('id', str(id(node)))`; the identity
      of an id-less node object is stood for by the key it is stored under. */
  function TraversalKey(e: (string, Node)): string
  {
    if e.1.id.Some? then e.1.id.value else "object@" + e.0
  }

  /** `validate_tree_structure`: structural issues of every node, then one
      circular-reference issue per root from which a bounded walk met a
      cycle; valid exactly when there are no issues. */
  method ValidateTreeStructure(nodes: Nodes) returns (r: Result<(bool, seq<Issue>)>)
    ensures nodes.Listed? ==> r == Ok((false, [NotADictionary]))
    ensures nodes.Keyed? ==> (r.Err? <==> StructuralIssues(nodes.entries, Keys(nodes.entries)).Err?)
    ensures r.Ok? ==> r.value.0 == (r.value.1 == [])
    ensures nodes.Keyed? && r.Ok? ==>
              var structural := StructuralIssues(nodes.entries, Keys(nodes.entries)).value;
              && structural <= r.value.1
              && forall k :: |structural| <= k < |r.value.1| ==> r.value.1[k].CircularFrom?
    ensures nodes.Keyed? && r.Ok? ==>
              forall iss :: iss in r.value.1 && !iss.CircularFrom? ==>
                exists j :: 0 <= j < |nodes.entries| && NodeFlag(nodes.entries[j].0, nodes.entries[j].1, Keys(nodes.entries), iss)
    ensures nodes.Keyed? && r.Ok? ==>
              forall j, iss :: 0 <= j < |nodes.entries| && NodeFlag(nodes.entries[j].0, nodes.entries[j].1, Keys(nodes.entries), iss) ==>
                iss in r.value.1
  {
    if nodes.Listed? {
      return Ok((false, [NotADictionary]));
    }
    var entries := nodes.entries;
    var keys := Keys(entries);
    var issues: seq<Issue> := [];
    var i := 0;
    assert entries[i..] == entries;
    ConcatUnit(StructuralIssues(entries, keys));
    while i < |entries|
      invariant 0 <= i <= |entries|
      invariant StructuralIssues(entries, keys) == Concat(Ok(issues), StructuralIssues(entries[i..], keys))
    {
      assert entries[i..][1..] == entries[i + 1..];
      var nodeIssues := NodeIssues(entries[i].0, entries[i].1, keys);
      if nodeIssues.Err? {
        return Err(nodeIssues.error);
      }
      ConcatAppend(issues, nodeIssues.value, StructuralIssues(entries[i + 1..], keys));
      issues := issues + nodeIssues.value;
      i := i + 1;
    }
    assert entries[i..] == [] && issues + [] == issues;
    ghost var structural := issues;
    assert StructuralIssues(entries, keys) == Ok(structural);
    if entries != [] {
      var config := TraversalConfig(DefaultConfig.maxDepth, true, DefaultConfig.raiseOnCycle, false);
      var traverser := new SafeTreeTraverser(Some(config));
      var roots := FindRootNodes(entries);
      var j := 0;
      while j < |roots|
        invariant 0 <= j <= |roots|
        invariant structural <= issues
        invariant forall k :: |structural| <= k < |issues| ==> issues[k].CircularFrom?
      {
        var root := roots[j];
        var _ := traverser.TraverseTree(root, (e: (string, Node), c: map<string, bool>, d: int) => (),
                                        (e: (string, Node)) => ValidationChildren(entries, e.1),
                                        TraversalKey, None);
        var cyc := traverser.HasCycle();
        if cyc {
          issues := issues + [CircularFrom(if root.1.id.Some? then root.1.id.value else "unknown")];
        }
        j := j + 1;
      }
    }
    StructuralThenCircular(entries, keys, structural, issues);
    return Ok((issues == [], issues));
  }

  // =====================================================================
  // detect_circular_references

  /** Every reported id sequence is a closed walk over the graph's edges. */
  ghost predicate AllCycles(entries: seq<(string, Node)>, refs: seq<seq<string>>)
  {
    forall c :: c in refs ==> IsCycle(entries, c)
  }

  /** Every node of `vs` with an edge to itself is reported as `[v, v]`. */
  ghost predicate SelfLoopsIn(entries: seq<(string, Node)>, vs: set<string>, refs: seq<seq<string>>)
  {
    forall v :: v in vs && Edge(entries, v, v) ==> [v, v] in refs
  }

  lemma PrefixMember<T>(s: seq<T>, t: seq<T>, x: T)
    requires s <= t && x in s
    ensures x in t
  {
    var k := IndexOf(s, x);
    assert t[k] == x;
  }

  lemma ElemsPrefixStep<T>(s: seq<T>, i: nat)
    requires i < |s|
    ensures Elems(s[..i + 1]) == Elems(s[..i]) + {s[i]}
  {
    assert s[..i + 1] == s[..i] + [s[i]];
    ElemsSnoc(s[..i], s[i]);
  }

  lemma SelfLoopsGrow(entries: seq<(string, Node)>, vs: set<string>, refs: seq<seq<string>>, refs': seq<seq<string>>)
    requires refs <= refs' && SelfLoopsIn(entries, vs, refs)
    ensures SelfLoopsIn(entries, vs, refs')
  {
    forall v | v in vs && Edge(entries, v, v)
      ensures [v, v] in refs'
    {
      PrefixMember(refs, refs', [v, v]);
    }
  }

  lemma SelfLoopsUnion(entries: seq<(string, Node)>, vs: set<string>, ws: set<string>, refs: seq<seq<string>>)
    requires SelfLoopsIn(entries, vs, refs) && SelfLoopsIn(entries, ws, refs)
    ensures SelfLoopsIn(entries, vs + ws, refs)
  {
  }

  /** The loop of `dfs` keeps the self-loops of every finished node
      reported while the cycle list grows, and notes whether the node's own
      targets so far include itself. */
  lemma SelfLoopsSoFar(entries: seq<(string, Node)>, v: string, targets: seq<string>, i: nat,
                       base: set<string>, visited0: set<string>, visited: set<string>,
                       refs0: seq<seq<string>>, refs: seq<seq<string>>)
    requires i < |targets| && refs0 <= refs && base <= visited0 <= visited
    requires SelfLoopsIn(entries, visited0 - base, refs0) && SelfLoopsIn(entries, visited - visited0, refs)
    requires forall j :: 0 <= j < i && targets[j] == v ==> [v, v] in refs0
    requires targets[i] == v ==> [v, v] in refs
    ensures SelfLoopsIn(entries, visited - base, refs)
    ensures forall j :: 0 <= j < i + 1 && targets[j] == v ==> [v, v] in refs
  {
    SelfLoopsGrow(entries, visited0 - base, refs0, refs);
    assert visited - base == (visited0 - base) + (visited - visited0);
    SelfLoopsUnion(entries, visited0 - base, visited - visited0, refs);
    if exists j :: 0 <= j < i && targets[j] == v {
      PrefixMember(refs0, refs, [v, v]);
    }
  }

  /** Re-entering the node just pushed closes the cycle `[v, v]`. */
  lemma SelfCycle(path: seq<string>, v: string)
    requires v !in path
    ensures (path + [v])[IndexOf(path + [v], v)..] + [v] == [v, v]
  {
    var p := path + [v];
    var k := IndexOf(p, v);
    assert k == |path|;
    assert p[k..] == [v];
  }

  /** The finished ids `visited` are numbered by `rank` below `clock`, and
      while no cycle has been reported every edge out of a finished id leads
      to an id finished earlier. */
  ghost predicate RankedBy(entries: seq<(string, Node)>, visited: set<string>, rank: map<string, nat>, clock: nat,
                           refs: seq<seq<string>>)
  {
    && visited == rank.Keys
    && (forall v :: v in rank ==> rank[v] < clock)
    && (refs == [] ==> Descending(entries, rank))
  }

  /** Every edge out of a ranked node leads to a ranked node of smaller rank. */
  ghost predicate Descending(entries: seq<(string, Node)>, rank: map<string, nat>)
  {
    forall v, w :: v in rank && Edge(entries, v, w) ==> w in rank && rank[w] < rank[v]
  }

  /** Along a walk from a ranked node of a descending ranking, every step
      lowers the rank, so the walk ends strictly lower than it started. */
  lemma {:induction false} Descent(entries: seq<(string, Node)>, rank: map<string, nat>, p: seq<string>)
    requires Descending(entries, rank)
    requires |p| >= 1 && p[0] in rank && IsWalk(entries, p)
    ensures p[|p| - 1] in rank
    ensures |p| >= 2 ==> rank[p[|p| - 1]] < rank[p[0]]
  {
    if |p| >= 2 {
      assert Edge(entries, p[0], p[1]);
      assert IsWalk(entries, p[1..]) by {
        forall i | 0 <= i < |p[1..]| - 1
          ensures Edge(entries, p[1..][i], p[1..][i + 1])
        {
          assert Edge(entries, p[i + 1], p[i + 2]);
        }
      }
      Descent(entries, rank, p[1..]);
      assert p[1..][|p[1..]| - 1] == p[|p| - 1];
    }
  }

  /** A graph whose every node is ranked by a descending ranking has no
      cycle: a closed walk would end lower than it started. */
  lemma NoCycleWhenRanked(entries: seq<(string, Node)>, rank: map<string, nat>)
    requires Descending(entries, rank) && Keys(entries) <= rank.Keys
    ensures forall c :: !IsCycle(entries, c)
  {
    forall c | |c| >= 2 && IsWalk(entries, c)
      ensures c[|c| - 1] != c[0]
    {
      assert Edge(entries, c[0], c[1]);
      Descent(entries, rank, c);
    }
  }

  /** Finishing a node whose successors are all finished (or after a cycle
      was reported) gives it the next rank and keeps the ranking. */
  lemma FinishRanked(entries: seq<(string, Node)>, visited: set<string>, rank: map<string, nat>, clock: nat,
                     refs: seq<seq<string>>, v: string)
    requires RankedBy(entries, visited, rank, clock, refs)
    requires v in Keys(entries) && v !in visited
    requires refs == [] ==> forall w :: w in Succ(entries, v) ==> w in visited
    ensures RankedBy(entries, visited + {v}, rank[v := clock], clock + 1, refs)
  {
    if refs == [] {
      var rank' := rank[v := clock];
      forall x, w | x in rank' && Edge(entries, x, w)
        ensures w in rank' && rank'[w] < rank'[x]
      {
        if x == v {
          assert w in rank && rank[w] < clock;
        } else {
          assert x in rank && w in rank && rank[w] < rank[x];
          assert w != v;
        }
      }
    }
  }

  /** The DFS state `detect_circular_references` shares across its nested
      calls: the cycles found so far and the globally finished ids. The
      ghost `rank` numbers the finished ids in finishing order. */
  class CycleSearch {
    const entries: seq<(string, Node)>
    var circularRefs: seq<seq<string>>
    var visited: set<string>
    ghost var rank: map<string, nat>
    ghost var clock: nat

    constructor (entries: seq<(string, Node)>)
      ensures this.entries == entries && circularRefs == [] && visited == {}
      ensures rank == map[] && clock == 0
    {
      this.entries := entries;
      circularRefs := [];
      visited := {};
      rank := map[];
      clock := 0;
    }

    /** The finished ids are ranked below the clock, and while no cycle has
        been reported every edge out of a finished id leads to an id
        finished earlier. */
    ghost predicate Ranked()
      reads this
    {
      RankedBy(entries, visited, rank, clock, circularRefs)
    }

    /** The per-branch state handed to `dfs`: the path is a repetition-free
        walk whose ids are exactly `visiting`, ending with an edge into the
        node about to be explored. */
    ghost predicate Branch(path: seq<string>, visiting: set<string>, nodeId: string)
    {
      && Distinct(path)
      && Elems(path) == visiting
      && visiting <= Keys(entries)
      && IsWalk(entries, path)
      && (path != [] ==> Edge(entries, path[|path| - 1], nodeId))
    }

    /** `dfs(node_id, path, visiting)`: a node already on the branch closes
        the cycle from its first occurrence; a finished node is skipped. */
    method Dfs(nodeId: string, path: seq<string>, visiting: set<string>)
      requires nodeId in Keys(entries)
      requires Branch(path, visiting, nodeId)
      requires AllCycles(entries, circularRefs)
      requires Ranked() && visited !! visiting
      modifies this
      decreases |Keys(entries) - visiting|, 3
      ensures AllCycles(entries, circularRefs)
      ensures Ranked() && visited !! visiting
      ensures old(circularRefs) <= circularRefs
      ensures old(visited) <= visited
      ensures nodeId !in visiting ==> nodeId in visited
      ensures nodeId in visiting ==>
                circularRefs == old(circularRefs) + [path[IndexOf(path, nodeId)..] + [nodeId]]
                && visited == old(visited)
      ensures SelfLoopsIn(entries, visited - old(visited), circularRefs)
    {
      if nodeId in visiting {
        assert nodeId in Elems(path);
        var start := IndexOf(path, nodeId);
        var cycle := path[start..] + [nodeId];
        CycleCloses(path, nodeId, start);
        circularRefs := circularRefs + [cycle];
        return;
      }
      if nodeId in visited {
        return;
      }
      Explore(nodeId, path, visiting);
    }

    /** The body of `dfs` for a node neither on the branch nor finished: push
        it, recurse into every target in connection order, then mark it
        finished. */
    method Explore(nodeId: string, path: seq<string>, visiting: set<string>)
      requires nodeId in Keys(entries) && nodeId !in visiting
      requires Branch(path, visiting, nodeId)
      requires AllCycles(entries, circularRefs)
      requires Ranked() && visited !! visiting && nodeId !in visited
      modifies this
      decreases |Keys(entries) - visiting|, 2
      ensures AllCycles(entries, circularRefs)
      ensures Ranked() && visited !! visiting
      ensures old(circularRefs) <= circularRefs
      ensures old(visited) <= visited
      ensures nodeId in visited
      ensures SelfLoopsIn(entries, visited - old(visited), circularRefs)
    {
      ExploreTargets(nodeId, path, visiting);
      FinishRanked(entries, visited, rank, clock, circularRefs, nodeId);
      assert visited + {nodeId} - old(visited) == (visited - old(visited)) + {nodeId};
      visited := visited + {nodeId};
      rank := rank[nodeId := clock];
      clock := clock + 1;
    }

    /** The loop of `dfs` over a pushed node's targets, in connection order.
        A target on the branch (the node itself included) closes a cycle;
        otherwise it ends finished. */
    method ExploreTargets(nodeId: string, path: seq<string>, visiting: set<string>)
      requires nodeId in Keys(entries) && nodeId !in visiting
      requires Branch(path, visiting, nodeId)
      requires AllCycles(entries, circularRefs)
      requires Ranked() && visited !! visiting && nodeId !in visited
      modifies this
      decreases |Keys(entries) - visiting|, 1
      ensures AllCycles(entries, circularRefs)
      ensures Ranked() && visited !! visiting + {nodeId}
      ensures old(circularRefs) <= circularRefs
      ensures old(visited) <= visited
      ensures SelfLoopsIn(entries, visited - old(visited), circularRefs)
      ensures Edge(entries, nodeId, nodeId) ==> [nodeId, nodeId] in circularRefs
      ensures circularRefs == [] ==> forall w :: w in Succ(entries, nodeId) ==> w in visited
    {
      var targets := Succ(entries, nodeId);
      var i := 0;
      while i < |targets|
        invariant 0 <= i <= |targets|
        invariant AllCycles(entries, circularRefs)
        invariant old(circularRefs) <= circularRefs
        invariant old(visited) <= visited
        invariant SelfLoopsIn(entries, visited - old(visited), circularRefs)
        invariant forall j :: 0 <= j < i && targets[j] == nodeId ==> [nodeId, nodeId] in circularRefs
        invariant Ranked() && visited !! visiting + {nodeId}
        invariant circularRefs == [] ==> Elems(targets[..i]) <= visited
      {
        VisitTarget(nodeId, path, visiting, i, old(visited));
        i := i + 1;
      }
      assert targets[..i] == targets;
    }

    /** One pass of that loop: `dfs` on the `i`-th target with the node
        pushed onto a copy of the branch. */
    method VisitTarget(nodeId: string, path: seq<string>, visiting: set<string>, i: nat, ghost base: set<string>)
      requires nodeId in Keys(entries) && nodeId !in visiting
      requires Branch(path, visiting, nodeId)
      requires i < |Succ(entries, nodeId)|
      requires AllCycles(entries, circularRefs)
      requires base <= visited
      requires SelfLoopsIn(entries, visited - base, circularRefs)
      requires forall j :: 0 <= j < i && Succ(entries, nodeId)[j] == nodeId ==> [nodeId, nodeId] in circularRefs
      requires Ranked() && visited !! visiting + {nodeId}
      requires circularRefs == [] ==> Elems(Succ(entries, nodeId)[..i]) <= visited
      modifies this
      decreases |Keys(entries) - visiting|, 0
      ensures AllCycles(entries, circularRefs)
      ensures old(circularRefs) <= circularRefs
      ensures old(visited) <= visited
      ensures SelfLoopsIn(entries, visited - base, circularRefs)
      ensures forall j :: 0 <= j < i + 1 && Succ(entries, nodeId)[j] == nodeId ==> [nodeId, nodeId] in circularRefs
      ensures Ranked() && visited !! visiting + {nodeId}
      ensures circularRefs == [] ==> Elems(Succ(entries, nodeId)[..i + 1]) <= visited
    {
      var targets := Succ(entries, nodeId);
      var visiting' := visiting + {nodeId};
      var path' := path + [nodeId];
      assert nodeId !in path by { assert nodeId !in Elems(path); }
      assert Keys(entries) - visiting' < Keys(entries) - visiting;
      ghost var refs0 := circularRefs;
      ghost var visited0 := visited;
      ExtendBranch(path, visiting, nodeId, targets[i]);
      Dfs(targets[i], path', visiting');
      if targets[i] == nodeId {
        SelfCycle(path, nodeId);
      }
      SelfLoopsSoFar(entries, nodeId, targets, i, base, visited0, visited, refs0, circularRefs);
      ElemsPrefixStep(targets, i);
    }

    lemma CycleCloses(path: seq<string>, nodeId: string, start: nat)
      requires Branch(path, Elems(path), nodeId)
      requires start < |path| && path[start] == nodeId
      ensures IsCycle(entries, path[start..] + [nodeId])
    {
      var c := path[start..] + [nodeId];
      forall i | 0 <= i < |c| - 1
        ensures Edge(entries, c[i], c[i + 1])
      {
        if i < |c| - 2 {
          assert c[i] == path[start + i] && c[i + 1] == path[start + i + 1];
        }
      }
    }

    lemma ExtendBranch(path: seq<string>, visiting: set<string>, nodeId: string, next: string)
      requires nodeId in Keys(entries) && nodeId !in visiting
      requires Branch(path, visiting, nodeId)
      requires next in Succ(entries, nodeId)
      ensures next in Keys(entries)
      ensures Branch(path + [nodeId], visiting + {nodeId}, next)
    {
      var p := path + [nodeId];
      assert nodeId !in path by { assert nodeId !in Elems(path); }
      assert Elems(p) == Elems(path) + {nodeId};
      forall i | 0 <= i < |p| - 1
        ensures Edge(entries, p[i], p[i + 1])
      {
        if i < |path| - 1 {
          assert p[i] == path[i] && p[i + 1] == path[i + 1];
        }
      }
    }
  }

  /** The results `detect_circular_references` may give for `tree`, as
      `DetectCircularReferences` states them. */
  ghost predicate CycleReport(tree: Tree, r: Result<seq<seq<string>>>)
  {
    && (tree.nodes.None? || (tree.nodes.value.Listed? && tree.nodes.value.items == []) ==> r == Ok([]))
    && (r.Err? <==> tree.nodes.Some? && tree.nodes.value.Listed? && tree.nodes.value.items != [])
    && (r.Ok? && tree.nodes.Some? && tree.nodes.value.Keyed? ==>
          forall c :: c in r.value ==> IsCycle(tree.nodes.value.entries, c))
    && (tree.nodes.Some? && tree.nodes.value.Keyed? ==>
          r.Ok? && forall v :: Edge(tree.nodes.value.entries, v, v) ==> [v, v] in r.value)
    && (tree.nodes.Some? && tree.nodes.value.Keyed? && (forall c :: !IsCycle(tree.nodes.value.entries, c)) ==>
          r == Ok([]))
    && (tree.nodes.Some? && tree.nodes.value.Keyed? && (exists c :: IsCycle(tree.nodes.value.entries, c)) ==>
          r.Ok? && r.value != [])
  }

  /** `detect_circular_references`: every returned id sequence is a closed
      walk over the graph's edges, every self-loop is reported as `[n, n]`,
      and an acyclic graph yields none. A list of nodes cannot be searched:
      its (unhashable) node dictionaries are tested against the visited set. */
  method DetectCircularReferences(tree: Tree) returns (r: Result<seq<seq<string>>>)
    ensures tree.nodes.None? || (tree.nodes.value.Listed? && tree.nodes.value.items == []) ==> r == Ok([])
    ensures r.Err? <==> tree.nodes.Some? && tree.nodes.value.Listed? && tree.nodes.value.items != []
    ensures r.Ok? && tree.nodes.Some? && tree.nodes.value.Keyed? ==>
              forall c :: c in r.value ==> IsCycle(tree.nodes.value.entries, c)
    ensures tree.nodes.Some? && tree.nodes.value.Keyed? ==>
              r.Ok? && forall v :: Edge(tree.nodes.value.entries, v, v) ==> [v, v] in r.value
    ensures tree.nodes.Some? && tree.nodes.value.Keyed? && (forall c :: !IsCycle(tree.nodes.value.entries, c)) ==>
              r == Ok([])
    ensures tree.nodes.Some? && tree.nodes.value.Keyed? && (exists c :: IsCycle(tree.nodes.value.entries, c)) ==>
              r.Ok? && r.value != []
  {
    if tree.nodes.None? {
      return Ok([]);
    }
    match tree.nodes.value
    case Listed(items) =>
      if items == [] {
        return Ok([]);
      }
      return Err(TypeError);
    case Keyed(entries) =>
      var search := new CycleSearch(entries);
      var i := 0;
      while i < |entries|
        invariant 0 <= i <= |entries|
        invariant search.entries == entries
        invariant AllCycles(entries, search.circularRefs)
        invariant forall k :: 0 <= k < i ==> entries[k].0 in search.visited
        invariant SelfLoopsIn(entries, search.visited, search.circularRefs)
        invariant search.Ranked()
      {
        if entries[i].0 !in search.visited {
          ghost var refs0 := search.circularRefs;
          ghost var visited0 := search.visited;
          assert search.Branch([], {}, entries[i].0);
          search.Dfs(entries[i].0, [], {});
          SelfLoopsGrow(entries, visited0, refs0, search.circularRefs);
        }
        i := i + 1;
      }
      forall v | Edge(entries, v, v)
        ensures [v, v] in search.circularRefs
      {
        var k :| 0 <= k < |entries| && entries[k].0 == v;
      }
      if search.circularRefs != [] {
        assert IsCycle(entries, search.circularRefs[0]);
      } else {
        forall v | v in Keys(entries)
          ensures v in search.rank
        {
          var k :| 0 <= k < |entries| && entries[k].0 == v;
        }
        NoCycleWhenRanked(entries, search.rank);
      }
      return Ok(search.circularRefs);
  }

  // =====================================================================
  // find_all_paths

  /** A possible remainder of a path: it starts at `current`, ends at
      `target`, repeats nothing, follows edges and avoids `visited`. */
  ghost predicate Completes(entries: seq<(string, Node)>, s: seq<string>, current: string, target: string,
                            visited: set<string>)
  {
    s != [] && s[0] == current && s[|s| - 1] == target && Distinct(s) && IsWalk(entries, s)
    && Elems(s) !! visited
  }

  /** Every remainder from `current` has been collected behind `path`. */
  ghost predicate AllCollected(entries: seq<(string, Node)>, target: string, found: seq<seq<string>>,
                               path: seq<string>, current: string, visited: set<string>)
  {
    forall s :: Completes(entries, s, current, target, visited) ==> path + s in found
  }

  lemma CollectedGrows(entries: seq<(string, Node)>, target: string, found: seq<seq<string>>,
                       found': seq<seq<string>>, path: seq<string>, current: string, visited: set<string>)
    requires found <= found' && AllCollected(entries, target, found, path, current, visited)
    ensures AllCollected(entries, target, found', path, current, visited)
  {
    forall s | Completes(entries, s, current, target, visited)
      ensures path + s in found'
    {
      PrefixMember(found, found', path + s);
    }
  }

  lemma CompletesTail(entries: seq<(string, Node)>, s: seq<string>, current: string, target: string,
                      visited: set<string>)
    requires Completes(entries, s, current, target, visited) && |s| > 1
    ensures s[1] != current && s[1] !in visited
    ensures Completes(entries, s[1..], s[1], target, visited + {current})
  {
    var t := s[1..];
    assert Elems(s) == {s[0]} + Elems(t);
    assert s[1] in Elems(s);
    forall i | 0 <= i < |t| - 1
      ensures Edge(entries, t[i], t[i + 1])
    {
      assert t[i] == s[i + 1] && t[i + 1] == s[i + 2];
    }
  }

  /** The loop of an expansion step keeps every earlier target's remainders
      collected while the result list grows, and adds the current one. */
  lemma CollectedSoFar(entries: seq<(string, Node)>, target: string, found: seq<seq<string>>,
                       found': seq<seq<string>>, path: seq<string>, targets: seq<string>, visited: set<string>,
                       i: nat)
    requires i < |targets| && found <= found'
    requires forall j :: 0 <= j < i && targets[j] !in visited ==>
               AllCollected(entries, target, found, path, targets[j], visited)
    requires targets[i] !in visited ==> AllCollected(entries, target, found', path, targets[i], visited)
    ensures forall j :: 0 <= j < i + 1 && targets[j] !in visited ==>
              AllCollected(entries, target, found', path, targets[j], visited)
  {
    forall j | 0 <= j < i && targets[j] !in visited
      ensures AllCollected(entries, target, found', path, targets[j], visited)
    {
      CollectedGrows(entries, target, found, found', path, targets[j], visited);
    }
  }

  /** Completeness of one expansion step: a remainder from `current` goes
      through one of its targets, whose remainders were all collected. */
  lemma ExpansionComplete(entries: seq<(string, Node)>, target: string, found: seq<seq<string>>,
                          path: seq<string>, current: string, visited: set<string>)
    requires current in Keys(entries) && current != target
    requires forall j :: 0 <= j < |Succ(entries, current)| && Succ(entries, current)[j] !in visited + {current} ==>
               AllCollected(entries, target, found, path + [current], Succ(entries, current)[j], visited + {current})
    ensures AllCollected(entries, target, found, path, current, visited)
  {
    var targets := Succ(entries, current);
    forall s | Completes(entries, s, current, target, visited)
      ensures path + s in found
    {
      assert |s| > 1;
      assert Edge(entries, s[0], s[1]);
      var j := IndexOf(targets, s[1]);
      CompletesTail(entries, s, current, target, visited);
      assert (path + [current]) + s[1..] == path + s;
    }
  }

  /** Every collected path is a simple path from `start` to `target`. */
  ghost predicate AllSimple(entries: seq<(string, Node)>, start: string, target: string, found: seq<seq<string>>)
  {
    forall p :: p in found ==> IsSimplePath(entries, p, start, target)
  }

  /** The shared result list of `find_all_paths`. */
  class PathSearch {
    const entries: seq<(string, Node)>
    const start: string
    const target: string
    var allPaths: seq<seq<string>>

    constructor (entries: seq<(string, Node)>, start: string, target: string)
      ensures this.entries == entries && this.start == start && this.target == target && allPaths == []
    {
      this.entries := entries;
      this.start := start;
      this.target := target;
      allPaths := [];
    }

    /** The call state of `dfs`: the path is a repetition-free walk from
        the start whose ids are exactly `visited`, ending with an edge into
        `current`, and every path found so far is a simple start-to-target
        path. */
    ghost predicate Call(current: string, path: seq<string>, visited: set<string>)
    {
      && current in Keys(entries)
      && Distinct(path) && Elems(path) == visited && visited <= Keys(entries) && IsWalk(entries, path)
      && (path == [] ==> current == start)
      && (path != [] ==> path[0] == start && Edge(entries, path[|path| - 1], current))
      && target !in visited
    }

    /** `dfs(current_id, target_id, path, visited)`, with a visited set
        copied per branch: reaching the target records the path; every
        simple path through `path` and `current` is collected, and nothing
        else. */
    method Dfs(current: string, path: seq<string>, visited: set<string>)
      requires Call(current, path, visited) && AllSimple(entries, start, target, allPaths)
      modifies this
      decreases |Keys(entries) - visited|, 1
      ensures AllSimple(entries, start, target, allPaths)
      ensures old(allPaths) <= allPaths
      ensures current == target ==> allPaths == old(allPaths) + [path + [current]]
      ensures AllCollected(entries, target, allPaths, path, current, visited)
    {
      if current == target {
        assert current !in path by { assert current !in Elems(path); }
        SimplePathClosed(path, current);
        allPaths := allPaths + [path + [current]];
        forall s | Completes(entries, s, current, target, visited)
          ensures path + s in allPaths
        {
          assert s == [current];
        }
        return;
      }
      if current in visited {
        return;
      }
      Explore(current, path, visited);
    }

    /** The body of `dfs` past its two guards: push `current` and recurse
        into every target not yet on the path. */
    method Explore(current: string, path: seq<string>, visited: set<string>)
      requires Call(current, path, visited) && AllSimple(entries, start, target, allPaths)
      requires current != target && current !in visited
      modifies this
      decreases |Keys(entries) - visited|, 0
      ensures AllSimple(entries, start, target, allPaths)
      ensures old(allPaths) <= allPaths
      ensures AllCollected(entries, target, allPaths, path, current, visited)
    {
      var visited' := visited + {current};
      var path' := path + [current];
      var targets := Succ(entries, current);
      var i := 0;
      while i < |targets|
        invariant 0 <= i <= |targets|
        invariant AllSimple(entries, start, target, allPaths)
        invariant old(allPaths) <= allPaths
        invariant forall j :: 0 <= j < i && targets[j] !in visited' ==>
                    AllCollected(entries, target, allPaths, path', targets[j], visited')
      {
        ghost var found0 := allPaths;
        var next := targets[i];
        if next !in visited' {
          CallStep(current, path, visited, next);
          Dfs(next, path', visited');
        }
        CollectedSoFar(entries, target, found0, allPaths, path', targets, visited', i);
        i := i + 1;
      }
      ExpansionComplete(entries, target, allPaths, path, current, visited);
    }

    lemma CallStep(current: string, path: seq<string>, visited: set<string>, next: string)
      requires Call(current, path, visited) && current !in visited && current != target
      requires next in Succ(entries, current) && next !in visited + {current}
      ensures Call(next, path + [current], visited + {current})
      ensures |Keys(entries) - (visited + {current})| < |Keys(entries) - visited|
    {
      assert current !in path by { assert current !in Elems(path); }
      assert Elems(path + [current]) == visited + {current};
      assert Keys(entries) - (visited + {current}) < Keys(entries) - visited;
      WalkExtends(path, current);
    }

    lemma SimplePathClosed(path: seq<string>, current: string)
      requires current == target
      requires Distinct(path) && IsWalk(entries, path) && current !in path
      requires path == [] ==> current == start
      requires path != [] ==> path[0] == start && Edge(entries, path[|path| - 1], current)
      ensures IsSimplePath(entries, path + [current], start, target)
    {
      var p := path + [current];
      forall i | 0 <= i < |p| - 1
        ensures Edge(entries, p[i], p[i + 1])
      {
        if i < |path| - 1 {
          assert p[i] == path[i] && p[i + 1] == path[i + 1];
        }
      }
    }

    lemma WalkExtends(path: seq<string>, current: string)
      requires IsWalk(entries, path)
      requires path != [] ==> Edge(entries, path[|path| - 1], current)
      ensures IsWalk(entries, path + [current])
    {
      var p := path + [current];
      forall i | 0 <= i < |p| - 1
        ensures Edge(entries, p[i], p[i + 1])
      {
        if i < |path| - 1 {
          assert p[i] == path[i] && p[i + 1] == path[i + 1];
        }
      }
    }
  }

  /** `find_all_paths`: exactly the simple paths from `start` to `end` over
      the graph's edges; none when either endpoint is absent (or the nodes
      are a list, which holds no key); just `[start]` when they coincide. */
  method FindAllPaths(tree: Tree, startId: Option<string>, endId: Option<string>) returns (paths: seq<seq<string>>)
    ensures tree.nodes.None? || tree.nodes.value.Listed? ==> paths == []
    ensures tree.nodes.Some? && tree.nodes.value.Keyed? ==>
              var entries := tree.nodes.value.entries;
              && (startId.None? || startId.value !in Keys(entries) || endId.None? || endId.value !in Keys(entries)
                  ==> paths == [])
              && (startId.Some? && endId.Some? ==>
                    && (forall p :: p in paths ==> IsSimplePath(entries, p, startId.value, endId.value))
                    && (startId.value in Keys(entries) && endId.value in Keys(entries) ==>
                          forall p :: IsSimplePath(entries, p, startId.value, endId.value) ==> p in paths))
              && (startId.Some? && startId == endId && startId.value in Keys(entries) ==> paths == [[startId.value]])
  {
    if tree.nodes.None? || tree.nodes.value.Listed? {
      return [];
    }
    var entries := tree.nodes.value.entries;
    if startId.None? || startId.value !in Keys(entries) || endId.None? || endId.value !in Keys(entries) {
      return [];
    }
    var search := new PathSearch(entries, startId.value, endId.value);
    search.Dfs(startId.value, [], {});
    assert [] + [startId.value] == [startId.value];
    forall p | IsSimplePath(entries, p, startId.value, endId.value)
      ensures p in search.allPaths
    {
      assert Completes(entries, p, startId.value, endId.value, {});
      assert [] + p == p;
    }
    return search.allPaths;
  }
}
