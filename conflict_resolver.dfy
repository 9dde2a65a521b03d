/** The conflict resolver: it groups the detectors' conflicts by kind and
    hands each group to a handler. The circular and redundant handlers edit
    the node dictionaries in place; the contradiction and overlap handlers
    only ask a text generator, modelled as an oracle that answers or
    fails. */
module ConflictResolver {
  import opened Base
  import opened Graph
  import ValidationAgent

  // =====================================================================
  // Conflicts as the resolver receives them

  const ContradictoryKind: string := "contradictory_paths"
  const CircularKind: string := "circular_dependency"
  const RedundantKind: string := "redundant_paths"
  const OverlappingKind: string := "overlapping_conditions"

  /** A conflict dictionary, restricted to the keys the resolver reads. */
  datatype ConflictRec = ConflictRec(kind: Option<string>, description: Option<string>, nodes: Option<seq<string>>)

  /** An element of the incoming conflict list: a dictionary, a bare string
      or some other value. */
  datatype RawConflict = StrConflict(s: string) | DictConflict(c: ConflictRec) | OtherConflict

  /** An entry of the `resolutions` list. */
  datatype Resolution = Resolution(conflict: ConflictRec, resolution: string, action: string)

  /** The `type` string of a detector's conflict kind. */
  function KindName(k: ValidationAgent.ConflictKind): (r: string)
    ensures r in {ContradictoryKind, CircularKind, RedundantKind, OverlappingKind}
  {
    match k
    case ContradictoryPaths => ContradictoryKind
    case CircularDependency => CircularKind
    case RedundantPaths => RedundantKind
    case OverlappingConditions => OverlappingKind
  }

  /** A detector's conflict as the dictionary the resolver receives. */
  function FromDetector(c: ValidationAgent.Conflict): RawConflict
  {
    DictConflict(ConflictRec(Some(KindName(c.kind)), Some(c.description), Some(c.nodes)))
  }

  /** Every detector kind reaches its own handler. */
  lemma KindNamesDistinct(a: ValidationAgent.ConflictKind, b: ValidationAgent.ConflictKind)
    ensures KindName(a) == KindName(b) <==> a == b
  {
  }

  // =====================================================================
  // _group_conflicts_by_type

  /** What grouping keeps of one element: a dictionary as it is, a string
      wrapped as a conflict of kind `unknown`, nothing otherwise. */
  function AsConflict(c: RawConflict): Option<ConflictRec>
  {
    match c
    case StrConflict(s) => Some(ConflictRec(Some("unknown"), Some(s), Some([])))
    case DictConflict(r) => Some(r)
    case OtherConflict => None
  }

  /** `conflict.get('type', 'unknown')`. */
  function KindOf(c: ConflictRec): string
  {
    if c.kind.Some? then c.kind.value else "unknown"
  }

  /** The conflicts grouping keeps, in input order. */
  function Kept(cs: seq<RawConflict>): (r: seq<ConflictRec>)
    ensures |r| <= |cs|
  {
    if cs == [] then []
    else
      var n := |cs| - 1;
      Kept(cs[..n]) + (if AsConflict(cs[n]).Some? then [AsConflict(cs[n]).value] else [])
  }

  /** Exactly the dictionaries and (wrapped) strings survive grouping. */
  lemma {:induction false} KeptExactly(cs: seq<RawConflict>, c: ConflictRec)
    ensures c in Kept(cs) <==> exists i :: 0 <= i < |cs| && AsConflict(cs[i]) == Some(c)
  {
    if cs != [] {
      var n := |cs| - 1;
      KeptExactly(cs[..n], c);
      if c in Kept(cs[..n]) {
        var i :| 0 <= i < n && AsConflict(cs[..n][i]) == Some(c);
        assert cs[..n][i] == cs[i];
      } else if c in Kept(cs) {
        assert AsConflict(cs[n]) == Some(c);
      }
      if exists i :: 0 <= i < n && AsConflict(cs[i]) == Some(c) {
        var i :| 0 <= i < n && AsConflict(cs[i]) == Some(c);
        assert cs[..n][i] == cs[i];
      }
    }
  }

  /** The conflicts of kind `k`, in input order. */
  function OfKind(cs: seq<ConflictRec>, k: string): (r: seq<ConflictRec>)
    ensures |r| <= |cs|
  {
    if cs == [] then []
    else
      var n := |cs| - 1;
      OfKind(cs[..n], k) + (if KindOf(cs[n]) == k then [cs[n]] else [])
  }

  /** The kinds in order of first appearance. */
  function KindsInOrder(cs: seq<ConflictRec>): (r: seq<string>)
  {
    if cs == [] then []
    else
      var n := |cs| - 1;
      var prev := KindsInOrder(cs[..n]);
      if KindOf(cs[n]) in prev then prev else prev + [KindOf(cs[n])]
  }

  /** A kind's list holds exactly the conflicts of that kind. */
  lemma {:induction false} OfKindExactly(cs: seq<ConflictRec>, k: string)
    ensures forall c :: c in OfKind(cs, k) <==> c in cs && KindOf(c) == k
  {
    if cs != [] {
      var n := |cs| - 1;
      OfKindExactly(cs[..n], k);
      assert cs == cs[..n] + [cs[n]];
    }
  }

  lemma {:induction false} OfKindAbsent(cs: seq<ConflictRec>, k: string)
    requires forall i :: 0 <= i < |cs| ==> KindOf(cs[i]) != k
    ensures OfKind(cs, k) == []
  {
    if cs != [] {
      var n := |cs| - 1;
      assert forall i :: 0 <= i < n ==> cs[..n][i] == cs[i];
      OfKindAbsent(cs[..n], k);
    }
  }

  /** Each kind present is listed once. */
  lemma {:induction false} KindsInOrderExactly(cs: seq<ConflictRec>)
    ensures Distinct(KindsInOrder(cs))
    ensures forall k :: k in KindsInOrder(cs) <==> exists c :: c in cs && KindOf(c) == k
  {
    if cs != [] {
      var n := |cs| - 1;
      KindsInOrderExactly(cs[..n]);
      assert cs == cs[..n] + [cs[n]];
    }
  }

  /** The `grouped` dictionary: kinds in insertion order and their lists. */
  datatype Groups = Groups(order: seq<string>, lists: map<string, seq<ConflictRec>>)

  /** `g` is the grouping of `cs`. */
  predicate GroupsOf(g: Groups, cs: seq<ConflictRec>)
  {
    && g.order == KindsInOrder(cs)
    && g.lists.Keys == Elems(g.order)
    && forall k :: k in g.lists ==> g.lists[k] == OfKind(cs, k)
  }

  /** `grouped[k].append(c)`, creating the list first when `k` is new. */
  function Append(g: Groups, c: ConflictRec): Groups
  {
    var k := KindOf(c);
    if k !in g.lists then Groups(g.order + [k], g.lists[k := [c]])
    else g.(lists := g.lists[k := g.lists[k] + [c]])
  }

  /** One more conflict: its kind joins the order if new, and its kind's
      list grows by it. */
  lemma GroupsSnoc(cs: seq<ConflictRec>, c: ConflictRec)
    ensures KindsInOrder(cs + [c]) ==
              if KindOf(c) in KindsInOrder(cs) then KindsInOrder(cs) else KindsInOrder(cs) + [KindOf(c)]
    ensures forall k :: OfKind(cs + [c], k) == OfKind(cs, k) + (if KindOf(c) == k then [c] else [])
  {
    var cs' := cs + [c];
    assert cs'[..|cs|] == cs && cs'[|cs|] == c;
  }

  /** After appending, the order and the keys agree with the longer run. */
  lemma AppendOrder(g: Groups, cs: seq<ConflictRec>, c: ConflictRec)
    requires GroupsOf(g, cs)
    ensures Append(g, c).order == KindsInOrder(cs + [c])
    ensures Append(g, c).lists.Keys == Elems(Append(g, c).order)
  {
    GroupsSnoc(cs, c);
    var k0 := KindOf(c);
    var g' := Append(g, c);
    assert k0 in g.lists <==> k0 in g.order;
    if k0 in g.lists {
      assert g' == g.(lists := g.lists[k0 := g.lists[k0] + [c]]);
      assert g'.lists.Keys == g.lists.Keys;
    } else {
      assert g' == Groups(g.order + [k0], g.lists[k0 := [c]]);
      ElemsSnoc(g.order, k0);
    }
  }

  /** After appending, the list of the new conflict's kind is its kind's
      list in the longer run. */
  lemma AppendOwnList(g: Groups, cs: seq<ConflictRec>, c: ConflictRec)
    requires GroupsOf(g, cs)
    ensures Append(g, c).lists[KindOf(c)] == OfKind(cs + [c], KindOf(c))
  {
    GroupsSnoc(cs, c);
    if KindOf(c) !in g.lists {
      KindsInOrderExactly(cs);
      assert forall i :: 0 <= i < |cs| ==> cs[i] in cs;
      OfKindAbsent(cs, KindOf(c));
    }
  }

  /** Appending leaves the other kinds' lists as they were, and so right. */
  lemma AppendOtherLists(g: Groups, cs: seq<ConflictRec>, c: ConflictRec)
    requires GroupsOf(g, cs)
    ensures forall k :: k in Append(g, c).lists && k != KindOf(c) ==> Append(g, c).lists[k] == OfKind(cs + [c], k)
  {
    GroupsSnoc(cs, c);
  }

  lemma AppendGroups(g: Groups, cs: seq<ConflictRec>, c: ConflictRec)
    requires GroupsOf(g, cs)
    ensures GroupsOf(Append(g, c), cs + [c])
  {
    AppendOrder(g, cs, c);
    AppendOwnList(g, cs, c);
    AppendOtherLists(g, cs, c);
  }

  /** `_group_conflicts_by_type`. */
  method GroupConflictsByType(conflicts: seq<RawConflict>) returns (g: Groups)
    ensures GroupsOf(g, Kept(conflicts))
  {
    g := Groups([], map[]);
    var i := 0;
    while i < |conflicts|
      invariant 0 <= i <= |conflicts|
      invariant GroupsOf(g, Kept(conflicts[..i]))
    {
      assert conflicts[..i + 1][..i] == conflicts[..i];
      var c := AsConflict(conflicts[i]);
      assert Kept(conflicts[..i + 1]) == Kept(conflicts[..i]) + (if c.Some? then [c.value] else []);
      if c.Some? {
        AppendGroups(g, Kept(conflicts[..i]), c.value);
        g := Append(g, c.value);
      } else {
        assert Kept(conflicts[..i + 1]) == Kept(conflicts[..i]);
      }
      assert GroupsOf(g, Kept(conflicts[..i + 1]));
      i := i + 1;
    }
    assert conflicts[..i] == conflicts;
  }

  /** Every kept conflict sits in the group of its own kind and in no
      other. */
  lemma GroupedOnce(g: Groups, cs: seq<ConflictRec>, c: ConflictRec, k: string)
    requires GroupsOf(g, cs)
    requires c in cs
    ensures KindOf(c) in g.lists && c in g.lists[KindOf(c)]
    ensures k in g.lists && c in g.lists[k] ==> k == KindOf(c)
  {
    KindsInOrderExactly(cs);
    OfKindExactly(cs, KindOf(c));
    OfKindExactly(cs, k);
  }

  // =====================================================================
  // The handlers that ask a text generator

  /** The handler can build its prompt (it indexes `description` and
      `nodes`) and the oracle answers. */
  predicate Answered(c: ConflictRec, llm: ConflictRec -> Option<string>)
  {
    c.description.Some? && c.nodes.Some? && llm(c).Some?
  }

  /** What `_resolve_contradictory_paths` and
      `_resolve_overlapping_conditions` report, with `action` their fixed
      action text. */
  function AskEach(cs: seq<ConflictRec>, llm: ConflictRec -> Option<string>, action: string): (r: (seq<Resolution>, seq<ConflictRec>))
    ensures |r.0| + |r.1| == |cs|
  {
    if cs == [] then ([], [])
    else
      var n := |cs| - 1;
      var prev := AskEach(cs[..n], llm, action);
      if Answered(cs[n], llm) then (prev.0 + [Resolution(cs[n], llm(cs[n]).value, action)], prev.1)
      else (prev.0, prev.1 + [cs[n]])
  }

  /** Answered conflicts become resolutions carrying the oracle's text and
      the fixed action; the others are reported unresolved. */
  lemma {:induction false} AskEachSplits(cs: seq<ConflictRec>, llm: ConflictRec -> Option<string>, action: string)
    ensures forall c :: c in AskEach(cs, llm, action).1 <==> c in cs && !Answered(c, llm)
    ensures forall r :: r in AskEach(cs, llm, action).0 <==>
              r.conflict in cs && Answered(r.conflict, llm) && r == Resolution(r.conflict, llm(r.conflict).value, action)
  {
    if cs != [] {
      var n := |cs| - 1;
      AskEachSplits(cs[..n], llm, action);
      assert cs == cs[..n] + [cs[n]];
    }
  }

  const ContradictoryAction: string := "Modified conditions to be mutually exclusive"
  const OverlappingAction: string := "Refined overlapping conditions"

  /** The loop shared by the two oracle handlers; the tree is not touched. */
  method AskOracle(conflicts: seq<ConflictRec>, llm: ConflictRec -> Option<string>, action: string)
    returns (resolved: seq<Resolution>, unresolved: seq<ConflictRec>)
    ensures (resolved, unresolved) == AskEach(conflicts, llm, action)
  {
    resolved, unresolved := [], [];
    var i := 0;
    while i < |conflicts|
      invariant 0 <= i <= |conflicts|
      invariant (resolved, unresolved) == AskEach(conflicts[..i], llm, action)
    {
      assert conflicts[..i + 1][..i] == conflicts[..i];
      var c := conflicts[i];
      if c.description.Some? && c.nodes.Some? {
        var answer := llm(c);
        if answer.Some? {
          resolved := resolved + [Resolution(c, answer.value, action)];
        } else {
          unresolved := unresolved + [c];
        }
      } else {
        unresolved := unresolved + [c];
      }
      i := i + 1;
    }
    assert conflicts[..i] == conflicts;
  }

  /** `_resolve_contradictory_paths`. */
  method ResolveContradictoryPaths(conflicts: seq<ConflictRec>, llm: ConflictRec -> Option<string>)
    returns (resolved: seq<Resolution>, unresolved: seq<ConflictRec>)
    ensures (resolved, unresolved) == AskEach(conflicts, llm, ContradictoryAction)
  {
    resolved, unresolved := AskOracle(conflicts, llm, ContradictoryAction);
  }

  /** `_resolve_overlapping_conditions`. */
  method ResolveOverlappingConditions(conflicts: seq<ConflictRec>, llm: ConflictRec -> Option<string>)
    returns (resolved: seq<Resolution>, unresolved: seq<ConflictRec>)
    ensures (resolved, unresolved) == AskEach(conflicts, llm, OverlappingAction)
  {
    resolved, unresolved := AskOracle(conflicts, llm, OverlappingAction);
  }

  // =====================================================================
  // Node dictionaries on the heap

  /** A node dictionary. The resolver's shallow copy of the tree shares
      these objects with the caller, so edits to them are visible there. */
  class NodeObj {
    var node: Node

    constructor (n: Node)
      ensures node == n
    {
      node := n;
    }
  }

  /** The object behind `tree['nodes']`: a dictionary (its keys and values
      in insertion order) or a list of node dictionaries. */
  class NodeStore {
    var isDict: bool
    var keys: seq<string>
    var objs: seq<NodeObj>

    ghost predicate Valid()
      reads this
    {
      && (isDict ==> |keys| == |objs| && Distinct(keys))
      && (!isDict ==> keys == [])
    }

    constructor List(items: seq<NodeObj>)
      ensures Valid() && !isDict && objs == items
    {
      isDict := false;
      keys := [];
      objs := items;
    }

    constructor Dict(ks: seq<string>, items: seq<NodeObj>)
      requires |ks| == |items| && Distinct(ks)
      ensures Valid() && isDict && keys == ks && objs == items
    {
      isDict := true;
      keys := ks;
      objs := items;
    }

    /** `nodes[k] = o` on a dictionary: replaces the value of an existing
        key, or appends a new entry. */
    method SetKey(k: string, o: NodeObj)
      requires Valid() && isDict
      modifies this
      ensures Valid() && isDict
      ensures k in old(keys) ==> keys == old(keys) && objs == old(objs)[IndexOf(old(keys), k) := o]
      ensures k !in old(keys) ==> keys == old(keys) + [k] && objs == old(objs) + [o]
    {
      if k in keys {
        objs := objs[IndexOf(keys, k) := o];
      } else {
        keys := keys + [k];
        objs := objs + [o];
      }
    }
  }

  /** The resolver's view of a tree dictionary: its `nodes` entry. The other
      entries are carried along untouched. */
  datatype TreeDict = TreeDict(nodes: Option<NodeStore>)

  /** What a handler may change: the node container and its dictionaries. */
  /** The node container itself, when there is one. */
  function StoreOf(t: TreeDict): set<NodeStore>
  {
    if t.nodes.Some? then {t.nodes.value} else {}
  }

  /** The nodes of a tree's container, as a list. */
  function ObjsOf(t: TreeDict): seq<NodeObj>
    reads StoreOf(t)
  {
    if t.nodes.Some? then t.nodes.value.objs else []
  }


  /** Every key of `a` except `connections` is as in `b`. */
  predicate SameBesidesConnections(a: Node, b: Node)
  {
    a == b.(connections := a.connections)
  }

  lemma SameBesidesTransitive(a: Node, b: Node, c: Node)
    requires SameBesidesConnections(b, a) && SameBesidesConnections(c, b)
    ensures SameBesidesConnections(c, a)
  {
  }

  /** `after` keeps only records `before` had: it is `before` itself, or a
      list of some of `before`'s records (none when `before` was absent or
      an empty dictionary). */
  predicate FewerRecs(before: Option<Conns>, after: Option<Conns>)
  {
    || after == before
    || (after.Some? && after.value.ListConns? &&
         (if before.Some? && before.value.ListConns? then forall r :: r in after.value.recs ==> r in before.value.recs
          else after.value.recs == []))
  }

  lemma FewerRecsTransitive(a: Option<Conns>, b: Option<Conns>, c: Option<Conns>)
    requires FewerRecs(a, b) && FewerRecs(b, c)
    ensures FewerRecs(a, c)
  {
    if c != b && c.value.recs != [] {
      assert c.value.recs[0] in c.value.recs;
    }
  }

  /** `conflict.get('nodes', [])`. */
  function ListedNodes(c: ConflictRec): seq<string>
  {
    if c.nodes.Some? then c.nodes.value else []
  }

  /** A dictionary of connections with at least one label: iterating it
      yields label strings, which have no `get`. */
  predicate LabelledConns(c: Option<Conns>)
  {
    c.Some? && c.value.DictConns? && c.value.labelled != []
  }

  // =====================================================================
  // _resolve_circular_dependencies

  const CircularAction: string := "Broke circular dependency"

  /** The edge the circular handler cuts: for a closed cycle of at least
      three entries the last step, otherwise from the last entry back to
      the first. */
  function CycleEdge(cycle: seq<string>): (r: (string, string))
    requires |cycle| >= 2
    ensures r.1 == cycle[0] || (|cycle| >= 3 && cycle[0] == cycle[|cycle| - 1] && r.1 == cycle[|cycle| - 1])
  {
    if |cycle| >= 3 && cycle[0] == cycle[|cycle| - 1] then (cycle[|cycle| - 2], cycle[|cycle| - 1])
    else (cycle[|cycle| - 1], cycle[0])
  }

  /** On a cycle the detector reports, the cut edge ends at the cycle's
      first node and is an edge of the graph. */
  lemma CycleEdgeOnCycle(entries: seq<(string, Node)>, cycle: seq<string>)
    requires IsCycle(entries, cycle)
    ensures CycleEdge(cycle).1 == cycle[0]
    ensures Edge(entries, CycleEdge(cycle).0, CycleEdge(cycle).1)
  {
    assert Edge(entries, cycle[|cycle| - 2], cycle[|cycle| - 1]);
  }

  /** The records the circular handler keeps: those whose `to` is not the
      cut edge's target. */
  function NotTo(to: string): Rec -> bool
  {
    (r: Rec) => r.to != Some(to)
  }

  /** `[conn for conn in node.get('connections', []) if conn.get('to') != to]`. */
  function DropTo(conns: Option<Conns>, to: string): (r: Result<seq<Rec>>)
    ensures r.Err? <==> LabelledConns(conns)
    ensures r.Ok? ==> FewerRecs(conns, Some(ListConns(r.value)))
    ensures r.Ok? ==> forall x :: x in r.value ==> x.to != Some(to)
  {
    if conns.None? then Ok([])
    else match conns.value
      case DictConns(l) => if l == [] then Ok([]) else Err(AttributeError)
      case ListConns(recs) =>
        FilterExactly(recs, NotTo(to));
        Ok(Filter(recs, NotTo(to)))
  }

  /** The first dictionary in `objs` whose `id` is `id`, or `|objs|`. */
  method FindFrom(objs: seq<NodeObj>, id: string) returns (j: nat)
    ensures j <= |objs|
    ensures j < |objs| ==> objs[j].node.id == Some(id)
    ensures forall k :: 0 <= k < j ==> objs[k].node.id != Some(id)
  {
    j := 0;
    while j < |objs| && objs[j].node.id != Some(id)
      invariant j <= |objs|
      invariant forall k :: 0 <= k < j ==> objs[k].node.id != Some(id)
    {
      j := j + 1;
    }
  }

  /** The outcome of one conflict in a handler. */
  datatype Verdict = Resolved(resolution: Resolution) | Unresolved(conflict: ConflictRec) | Silent

  /** The message of a cut edge. */
  function CutMessage(from: string, to: string): string
  {
    "Removed circular connection from " + from + " to " + to
  }

  /** One iteration of the circular handler's conflict loop. `snapshot` is
      `nodes_list`, taken when the handler started. */
  method BreakCycle(store: NodeStore?, snapshot: seq<NodeObj>, c: ConflictRec) returns (v: Verdict, at: nat)
    requires store != null ==> store.Valid()
    requires store == null ==> snapshot == []
    modifies if store != null then {store} else {}, set o: NodeObj | o in snapshot
    ensures store != null ==> store.Valid() && store.isDict == old(store.isDict)
    ensures store != null ==> |old(store.keys)| <= |store.keys|
    ensures store != null ==> forall o :: o in store.objs ==> o in old(store.objs) || o in snapshot
    ensures forall o :: o in snapshot ==> SameBesidesConnections(o.node, old(o.node)) && FewerRecs(old(o.node.connections), o.node.connections)
    ensures |ListedNodes(c)| < 2 ==> v == Unresolved(c)
    ensures v.Unresolved? ==> v.conflict == c
    ensures v.Resolved? ==> v.resolution.conflict == c && |ListedNodes(c)| >= 2 && v.resolution.action == CircularAction
    ensures v.Unresolved? || v.Silent? ==>
              (forall o :: o in snapshot ==> o.node == old(o.node))
              && (store != null ==> store.keys == old(store.keys) && store.objs == old(store.objs))
    ensures |ListedNodes(c)| >= 2 ==>
              var (from, to) := CycleEdge(ListedNodes(c));
              && at <= |snapshot|
              && (forall k :: 0 <= k < at ==> old(snapshot[k].node.id) != Some(from))
              && (at == |snapshot| <==> v.Silent?)
              && (at < |snapshot| ==>
                    && old(snapshot[at].node.id) == Some(from)
                    && (v.Unresolved? <==> LabelledConns(old(snapshot[at].node.connections)))
                    && (v.Resolved? ==>
                          && v.resolution == Resolution(c, CutMessage(from, to), CircularAction)
                          && snapshot[at].node == old(snapshot[at].node).(connections := Some(ListConns(DropTo(old(snapshot[at].node.connections), to).value)))
                          && (forall o :: o in snapshot && o != snapshot[at] ==> o.node == old(o.node))
                          && (store != null && !store.isDict ==>
                                store.keys == old(store.keys) && store.objs == old(store.objs))
                          && (store != null && store.isDict && from in old(store.keys) ==>
                                && store.keys == old(store.keys)
                                && store.objs == old(store.objs)[IndexOf(old(store.keys), from) := snapshot[at]])
                          && (store != null && store.isDict && from !in old(store.keys) ==>
                                store.keys == old(store.keys) + [from] && store.objs == old(store.objs) + [snapshot[at]])))
  {
    var cycle := ListedNodes(c);
    at := 0;
    if |cycle| < 2 {
      return Unresolved(c), 0;
    }
    var (from, to) := CycleEdge(cycle);
    at := FindFrom(snapshot, from);
    if at == |snapshot| {
      return Silent, at;
    }
    var node := snapshot[at];
    var kept := DropTo(node.node.connections, to);
    if kept.Err? {
      return Unresolved(c), at;
    }
    node.node := node.node.(connections := Some(ListConns(kept.value)));
    if store.isDict {
      store.SetKey(from, node);
    }
    v := Resolved(Resolution(c, CutMessage(from, to), CircularAction));
  }

  /** What the circular handler has reported for the conflicts `done`: at
      most one entry each, every single-node conflict unresolved, and every
      resolution a multi-node conflict's cut. */
  predicate CircularTally(done: seq<ConflictRec>, resolved: seq<Resolution>, unresolved: seq<ConflictRec>)
  {
    && |resolved| + |unresolved| <= |done|
    && (forall c :: c in unresolved ==> c in done)
    && (forall k :: 0 <= k < |done| && |ListedNodes(done[k])| < 2 ==> done[k] in unresolved)
    && (forall r :: r in resolved ==> r.conflict in done && |ListedNodes(r.conflict)| >= 2 && r.action == CircularAction)
  }

  lemma CircularTallyStep(done: seq<ConflictRec>, resolved: seq<Resolution>, unresolved: seq<ConflictRec>, c: ConflictRec, v: Verdict)
    requires CircularTally(done, resolved, unresolved)
    requires |ListedNodes(c)| < 2 ==> v == Unresolved(c)
    requires v.Unresolved? ==> v.conflict == c
    requires v.Resolved? ==> v.resolution.conflict == c && |ListedNodes(c)| >= 2 && v.resolution.action == CircularAction
    ensures CircularTally(done + [c], resolved + (if v.Resolved? then [v.resolution] else []),
                          unresolved + (if v.Unresolved? then [v.conflict] else []))
  {
    var d := done + [c];
    var u := unresolved + (if v.Unresolved? then [v.conflict] else []);
    forall k | 0 <= k < |d| && |ListedNodes(d[k])| < 2
      ensures d[k] in u
    {
      if k < |done| {
        assert d[k] == done[k];
      }
    }
  }

  /** `_resolve_circular_dependencies`: each conflict cuts one edge, is
      reported unresolved, or (when no node has the cut edge's source id)
      is dropped without a trace. */
  method ResolveCircularDependencies(tree: TreeDict, conflicts: seq<ConflictRec>)
    returns (resolved: seq<Resolution>, unresolved: seq<ConflictRec>)
    requires tree.nodes.Some? ==> tree.nodes.value.Valid()
    modifies StoreOf(tree), set o: NodeObj | o in ObjsOf(tree)
    ensures tree.nodes.Some? ==> tree.nodes.value.Valid() && tree.nodes.value.isDict == old(tree.nodes.value.isDict)
    ensures tree.nodes.Some? ==> |old(tree.nodes.value.keys)| <= |tree.nodes.value.keys|
    ensures tree.nodes.Some? ==> forall o :: o in tree.nodes.value.objs ==> o in old(tree.nodes.value.objs)
    ensures tree.nodes.Some? ==> forall o :: o in old(tree.nodes.value.objs) ==>
              SameBesidesConnections(o.node, old(o.node)) && FewerRecs(old(o.node.connections), o.node.connections)
    ensures |resolved| + |unresolved| <= |conflicts|
    ensures forall c :: c in unresolved ==> c in conflicts
    ensures forall c :: c in conflicts && |ListedNodes(c)| < 2 ==> c in unresolved
    ensures forall r :: r in resolved ==> r.conflict in conflicts && |ListedNodes(r.conflict)| >= 2 && r.action == CircularAction
  {
    var store: NodeStore? := if tree.nodes.Some? then tree.nodes.value else null;
    var snapshot: seq<NodeObj> := if tree.nodes.Some? then tree.nodes.value.objs else [];
    resolved, unresolved := [], [];
    var i := 0;
    while i < |conflicts|
      invariant 0 <= i <= |conflicts|
      invariant CircularTally(conflicts[..i], resolved, unresolved)
      invariant store != null ==> store.Valid() && store.isDict == old(store.isDict)
      invariant store != null ==> |old(store.keys)| <= |store.keys|
      invariant store != null ==> forall o :: o in store.objs ==> o in snapshot
      invariant forall o :: o in snapshot ==>
                  SameBesidesConnections(o.node, old(o.node)) && FewerRecs(old(o.node.connections), o.node.connections)
    {
      ghost var before := map o: NodeObj | o in snapshot :: o.node;
      var v, _ := BreakCycle(store, snapshot, conflicts[i]);
      forall o | o in snapshot
        ensures SameBesidesConnections(o.node, old(o.node)) && FewerRecs(old(o.node.connections), o.node.connections)
      {
        SameBesidesTransitive(old(o.node), before[o], o.node);
        FewerRecsTransitive(old(o.node.connections), before[o].connections, o.node.connections);
      }
      assert conflicts[..i + 1] == conflicts[..i] + [conflicts[i]];
      CircularTallyStep(conflicts[..i], resolved, unresolved, conflicts[i], v);
      resolved := resolved + (if v.Resolved? then [v.resolution] else []);
      unresolved := unresolved + (if v.Unresolved? then [v.conflict] else []);
      i := i + 1;
    }
    assert conflicts[..i] == conflicts;
  }

  // =====================================================================
  // _resolve_redundant_paths

  const RedundantAction: string := "Consolidated redundant paths"

  /** `set(redundant_nodes[len(redundant_nodes)//2:])`. */
  function Removal(c: ConflictRec): set<string>
  {
    var ids := ListedNodes(c);
    Elems(ids[|ids| / 2..])
  }

  /** Of a conflict listing distinct ids, the second half is removed and the
      first half kept. */
  lemma RemovalHalves(c: ConflictRec, k: nat)
    requires Distinct(ListedNodes(c)) && k < |ListedNodes(c)|
    ensures ListedNodes(c)[k] in Removal(c) <==> k >= |ListedNodes(c)| / 2
  {
    var ids := ListedNodes(c);
    if ids[k] in Removal(c) {
      var j :| 0 <= j < |ids[|ids| / 2..]| && ids[|ids| / 2..][j] == ids[k];
      assert ids[|ids| / 2 + j] == ids[k];
    }
  }

  predicate IdIn(id: Option<string>, ids: set<string>)
  {
    id.Some? && id.value in ids
  }

  /** The records the pruning keeps: those whose `to` is not removed. */
  function NotInto(remove: set<string>): Rec -> bool
  {
    (r: Rec) => !IdIn(r.to, remove)
  }

  /** No record of `conns` points (by `to`) at a removed id. */
  predicate Clean(conns: Option<Conns>, remove: set<string>)
  {
    conns.None? || (conns.value.ListConns? && forall r :: r in conns.value.recs ==> !IdIn(r.to, remove))
  }

  /** The pruning of one node's `connections`, when it has that key. */
  function PruneConns(conns: Option<Conns>, remove: set<string>): (r: Result<Option<Conns>>)
    ensures r.Err? <==> LabelledConns(conns)
    ensures r.Ok? ==> Clean(r.value, remove) && FewerRecs(conns, r.value)
  {
    if conns.None? then Ok(None)
    else match conns.value
      case DictConns(l) => if l == [] then Ok(Some(ListConns([]))) else Err(AttributeError)
      case ListConns(recs) =>
        FilterExactly(recs, NotInto(remove));
        Ok(Some(ListConns(Filter(recs, NotInto(remove)))))
  }

  /** Pruning what is already clean changes nothing. */
  lemma PruneClean(conns: Option<Conns>, remove: set<string>)
    requires Clean(conns, remove)
    ensures PruneConns(conns, remove) == Ok(conns)
  {
    if conns.Some? {
      var recs := conns.value.recs;
      assert forall i :: 0 <= i < |recs| ==> recs[i] in recs;
      FilterAll(recs, NotInto(remove));
    }
  }

  /** The `id` of each node dictionary. */
  function IdsOf(objs: seq<NodeObj>): (r: seq<Option<string>>)
    reads objs
    ensures |r| == |objs|
    ensures forall i :: 0 <= i < |objs| ==> r[i] == objs[i].node.id
  {
    if objs == [] then [] else IdsOf(objs[..|objs| - 1]) + [objs[|objs| - 1].node.id]
  }

  /** `[n for n in nodes if n.get('id') not in nodes_to_remove]`, where
      `ids` are the ids of `objs`. */
  function Surviving(objs: seq<NodeObj>, ids: seq<Option<string>>, remove: set<string>): (r: seq<NodeObj>)
    requires |ids| == |objs|
    ensures |r| <= |objs|
    ensures forall i :: 0 <= i < |r| ==> r[i] in objs
  {
    if objs == [] then []
    else
      var n := |objs| - 1;
      Surviving(objs[..n], ids[..n], remove) + (if IdIn(ids[n], remove) then [] else [objs[n]])
  }

  /** Exactly the dictionaries whose id is not removed survive. */
  lemma {:induction false} SurvivingExactly(objs: seq<NodeObj>, remove: set<string>)
    ensures forall o :: o in Surviving(objs, IdsOf(objs), remove) <==> o in objs && !IdIn(o.node.id, remove)
  {
    if objs != [] {
      var n := |objs| - 1;
      SurvivingExactly(objs[..n], remove);
      assert IdsOf(objs)[..n] == IdsOf(objs[..n]);
      assert objs == objs[..n] + [objs[n]];
    }
  }

  /** The node count strictly drops when some node has a removed id. */
  lemma {:induction false} SurvivingShrinks(objs: seq<NodeObj>, ids: seq<Option<string>>, remove: set<string>, k: nat)
    requires |ids| == |objs| && k < |objs| && IdIn(ids[k], remove)
    ensures |Surviving(objs, ids, remove)| < |objs|
  {
    var n := |objs| - 1;
    if k < n {
      SurvivingShrinks(objs[..n], ids[..n], remove, k);
    }
  }

  /** The pruning loop over the new node list: it stops at the first node
      whose connections are a non-empty dictionary. */
  method PruneAll(objs: seq<NodeObj>, remove: set<string>) returns (ok: bool)
    modifies set o: NodeObj | o in objs
    ensures forall o :: o in objs ==>
              SameBesidesConnections(o.node, old(o.node)) && FewerRecs(old(o.node.connections), o.node.connections)
    ensures ok <==> forall k :: 0 <= k < |objs| ==> !LabelledConns(old(objs[k].node.connections))
    ensures ok ==> forall o :: o in objs ==> Clean(o.node.connections, remove)
  {
    var i := 0;
    while i < |objs|
      invariant 0 <= i <= |objs|
      invariant forall k :: 0 <= k < i ==> Clean(objs[k].node.connections, remove) && !LabelledConns(old(objs[k].node.connections))
      invariant forall o :: o in objs ==>
                  SameBesidesConnections(o.node, old(o.node)) && FewerRecs(old(o.node.connections), o.node.connections)
      invariant forall o :: o in objs && o !in objs[..i] ==> o.node == old(o.node)
    {
      var o := objs[i];
      if o in objs[..i] {
        var k :| 0 <= k < i && objs[k] == o;
        PruneClean(o.node.connections, remove);
      }
      var p := PruneConns(o.node.connections, remove);
      if p.Err? {
        return false;
      }
      ghost var mid := o.node.connections;
      o.node := o.node.(connections := p.value);
      FewerRecsTransitive(old(o.node.connections), mid, o.node.connections);
      assert objs[..i + 1] == objs[..i] + [o];
      i := i + 1;
    }
    assert objs[..i] == objs;
    return true;
  }

  /** `tree['nodes']` is a dictionary with at least one key: iterating it
      yields key strings, which have no `get`. */
  predicate KeyedStore(nodes: Option<NodeStore>)
    reads if nodes.Some? then {nodes.value} else {}
  {
    nodes.Some? && nodes.value.isDict && nodes.value.keys != []
  }

  /** The list the filter reads: the node list itself, or nothing for a
      missing or empty container. */
  function FilterSource(nodes: Option<NodeStore>): seq<NodeObj>
    reads if nodes.Some? then {nodes.value} else {}
  {
    if nodes.Some? && !nodes.value.isDict then nodes.value.objs else []
  }

  const RemovedPrefix: string := "Removed redundant nodes: "

  function RemovedMessage(remove: set<string>, render: set<string> -> string): string
  {
    RemovedPrefix + render(remove)
  }

  /** `tree['nodes'] = [n for n in nodes if ...]` followed by the pruning
      loop over the new list. */
  method InstallSurvivors(source: seq<NodeObj>, remove: set<string>) returns (store: NodeStore, ok: bool)
    modifies set o: NodeObj | o in source
    ensures fresh(store) && store.Valid() && !store.isDict
    ensures store.objs == Surviving(source, old(IdsOf(source)), remove)
    ensures forall o :: o in source ==>
              SameBesidesConnections(o.node, old(o.node)) && FewerRecs(old(o.node.connections), o.node.connections)
    ensures forall o :: o in source && IdIn(old(o.node.id), remove) ==> o.node == old(o.node)
    ensures ok <==> forall o :: o in source && !IdIn(old(o.node.id), remove) ==> !LabelledConns(old(o.node.connections))
    ensures ok ==> forall o :: o in store.objs ==> Clean(o.node.connections, remove)
  {
    var kept := Surviving(source, IdsOf(source), remove);
    SurvivingExactly(source, remove);
    assert forall o :: o in kept <==> o in source && !IdIn(old(o.node.id), remove);
    ok := PruneAll(kept, remove);
    assert ok ==> forall o :: o in kept ==> Clean(o.node.connections, remove);
    store := new NodeStore.List(kept);
    if ok {
      forall o | o in source && !IdIn(old(o.node.id), remove)
        ensures !LabelledConns(old(o.node.connections))
      {
        ghost var k := IndexOf(kept, o);
      }
    } else {
      assert forall k :: 0 <= k < |kept| ==> kept[k] in source;
      ghost var k :| 0 <= k < |kept| && LabelledConns(old(kept[k].node.connections));
      assert kept[k] in kept;
    }
  }

  /** One iteration of the redundant handler's conflict loop. `orig` is the
      `nodes` value read when the handler started: every iteration filters
      it, not the list the previous iteration installed. */
  method PruneRedundant(tree: TreeDict, orig: Option<NodeStore>, c: ConflictRec, render: set<string> -> string)
    returns (tree': TreeDict, v: Verdict)
    requires orig.Some? ==> orig.value.Valid()
    modifies set o: NodeObj | o in FilterSource(orig)
    ensures forall o :: o in FilterSource(orig) ==>
              SameBesidesConnections(o.node, old(o.node)) && FewerRecs(old(o.node.connections), o.node.connections)
    ensures v.Silent? <==> |ListedNodes(c)| <= 1
    ensures v.Unresolved? ==> v.conflict == c
    ensures v.Resolved? ==> v.resolution == Resolution(c, RemovedMessage(Removal(c), render), RedundantAction)
    ensures v.Silent? || KeyedStore(orig) ==> tree' == tree && forall o :: o in FilterSource(orig) ==> o.node == old(o.node)
    ensures KeyedStore(orig) && !v.Silent? ==> v.Unresolved?
    ensures !v.Silent? && !KeyedStore(orig) ==>
              && tree'.nodes.Some? && fresh(tree'.nodes.value) && tree'.nodes.value.Valid() && !tree'.nodes.value.isDict
              && tree'.nodes.value.objs == Surviving(FilterSource(orig), old(IdsOf(FilterSource(orig))), Removal(c))
              && (v.Resolved? <==> forall o :: o in old(FilterSource(orig)) && !IdIn(o.node.id, Removal(c)) ==> !LabelledConns(old(o.node.connections)))
              && (v.Resolved? ==> forall o :: o in tree'.nodes.value.objs ==> Clean(o.node.connections, Removal(c)))
  {
    if |ListedNodes(c)| <= 1 {
      return tree, Silent;
    }
    if KeyedStore(orig) {
      return tree, Unresolved(c);
    }
    var remove := Removal(c);
    var store, ok := InstallSurvivors(FilterSource(orig), remove);
    tree' := TreeDict(Some(store));
    if ok {
      v := Resolved(Resolution(c, RemovedMessage(remove, render), RedundantAction));
    } else {
      v := Unresolved(c);
    }
  }

  /** Every node of `objs` differs from its entry in `start` only by
      dropping connection records. */
  ghost predicate PrunedSince(objs: seq<NodeObj>, start: map<NodeObj, Node>)
    reads objs
  {
    forall o :: o in objs ==> o in start && SameBesidesConnections(o.node, start[o]) && FewerRecs(start[o].connections, o.node.connections)
  }

  /** No node had labelled connections in the snapshot `start`. */
  ghost predicate NoLabels(objs: seq<NodeObj>, start: map<NodeObj, Node>)
  {
    forall o :: o in objs && o in start ==> !LabelledConns(start[o].connections)
  }

  /** `PruneRedundant`, with the change to the nodes measured from a fixed
      snapshot `start` rather than from the call. */
  method PruneRedundantSince(tree: TreeDict, orig: Option<NodeStore>, c: ConflictRec, render: set<string> -> string,
                             ghost source: seq<NodeObj>, ghost ids0: seq<Option<string>>, ghost start: map<NodeObj, Node>)
    returns (tree': TreeDict, v: Verdict)
    requires orig.Some? ==> orig.value.Valid()
    requires source == FilterSource(orig) && ids0 == IdsOf(source) && PrunedSince(source, start)
    modifies source
    ensures PrunedSince(source, start)
    ensures NoLabels(source, start) ==> !KeyedStore(orig) ==> !v.Unresolved?
    ensures v.Silent? <==> |ListedNodes(c)| <= 1
    ensures v.Unresolved? ==> v.conflict == c
    ensures v.Resolved? ==> v.resolution == Resolution(c, RemovedMessage(Removal(c), render), RedundantAction)
    ensures v.Silent? || KeyedStore(orig) ==> tree' == tree
    ensures KeyedStore(orig) && !v.Silent? ==> v.Unresolved?
    ensures !v.Silent? && !KeyedStore(orig) ==>
              && tree'.nodes.Some? && fresh(tree'.nodes.value) && ListStore(tree'.nodes.value, Surviving(source, ids0, Removal(c)))
  {
    ghost var before := map o: NodeObj | o in source :: o.node;
    tree', v := PruneRedundant(tree, orig, c, render);
    forall o | o in source
      ensures SameBesidesConnections(o.node, start[o]) && FewerRecs(start[o].connections, o.node.connections)
    {
      FewerRecsTransitive(start[o].connections, before[o].connections, o.node.connections);
    }
  }

  /** The removal set of the last conflict that lists more than one id. */
  function LastRemoval(cs: seq<ConflictRec>): Option<set<string>>
  {
    if cs == [] then None
    else
      var n := |cs| - 1;
      if |ListedNodes(cs[n])| > 1 then Some(Removal(cs[n])) else LastRemoval(cs[..n])
  }

  /** `s` is a node list holding exactly `objs`. */
  ghost predicate ListStore(s: NodeStore, objs: seq<NodeObj>)
    reads s
  {
    s.Valid() && !s.isDict && s.objs == objs
  }

  /** What one conflict's verdict can be in the redundant handler: silent
      exactly for conflicts naming at most one node, a failure on a node
      dictionary, and a success whenever no node has labelled connections. */
  predicate RedundantFits(c: ConflictRec, v: Verdict, keyed: bool, clean: bool, render: set<string> -> string)
  {
    && (v.Silent? <==> |ListedNodes(c)| <= 1)
    && (v.Unresolved? ==> v.conflict == c)
    && (v.Resolved? ==> v.resolution == Resolution(c, RemovedMessage(Removal(c), render), RedundantAction))
    && (keyed && !v.Silent? ==> v.Unresolved?)
    && (!keyed && clean ==> !v.Unresolved?)
  }

  /** Each verdict of `vs` fits the conflict at the same position. */
  predicate AllFit(cs: seq<ConflictRec>, vs: seq<Verdict>, keyed: bool, clean: bool, render: set<string> -> string)
  {
    |vs| == |cs| && forall k :: 0 <= k < |cs| ==> RedundantFits(cs[k], vs[k], keyed, clean, render)
  }

  lemma AllFitSnoc(cs: seq<ConflictRec>, vs: seq<Verdict>, c: ConflictRec, v: Verdict, keyed: bool, clean: bool, render: set<string> -> string)
    requires AllFit(cs, vs, keyed, clean, render) && RedundantFits(c, v, keyed, clean, render)
    ensures AllFit(cs + [c], vs + [v], keyed, clean, render)
  {
  }

  /** The resolutions among a run of verdicts, in order. */
  function ResolvedOf(vs: seq<Verdict>): (r: seq<Resolution>)
    ensures |r| <= |vs|
  {
    if vs == [] then []
    else
      var n := |vs| - 1;
      ResolvedOf(vs[..n]) + (if vs[n].Resolved? then [vs[n].resolution] else [])
  }

  /** The unresolved conflicts among a run of verdicts, in order. */
  function UnresolvedOf(vs: seq<Verdict>): (r: seq<ConflictRec>)
    ensures |r| <= |vs|
  {
    if vs == [] then []
    else
      var n := |vs| - 1;
      UnresolvedOf(vs[..n]) + (if vs[n].Unresolved? then [vs[n].conflict] else [])
  }

  /** Together the resolutions and failures never outnumber the verdicts. */
  lemma {:induction false} TallyBound(vs: seq<Verdict>)
    ensures |ResolvedOf(vs)| + |UnresolvedOf(vs)| <= |vs|
  {
    if vs != [] {
      TallyBound(vs[..|vs| - 1]);
    }
  }

  lemma AllFitPrefix(cs: seq<ConflictRec>, vs: seq<Verdict>, keyed: bool, clean: bool, render: set<string> -> string)
    requires AllFit(cs, vs, keyed, clean, render) && cs != []
    ensures AllFit(cs[..|cs| - 1], vs[..|vs| - 1], keyed, clean, render)
    ensures RedundantFits(cs[|cs| - 1], vs[|vs| - 1], keyed, clean, render)
  {
  }

  /** The failures: conflicts naming several nodes, all of them on a node
      dictionary and none when no node has labelled connections. */
  lemma {:induction false} TallyUnresolved(cs: seq<ConflictRec>, vs: seq<Verdict>, keyed: bool, clean: bool, render: set<string> -> string)
    requires AllFit(cs, vs, keyed, clean, render)
    ensures forall c :: c in UnresolvedOf(vs) ==> c in cs && |ListedNodes(c)| > 1
    ensures keyed ==> forall c :: c in UnresolvedOf(vs) <==> c in cs && |ListedNodes(c)| > 1
    ensures !keyed && clean ==> UnresolvedOf(vs) == []
  {
    if cs != [] {
      var n := |cs| - 1;
      AllFitPrefix(cs, vs, keyed, clean, render);
      TallyUnresolved(cs[..n], vs[..n], keyed, clean, render);
      assert cs == cs[..n] + [cs[n]];
      assert UnresolvedOf(vs) == UnresolvedOf(vs[..n]) + (if vs[n].Unresolved? then [vs[n].conflict] else []);
    }
  }

  /** The resolutions: one per conflict naming several nodes when no node
      has labelled connections, none on a node dictionary. */
  lemma {:induction false} TallyResolved(cs: seq<ConflictRec>, vs: seq<Verdict>, keyed: bool, clean: bool, render: set<string> -> string)
    requires AllFit(cs, vs, keyed, clean, render)
    ensures forall r :: r in ResolvedOf(vs) ==>
              && r.conflict in cs && |ListedNodes(r.conflict)| > 1
              && r == Resolution(r.conflict, RemovedMessage(Removal(r.conflict), render), RedundantAction)
    ensures keyed ==> ResolvedOf(vs) == []
    ensures !keyed && clean ==> forall c :: c in cs && |ListedNodes(c)| > 1 ==> exists r :: r in ResolvedOf(vs) && r.conflict == c
  {
    if cs != [] {
      var n := |cs| - 1;
      AllFitPrefix(cs, vs, keyed, clean, render);
      TallyResolved(cs[..n], vs[..n], keyed, clean, render);
      assert cs == cs[..n] + [cs[n]];
      assert ResolvedOf(vs) == ResolvedOf(vs[..n]) + (if vs[n].Resolved? then [vs[n].resolution] else []);
      if !keyed && clean && |ListedNodes(cs[n])| > 1 {
        assert vs[n].resolution in ResolvedOf(vs);
      }
    }
  }

  /** What the handler reports, given verdicts that fit their conflicts. */
  lemma RedundantTally(cs: seq<ConflictRec>, vs: seq<Verdict>, keyed: bool, clean: bool, render: set<string> -> string)
    requires AllFit(cs, vs, keyed, clean, render)
    ensures forall c :: c in UnresolvedOf(vs) ==> c in cs && |ListedNodes(c)| > 1
    ensures forall r :: r in ResolvedOf(vs) ==>
              && r.conflict in cs && |ListedNodes(r.conflict)| > 1
              && r == Resolution(r.conflict, RemovedMessage(Removal(r.conflict), render), RedundantAction)
    ensures keyed ==> ResolvedOf(vs) == [] && forall c :: c in UnresolvedOf(vs) <==> c in cs && |ListedNodes(c)| > 1
    ensures !keyed && clean ==>
              UnresolvedOf(vs) == [] && forall c :: c in cs && |ListedNodes(c)| > 1 ==> exists r :: r in ResolvedOf(vs) && r.conflict == c
  {
    TallyUnresolved(cs, vs, keyed, clean, render);
    TallyResolved(cs, vs, keyed, clean, render);
  }

  /** The bookkeeping of one pass: the verdict of conflict `c` extends the
      verdicts, the tallies and the last removal set. */
  lemma RedundantAccount(cs: seq<ConflictRec>, i: nat, vs: seq<Verdict>, v: Verdict,
                         keyed: bool, clean: bool, render: set<string> -> string)
    requires i < |cs| && AllFit(cs[..i], vs, keyed, clean, render) && RedundantFits(cs[i], v, keyed, clean, render)
    ensures AllFit(cs[..i + 1], vs + [v], keyed, clean, render)
    ensures LastRemoval(cs[..i + 1]) == if v.Silent? then LastRemoval(cs[..i]) else Some(Removal(cs[i]))
    ensures ResolvedOf(vs + [v]) == ResolvedOf(vs) + (if v.Resolved? then [v.resolution] else [])
    ensures UnresolvedOf(vs + [v]) == UnresolvedOf(vs) + (if v.Unresolved? then [v.conflict] else [])
  {
    assert cs[..i + 1] == cs[..i] + [cs[i]];
    AllFitSnoc(cs[..i], vs, cs[i], v, keyed, clean, render);
    assert cs[..i + 1][..i] == cs[..i];
    assert (vs + [v])[..|vs|] == vs;
  }

  /** What the redundant handler's loop keeps track of after handling the
      conflicts `done`: `vs` their verdicts, `last` the removal set of the
      last one that acted, and the node list `tree` holds. */
  ghost predicate RedundantSoFar(tree0: TreeDict, source: seq<NodeObj>, start: map<NodeObj, Node>, ids0: seq<Option<string>>,
                                 keyed: bool, clean: bool, render: set<string> -> string,
                                 done: seq<ConflictRec>, vs: seq<Verdict>, last: Option<set<string>>,
                                 tree: TreeDict, resolved: seq<Resolution>, unresolved: seq<ConflictRec>)
    reads source, if tree.nodes.Some? then {tree.nodes.value} else {}
  {
    && |ids0| == |source|
    && PrunedSince(source, start)
    && last == LastRemoval(done) && AllFit(done, vs, keyed, clean, render)
    && resolved == ResolvedOf(vs) && unresolved == UnresolvedOf(vs)
    && (last.None? || keyed ==> tree == tree0)
    && (last.Some? && !keyed ==> tree.nodes.Some? && ListStore(tree.nodes.value, Surviving(source, ids0, last.value)))
  }

  /** One pass of the redundant handler's loop. */
  method RedundantStep(tree0: TreeDict, orig: Option<NodeStore>, render: set<string> -> string,
                       ghost source: seq<NodeObj>, ghost start: map<NodeObj, Node>, ghost ids0: seq<Option<string>>,
                       ghost keyed: bool, ghost clean: bool,
                       ghost vs: seq<Verdict>, ghost last: Option<set<string>>,
                       tree: TreeDict, resolved: seq<Resolution>, unresolved: seq<ConflictRec>, conflicts: seq<ConflictRec>, i: nat)
    returns (tree': TreeDict, resolved': seq<Resolution>, unresolved': seq<ConflictRec>, ghost vs': seq<Verdict>, ghost last': Option<set<string>>)
    requires orig.Some? ==> orig.value.Valid()
    requires source == FilterSource(orig) && ids0 == IdsOf(source)
    requires keyed == KeyedStore(orig) && clean == NoLabels(source, start)
    requires i < |conflicts|
    requires RedundantSoFar(tree0, source, start, ids0, keyed, clean, render, conflicts[..i], vs, last, tree, resolved, unresolved)
    modifies source
    ensures RedundantSoFar(tree0, source, start, ids0, keyed, clean, render, conflicts[..i + 1], vs', last', tree', resolved', unresolved')
    ensures keyed || (tree' == tree && last' == last) || (tree'.nodes.Some? && fresh(tree'.nodes.value))
  {
    var c := conflicts[i];
    var t, v := PruneRedundantSince(tree, orig, c, render, source, ids0, start);
    RedundantAccount(conflicts, i, vs, v, keyed, clean, render);
    vs' := vs + [v];
    tree', resolved', unresolved' := tree, resolved, unresolved;
    if v.Silent? {
      last' := last;
    } else {
      last' := Some(Removal(c));
      tree' := t;
      if v.Resolved? {
        resolved' := resolved + [v.resolution];
      } else {
        unresolved' := unresolved + [v.conflict];
      }
    }
  }

  /** The conflict loop of the redundant handler, measured from the
      snapshot `start` of the nodes taken when the handler began. */
  method RedundantLoop(tree: TreeDict, conflicts: seq<ConflictRec>, render: set<string> -> string,
                       ghost source: seq<NodeObj>, ghost start: map<NodeObj, Node>, ghost ids0: seq<Option<string>>,
                       ghost keyed: bool, ghost clean: bool)
    returns (tree': TreeDict, resolved: seq<Resolution>, unresolved: seq<ConflictRec>, ghost vs: seq<Verdict>)
    requires tree.nodes.Some? ==> tree.nodes.value.Valid()
    requires source == FilterSource(tree.nodes) && PrunedSince(source, start) && ids0 == IdsOf(source)
    requires keyed == KeyedStore(tree.nodes) && clean == NoLabels(source, start)
    modifies source
    ensures PrunedSince(source, start)
    ensures AllFit(conflicts, vs, keyed, clean, render)
    ensures resolved == ResolvedOf(vs) && unresolved == UnresolvedOf(vs)
    ensures LastRemoval(conflicts).None? || keyed ==> tree' == tree
    ensures LastRemoval(conflicts).Some? && !keyed ==>
              && tree'.nodes.Some? && fresh(tree'.nodes.value)
              && ListStore(tree'.nodes.value, Surviving(source, ids0, LastRemoval(conflicts).value))
  {
    var orig := tree.nodes;
    ghost var last: Option<set<string>> := None;
    vs := [];
    tree' := tree;
    resolved, unresolved := [], [];
    var i := 0;
    ghost var done: seq<ConflictRec> := [];
    while i < |conflicts|
      invariant 0 <= i <= |conflicts| && done == conflicts[..i]
      invariant RedundantSoFar(tree, source, start, ids0, keyed, clean, render, done, vs, last, tree', resolved, unresolved)
      invariant last.Some? && !keyed ==> tree'.nodes.Some? && fresh(tree'.nodes.value)
    {
      tree', resolved, unresolved, vs, last :=
        RedundantStep(tree, orig, render, source, start, ids0, keyed, clean, vs, last, tree', resolved, unresolved, conflicts, i);
      done := conflicts[..i + 1];
      i := i + 1;
    }
    assert done == conflicts;
  }

  /** `_resolve_redundant_paths`. Because every conflict filters the node
      container the handler started from, the nodes left at the end are
      those the last multi-node conflict spares; a dictionary of nodes makes
      every such conflict fail. */
  method ResolveRedundantPaths(tree: TreeDict, conflicts: seq<ConflictRec>, render: set<string> -> string)
    returns (tree': TreeDict, resolved: seq<Resolution>, unresolved: seq<ConflictRec>)
    requires tree.nodes.Some? ==> tree.nodes.value.Valid()
    modifies set o: NodeObj | o in FilterSource(tree.nodes)
    ensures forall o :: o in FilterSource(tree.nodes) ==>
              SameBesidesConnections(o.node, old(o.node)) && FewerRecs(old(o.node.connections), o.node.connections)
    ensures LastRemoval(conflicts).None? || KeyedStore(tree.nodes) ==> tree' == tree
    ensures KeyedStore(tree.nodes) ==> resolved == [] && forall c :: c in unresolved <==> c in conflicts && |ListedNodes(c)| > 1
    ensures LastRemoval(conflicts).Some? && !KeyedStore(tree.nodes) ==>
              && tree'.nodes.Some? && fresh(tree'.nodes.value) && tree'.nodes.value.Valid() && !tree'.nodes.value.isDict
              && tree'.nodes.value.objs == Surviving(FilterSource(tree.nodes), old(IdsOf(FilterSource(tree.nodes))), LastRemoval(conflicts).value)
    ensures |resolved| + |unresolved| <= |conflicts|
    ensures forall c :: c in unresolved ==> c in conflicts && |ListedNodes(c)| > 1
    ensures forall r :: r in resolved ==>
              && r.conflict in conflicts && |ListedNodes(r.conflict)| > 1
              && r == Resolution(r.conflict, RemovedMessage(Removal(r.conflict), render), RedundantAction)
    ensures !KeyedStore(tree.nodes) && (forall o :: o in FilterSource(tree.nodes) ==> !LabelledConns(old(o.node.connections))) ==>
              unresolved == [] && forall c :: c in conflicts && |ListedNodes(c)| > 1 ==> exists r :: r in resolved && r.conflict == c
  {
    ghost var source := FilterSource(tree.nodes);
    ghost var start := map o: NodeObj | o in source :: o.node;
    ghost var keyed := KeyedStore(tree.nodes);
    ghost var clean := NoLabels(source, start);
    ghost var vs;
    tree', resolved, unresolved, vs := RedundantLoop(tree, conflicts, render, source, start, IdsOf(source), keyed, clean);
    TallyBound(vs);
    RedundantTally(conflicts, vs, keyed, clean, render);
  }

  // =====================================================================
  // resolve_conflicts

  /** The oracle-driven kinds and the action each one records. */
  function OracleAction(k: string): string
  {
    if k == ContradictoryKind then ContradictoryAction else OverlappingAction
  }

  /** The node container is a list none of whose nodes has labelled
      connections. */
  ghost predicate CleanList(nodes: Option<NodeStore>)
    reads if nodes.Some? then {nodes.value} else {}
    reads if nodes.Some? then set o: NodeObj | o in nodes.value.objs else {}
  {
    nodes.Some? && !nodes.value.isDict && forall o :: o in nodes.value.objs ==> !LabelledConns(o.node.connections)
  }

  /** What the final report says about conflict `c`: an answered
      contradiction or overlap is resolved with the oracle's text, an
      unanswered one is unresolved, a circular conflict naming fewer than
      two nodes is unresolved, and a conflict of a kind no handler takes is
      unresolved. A redundant conflict naming at most one node leaves no
      trace; one naming several is unresolved when the container was a
      non-empty dictionary (`keyed`) and resolved when it was a list without
      labelled connections (`clean`), both as the resolution started. */
  predicate Settled(c: ConflictRec, resolutions: seq<Resolution>, unresolved: seq<ConflictRec>, llm: ConflictRec -> Option<string>,
                    keyed: bool, clean: bool)
  {
    var k := KindOf(c);
    if k == ContradictoryKind || k == OverlappingKind then
      && (Answered(c, llm) ==> Resolution(c, llm(c).value, OracleAction(k)) in resolutions)
      && (!Answered(c, llm) ==> c in unresolved)
    else if k == CircularKind then
      |ListedNodes(c)| < 2 ==> c in unresolved
    else if k == RedundantKind then
      && (|ListedNodes(c)| <= 1 ==> c !in unresolved && forall r :: r in resolutions ==> r.conflict != c)
      && (|ListedNodes(c)| > 1 && keyed ==> c in unresolved)
      && (|ListedNodes(c)| > 1 && clean ==> exists r :: r in resolutions && r.conflict == c)
    else
      c in unresolved
  }

  /** What may appear in the final report about conflict `c`. */
  predicate Reported(c: ConflictRec, cs: seq<ConflictRec>, llm: ConflictRec -> Option<string>)
  {
    c in cs && (KindOf(c) == ContradictoryKind || KindOf(c) == OverlappingKind ==> !Answered(c, llm))
  }

  predicate ResolutionReported(r: Resolution, cs: seq<ConflictRec>, llm: ConflictRec -> Option<string>)
  {
    var k := KindOf(r.conflict);
    && r.conflict in cs
    && (k == ContradictoryKind || k == OverlappingKind ==> Answered(r.conflict, llm) && r == Resolution(r.conflict, llm(r.conflict).value, OracleAction(k)))
    && (k == CircularKind ==> r.action == CircularAction)
    && (k == RedundantKind ==> r.action == RedundantAction)
    && k in {ContradictoryKind, OverlappingKind, CircularKind, RedundantKind}
  }

  /** Being settled survives adding entries about conflicts of other kinds
      to either list. */
  lemma SettledGrows(c: ConflictRec, r: seq<Resolution>, u: seq<ConflictRec>, r': seq<Resolution>, u': seq<ConflictRec>,
                     llm: ConflictRec -> Option<string>, keyed: bool, clean: bool)
    requires Settled(c, r, u, llm, keyed, clean)
    requires forall x :: x in u' ==> KindOf(x) != KindOf(c)
    requires forall x :: x in r' ==> KindOf(x.conflict) != KindOf(c)
    ensures Settled(c, r + r', u + u', llm, keyed, clean) && Settled(c, r' + r, u' + u, llm, keyed, clean)
  {
  }

  /** Handling the group of a kind `k` not handled before settles its
      conflicts and keeps the earlier ones settled. */
  lemma SettledStep(kept: seq<ConflictRec>, done: seq<string>, k: string, r: seq<Resolution>, u: seq<ConflictRec>,
                    r': seq<Resolution>, u': seq<ConflictRec>, llm: ConflictRec -> Option<string>, keyed: bool, clean: bool)
    requires k !in done
    requires forall c :: c in kept && KindOf(c) in done ==> Settled(c, r, u, llm, keyed, clean)
    requires forall c :: c in kept && KindOf(c) == k ==> Settled(c, r', u', llm, keyed, clean)
    requires forall x :: x in u ==> KindOf(x) in done
    requires forall x :: x in r ==> KindOf(x.conflict) in done
    requires forall x :: x in u' ==> KindOf(x) == k
    requires forall x :: x in r' ==> KindOf(x.conflict) == k
    ensures forall c :: c in kept && KindOf(c) in done + [k] ==> Settled(c, r + r', u + u', llm, keyed, clean)
  {
    forall c | c in kept && KindOf(c) in done + [k]
      ensures Settled(c, r + r', u + u', llm, keyed, clean)
    {
      if KindOf(c) == k {
        SettledGrows(c, r', u', r, u, llm, keyed, clean);
      } else {
        SettledGrows(c, r, u, r', u', llm, keyed, clean);
      }
    }
  }

  /** Appending a group's reports keeps every report about an input
      conflict of a kind handled so far, and the group's own reports are of
      its kind. */
  lemma ReportsStep(kept: seq<ConflictRec>, done: seq<string>, k: string, group: seq<ConflictRec>, r: seq<Resolution>, u: seq<ConflictRec>,
                    r': seq<Resolution>, u': seq<ConflictRec>, llm: ConflictRec -> Option<string>)
    requires forall i :: 0 <= i < |group| ==> KindOf(group[i]) == k && group[i] in kept
    requires forall c :: c in u ==> Reported(c, kept, llm) && KindOf(c) in done
    requires forall x :: x in r ==> ResolutionReported(x, kept, llm) && KindOf(x.conflict) in done
    requires forall c :: c in u' ==> Reported(c, group, llm)
    requires forall x :: x in r' ==> ResolutionReported(x, group, llm)
    ensures forall c :: c in u' ==> KindOf(c) == k
    ensures forall x :: x in r' ==> KindOf(x.conflict) == k
    ensures forall c :: c in u + u' ==> Reported(c, kept, llm) && KindOf(c) in done + [k]
    ensures forall x :: x in r + r' ==> ResolutionReported(x, kept, llm) && KindOf(x.conflict) in done + [k]
  {
    forall c | c in u'
      ensures KindOf(c) == k && c in kept
    {
      var i :| 0 <= i < |group| && group[i] == c;
    }
    forall x | x in r'
      ensures KindOf(x.conflict) == k && x.conflict in kept
    {
      var i :| 0 <= i < |group| && group[i] == x.conflict;
    }
  }

  /** The body of the dispatch loop for the group of kind `k`. */
  method ResolveGroup(tree: TreeDict, k: string, group: seq<ConflictRec>, llm: ConflictRec -> Option<string>, render: set<string> -> string,
                      ghost objs0: seq<NodeObj>, ghost start: map<NodeObj, Node>, ghost keyed: bool, ghost clean: bool)
    returns (tree': TreeDict, resolved: seq<Resolution>, unresolved: seq<ConflictRec>)
    requires forall i :: 0 <= i < |group| ==> KindOf(group[i]) == k
    requires tree.nodes.Some? ==> tree.nodes.value.Valid()
    requires forall o :: o in ObjsOf(tree) ==> o in objs0
    requires PrunedSince(objs0, start)
    requires k == RedundantKind ==> (keyed ==> KeyedStore(tree.nodes)) && (clean ==> CleanList(tree.nodes))
    modifies StoreOf(tree), set o: NodeObj | o in ObjsOf(tree)
    ensures PrunedSince(objs0, start)
    ensures k != RedundantKind ==>
              && tree' == tree
              && (old(KeyedStore(tree.nodes)) ==> KeyedStore(tree'.nodes))
              && (old(CleanList(tree.nodes)) ==> CleanList(tree'.nodes))
    ensures tree'.nodes.Some? ==> tree'.nodes.value.Valid() && (tree'.nodes == tree.nodes || fresh(tree'.nodes.value))
    ensures forall o :: o in ObjsOf(tree') ==> o in objs0
    ensures k != CircularKind && k != RedundantKind ==>
              tree' == tree && (tree.nodes.Some? ==> unchanged(tree.nodes.value)) && forall o :: o in objs0 ==> o.node == old(o.node)
    ensures forall c :: c in group ==> Settled(c, resolved, unresolved, llm, keyed, clean)
    ensures forall c :: c in unresolved ==> Reported(c, group, llm)
    ensures forall r :: r in resolved ==> ResolutionReported(r, group, llm)
  {
    tree' := tree;
    if k == ContradictoryKind || k == OverlappingKind {
      resolved, unresolved := AskOracle(group, llm, OracleAction(k));
      AskEachSplits(group, llm, OracleAction(k));
    } else if k == CircularKind {
      resolved, unresolved := CircularGroup(tree, group, llm, objs0, start, keyed, clean);
    } else if k == RedundantKind {
      tree', resolved, unresolved := RedundantGroup(tree, group, llm, render, objs0, start, keyed, clean);
    } else {
      resolved, unresolved := [], group;
    }
  }

  /** The circular group: the handler keeps the container and its kind,
      never removes a key, and only drops records. */
  method CircularGroup(tree: TreeDict, group: seq<ConflictRec>, llm: ConflictRec -> Option<string>,
                       ghost objs0: seq<NodeObj>, ghost start: map<NodeObj, Node>, ghost keyed: bool, ghost clean: bool)
    returns (resolved: seq<Resolution>, unresolved: seq<ConflictRec>)
    requires forall i :: 0 <= i < |group| ==> KindOf(group[i]) == CircularKind
    requires tree.nodes.Some? ==> tree.nodes.value.Valid()
    requires forall o :: o in ObjsOf(tree) ==> o in objs0
    requires PrunedSince(objs0, start)
    modifies StoreOf(tree), set o: NodeObj | o in ObjsOf(tree)
    ensures PrunedSince(objs0, start)
    ensures tree.nodes.Some? ==> tree.nodes.value.Valid()
    ensures forall o :: o in ObjsOf(tree) ==> o in objs0
    ensures old(KeyedStore(tree.nodes)) ==> KeyedStore(tree.nodes)
    ensures old(CleanList(tree.nodes)) ==> CleanList(tree.nodes)
    ensures forall c :: c in group ==> Settled(c, resolved, unresolved, llm, keyed, clean)
    ensures forall c :: c in unresolved ==> Reported(c, group, llm)
    ensures forall r :: r in resolved ==> ResolutionReported(r, group, llm)
  {
    ghost var before := map o: NodeObj | o in objs0 :: o.node;
    resolved, unresolved := ResolveCircularDependencies(tree, group);
    forall o | o in objs0
      ensures SameBesidesConnections(o.node, start[o]) && FewerRecs(start[o].connections, o.node.connections)
    {
      FewerRecsTransitive(start[o].connections, before[o].connections, o.node.connections);
    }
    if old(CleanList(tree.nodes)) {
      forall o | o in tree.nodes.value.objs
        ensures !LabelledConns(o.node.connections)
      {
        assert o in old(tree.nodes.value.objs);
      }
    }
  }

  /** The redundant group, on the container as it is when the group's turn
      comes. */
  method RedundantGroup(tree: TreeDict, group: seq<ConflictRec>, llm: ConflictRec -> Option<string>, render: set<string> -> string,
                        ghost objs0: seq<NodeObj>, ghost start: map<NodeObj, Node>, ghost keyed: bool, ghost clean: bool)
    returns (tree': TreeDict, resolved: seq<Resolution>, unresolved: seq<ConflictRec>)
    requires forall i :: 0 <= i < |group| ==> KindOf(group[i]) == RedundantKind
    requires tree.nodes.Some? ==> tree.nodes.value.Valid()
    requires forall o :: o in ObjsOf(tree) ==> o in objs0
    requires PrunedSince(objs0, start)
    requires keyed ==> KeyedStore(tree.nodes)
    requires clean ==> CleanList(tree.nodes)
    modifies set o: NodeObj | o in ObjsOf(tree)
    ensures PrunedSince(objs0, start)
    ensures tree'.nodes.Some? ==> tree'.nodes.value.Valid() && (tree'.nodes == tree.nodes || fresh(tree'.nodes.value))
    ensures forall o :: o in ObjsOf(tree') ==> o in objs0
    ensures forall c :: c in group ==> Settled(c, resolved, unresolved, llm, keyed, clean)
    ensures forall c :: c in unresolved ==> Reported(c, group, llm)
    ensures forall r :: r in resolved ==> ResolutionReported(r, group, llm)
  {
    ghost var before := map o: NodeObj | o in objs0 :: o.node;
    tree', resolved, unresolved := ResolveRedundantPaths(tree, group, render);
    forall o | o in objs0
      ensures SameBesidesConnections(o.node, start[o]) && FewerRecs(start[o].connections, o.node.connections)
    {
      FewerRecsTransitive(start[o].connections, before[o].connections, o.node.connections);
    }
  }

  /** The dispatch loop of `resolve_conflicts` over the kinds in `order`,
      each with its list in `lists`. */
  method DispatchGroups(tree: TreeDict, order: seq<string>, lists: map<string, seq<ConflictRec>>, ghost kept: seq<ConflictRec>,
                        llm: ConflictRec -> Option<string>, render: set<string> -> string, ghost keyed: bool, ghost clean: bool)
    returns (tree': TreeDict, resolutions: seq<Resolution>, unresolved: seq<ConflictRec>)
    requires tree.nodes.Some? ==> tree.nodes.value.Valid()
    requires Distinct(order)
    requires keyed ==> KeyedStore(tree.nodes)
    requires clean ==> CleanList(tree.nodes)
    requires forall k :: k in order ==> k in lists
    requires forall k :: k in lists ==> forall i :: 0 <= i < |lists[k]| ==> KindOf(lists[k][i]) == k && lists[k][i] in kept
    requires forall c :: c in kept ==> KindOf(c) in lists && c in lists[KindOf(c)]
    modifies StoreOf(tree), set o: NodeObj | o in ObjsOf(tree)
    ensures tree'.nodes.Some? ==> tree'.nodes.value.Valid() && (tree'.nodes == tree.nodes || fresh(tree'.nodes.value))
    ensures forall o :: o in ObjsOf(tree') ==> o in old(ObjsOf(tree))
    ensures forall o :: o in old(ObjsOf(tree)) ==>
              SameBesidesConnections(o.node, old(o.node)) && FewerRecs(old(o.node.connections), o.node.connections)
    ensures forall c :: c in kept && KindOf(c) in order ==> Settled(c, resolutions, unresolved, llm, keyed, clean)
    ensures forall c :: c in unresolved ==> Reported(c, kept, llm)
    ensures forall r :: r in resolutions ==> ResolutionReported(r, kept, llm)
    ensures CircularKind !in order && RedundantKind !in order ==>
              tree' == tree && (tree.nodes.Some? ==> unchanged(tree.nodes.value))
              && forall o :: o in old(ObjsOf(tree)) ==> o.node == old(o.node)
  {
    ghost var objs0 := ObjsOf(tree);
    ghost var start: map<NodeObj, Node> := map o: NodeObj | o in objs0 :: o.node;
    tree', resolutions, unresolved := tree, [], [];
    var j := 0;
    while j < |order|
      invariant 0 <= j <= |order|
      invariant tree'.nodes.Some? ==> tree'.nodes.value.Valid() && (tree'.nodes == tree.nodes || fresh(tree'.nodes.value))
      invariant forall o :: o in ObjsOf(tree') ==> o in objs0
      invariant PrunedSince(objs0, start)
      invariant forall c :: c in kept && KindOf(c) in order[..j] ==> Settled(c, resolutions, unresolved, llm, keyed, clean)
      invariant forall c :: c in unresolved ==> Reported(c, kept, llm) && KindOf(c) in order[..j]
      invariant forall r :: r in resolutions ==> ResolutionReported(r, kept, llm) && KindOf(r.conflict) in order[..j]
      invariant RedundantKind !in order[..j] ==> (keyed ==> KeyedStore(tree'.nodes)) && (clean ==> CleanList(tree'.nodes))
      invariant CircularKind !in order[..j] && RedundantKind !in order[..j] ==>
                  tree' == tree && (tree.nodes.Some? ==> unchanged(tree.nodes.value)) && forall o :: o in objs0 ==> o.node == start[o]
    {
      var k := order[j];
      var group := lists[k];
      assert order[..j + 1] == order[..j] + [k];
      assert forall o :: o in ObjsOf(tree') ==> o in old(ObjsOf(tree));
      var t, res, unres := ResolveGroup(tree', k, group, llm, render, objs0, start, keyed, clean);
      assert k !in order[..j] by {
        assert order[j] == k;
      }
      ReportsStep(kept, order[..j], k, group, resolutions, unresolved, res, unres, llm);
      SettledStep(kept, order[..j], k, resolutions, unresolved, res, unres, llm, keyed, clean);
      tree', resolutions, unresolved := t, resolutions + res, unresolved + unres;
      j := j + 1;
    }
    assert order[..j] == order;
  }

  /** `resolve_conflicts`: a missing or non-list conflict list is treated as
      empty; otherwise every group is handed to its handler in the order the
      kinds first appear, and the tree each handler returns is the one the
      next receives. */
  method ResolveConflicts(tree: TreeDict, conflicts: Option<seq<RawConflict>>, llm: ConflictRec -> Option<string>, render: set<string> -> string)
    returns (tree': TreeDict, resolutions: seq<Resolution>, unresolved: seq<ConflictRec>)
    requires tree.nodes.Some? ==> tree.nodes.value.Valid()
    modifies StoreOf(tree), set o: NodeObj | o in ObjsOf(tree)
    ensures conflicts.None? || conflicts.value == [] ==>
              tree' == tree && resolutions == [] && unresolved == [] && (tree.nodes.Some? ==> unchanged(tree.nodes.value))
              && forall o :: o in old(ObjsOf(tree)) ==> o.node == old(o.node)
    ensures tree'.nodes.Some? ==> tree'.nodes.value.Valid() && (tree'.nodes == tree.nodes || fresh(tree'.nodes.value))
    ensures forall o :: o in ObjsOf(tree') ==> o in old(ObjsOf(tree))
    ensures forall o :: o in old(ObjsOf(tree)) ==>
              SameBesidesConnections(o.node, old(o.node)) && FewerRecs(old(o.node.connections), o.node.connections)
    ensures conflicts.Some? ==> forall c :: c in Kept(conflicts.value) ==>
              Settled(c, resolutions, unresolved, llm, old(KeyedStore(tree.nodes)), old(CleanList(tree.nodes)))
    ensures conflicts.Some? ==> forall c :: c in unresolved ==> Reported(c, Kept(conflicts.value), llm)
    ensures conflicts.Some? ==> forall r :: r in resolutions ==> ResolutionReported(r, Kept(conflicts.value), llm)
    ensures conflicts.Some? && (forall c :: c in Kept(conflicts.value) ==> KindOf(c) != CircularKind && KindOf(c) != RedundantKind) ==>
              tree' == tree && (tree.nodes.Some? ==> unchanged(tree.nodes.value))
              && forall o :: o in old(ObjsOf(tree)) ==> o.node == old(o.node)
  {
    var cs := if conflicts.Some? then conflicts.value else [];
    if cs == [] {
      return tree, [], [];
    }
    ghost var kept := Kept(cs);
    var g := GroupConflictsByType(cs);
    KindsInOrderExactly(kept);
    forall k | k in g.lists
      ensures forall i :: 0 <= i < |g.lists[k]| ==> KindOf(g.lists[k][i]) == k && g.lists[k][i] in kept
    {
      OfKindExactly(kept, k);
      assert forall i :: 0 <= i < |g.lists[k]| ==> g.lists[k][i] in g.lists[k];
    }
    forall c | c in kept
      ensures KindOf(c) in g.lists && c in g.lists[KindOf(c)]
    {
      GroupedOnce(g, kept, c, KindOf(c));
    }
    tree', resolutions, unresolved := DispatchGroups(tree, g.order, g.lists, kept, llm, render,
                                                     KeyedStore(tree.nodes), CleanList(tree.nodes));
  }

  // =====================================================================
  // Discrepancies between what the handlers do and what they announce

  /** The circular handler drops records by their `to` key, while the
      traversal utilities that find the cycle follow `target_node_id`. On a
      self-loop written with `target_node_id` only, the handler keeps the
      record, so the edge it reports as removed is still there. */
  lemma CircularCutMissesTargetEdge()
    ensures var rec := Rec(None, Some("a"), None);
            var n := Node(Some("a"), None, None, None, None, Some(ListConns([rec])));
            var es := [("a", n)];
            var cut := DropTo(n.connections, CycleEdge(["a", "a"]).1);
            && IsCycle(es, ["a", "a"])
            && CycleEdge(["a", "a"]) == ("a", "a")
            && cut == Ok([rec])
            && Edge([("a", n.(connections := Some(ListConns(cut.value))))], "a", "a")
  {
    var rec := Rec(None, Some("a"), None);
    var n := Node(Some("a"), None, None, None, None, Some(ListConns([rec])));
    var es := [("a", n)];
    assert Keys(es) == {"a"} by {
      assert es[0].0 == "a";
    }
    assert Filter([rec], NotTo("a")) == [rec] by {
      assert [rec][..0] == [];
    }
    assert RecTargets([rec], {"a"}) == ["a"] by {
      assert [rec][1..] == [];
    }
  }

  /** The evidently intended cut: drop every record that leads to `to`,
      whether it names it with `to` or with `target_node_id`. */
  function NotEdgeTo(to: string): Rec -> bool
  {
    (r: Rec) => r.to != Some(to) && r.targetNodeId != Some(to)
  }

  function DropEdgesTo(conns: Option<Conns>, to: string): (r: Result<seq<Rec>>)
    ensures r.Err? <==> LabelledConns(conns)
  {
    if conns.None? then Ok([])
    else match conns.value
      case DictConns(l) => if l == [] then Ok([]) else Err(AttributeError)
      case ListConns(recs) => Ok(Filter(recs, NotEdgeTo(to)))
  }

  /** `nodes[k]['connections'] = c` on a dictionary of nodes. */
  function SetConns(entries: seq<(string, Node)>, k: string, c: Conns): (r: seq<(string, Node)>)
    ensures |r| == |entries|
    ensures forall i :: 0 <= i < |r| ==> r[i] == if entries[i].0 == k then (k, entries[i].1.(connections := Some(c))) else entries[i]
  {
    if entries == [] then []
    else
      var e := entries[0];
      [if e.0 == k then (k, e.1.(connections := Some(c))) else e] + SetConns(entries[1..], k, c)
  }

  lemma {:induction false} GetSetConns(entries: seq<(string, Node)>, k: string, c: Conns)
    requires k in Keys(entries)
    ensures Keys(SetConns(entries, k, c)) == Keys(entries)
    ensures Get(SetConns(entries, k, c), k) == Some(Get(entries, k).value.(connections := Some(c)))
  {
    var r := SetConns(entries, k, c);
    assert forall i :: 0 <= i < |r| ==> r[i].0 == entries[i].0;
    assert Keys(r) == Keys(entries);
    if entries[0].0 != k {
      assert k in Keys(entries[1..]) by {
        var i :| 0 <= i < |entries| && entries[i].0 == k;
        assert entries[1..][i - 1] == entries[i];
      }
      GetSetConns(entries[1..], k, c);
      assert r[1..] == SetConns(entries[1..], k, c);
    }
  }

  lemma {:induction false} RecTargetsAvoid(recs: seq<Rec>, keys: set<string>, to: string)
    requires forall i :: 0 <= i < |recs| ==> recs[i].targetNodeId != Some(to)
    ensures to !in RecTargets(recs, keys)
  {
    if recs != [] {
      RecTargetsAvoid(recs[1..], keys, to);
    }
  }

  /** With the intended cut, the edge the handler reports as removed is
      gone from the graph the traversal utilities see. */
  lemma DropEdgesToCutsEdge(entries: seq<(string, Node)>, from: string, to: string)
    requires from in Keys(entries)
    requires DropEdgesTo(Get(entries, from).value.connections, to).Ok?
    ensures !Edge(SetConns(entries, from, ListConns(DropEdgesTo(Get(entries, from).value.connections, to).value)), from, to)
  {
    var kept := DropEdgesTo(Get(entries, from).value.connections, to).value;
    GetSetConns(entries, from, ListConns(kept));
    if Get(entries, from).value.connections.Some? && Get(entries, from).value.connections.value.ListConns? {
      FilterExactly(Get(entries, from).value.connections.value.recs, NotEdgeTo(to));
      assert forall i :: 0 <= i < |kept| ==> kept[i] in kept;
    }
    RecTargetsAvoid(kept, Keys(entries), to);
  }

  /** The redundant handler as written: every conflict filters the list it
      started from, so with two multi-node conflicts only the second one's
      removals last, and a node the first one removed comes back. */
  lemma RedundantLastWins(objs: seq<NodeObj>)
    requires |objs| == 4
    ensures var c1 := ConflictRec(Some(RedundantKind), None, Some(["A", "B"]));
            var c2 := ConflictRec(Some(RedundantKind), None, Some(["C", "D"]));
            var ids := [Some("A"), Some("B"), Some("C"), Some("D")];
            && Removal(c1) == {"B"}
            && LastRemoval([c1, c2]) == Some({"D"})
            && objs[1] in Surviving(objs, ids, LastRemoval([c1, c2]).value)
  {
    var c1 := ConflictRec(Some(RedundantKind), None, Some(["A", "B"]));
    var c2 := ConflictRec(Some(RedundantKind), None, Some(["C", "D"]));
    var ids := [Some("A"), Some("B"), Some("C"), Some("D")];
    assert Removal(c1) == {"B"} by {
      assert ListedNodes(c1)[1..] == ["B"];
    }
    assert Removal(c2) == {"D"} by {
      assert ListedNodes(c2)[1..] == ["D"];
    }
    assert [c1, c2][..1] == [c1];
    assert objs[1] in Surviving(objs[..2], ids[..2], {"D"}) by {
      assert objs[..2][1] == objs[1] && ids[..2][1] == Some("B");
    }
    assert objs[..3][..2] == objs[..2] && ids[..3][..2] == ids[..2];
    assert objs[1] in Surviving(objs[..3], ids[..3], {"D"});
    assert objs[..3] == objs[..|objs| - 1] && ids[..3] == ids[..|ids| - 1];
  }

  /** The evidently intended redundant handler: each conflict filters the
      list the previous one left. Nodes are paired with their ids. */
  function FilterEach(items: seq<(NodeObj, Option<string>)>, cs: seq<ConflictRec>): (r: seq<(NodeObj, Option<string>)>)
    ensures |r| <= |items|
  {
    if cs == [] then items
    else
      var n := |cs| - 1;
      var before := FilterEach(items, cs[..n]);
      if |ListedNodes(cs[n])| > 1 then Filter(before, (x: (NodeObj, Option<string>)) => !IdIn(x.1, Removal(cs[n]))) else before
  }

  /** A node survives the intended handler exactly when no multi-node
      conflict removes its id. */
  lemma {:induction false} FilterEachExactly(items: seq<(NodeObj, Option<string>)>, cs: seq<ConflictRec>)
    ensures forall x :: x in FilterEach(items, cs) <==>
              x in items && forall i :: 0 <= i < |cs| && |ListedNodes(cs[i])| > 1 ==> !IdIn(x.1, Removal(cs[i]))
  {
    if cs != [] {
      var n := |cs| - 1;
      FilterEachExactly(items, cs[..n]);
      var p := (x: (NodeObj, Option<string>)) => !IdIn(x.1, Removal(cs[n]));
      FilterExactly(FilterEach(items, cs[..n]), p);
      assert forall i :: 0 <= i < n ==> cs[..n][i] == cs[i];
    }
  }
}
