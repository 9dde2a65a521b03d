/** The rule-based half of the validation agent: four conflict detectors
    over the decision graph, the input-driven walk used for edge-case
    scenarios, boolean label evaluation, the shape checks and salvage
    applied to issue lists, and the aggregation into one verdict. The
    language-model checks are inputs here. */
module ValidationAgent {
  import opened Base
  import opened Graph
  import opened TreeTraversal

  /** The four `ConflictType` members the detectors emit. */
  datatype ConflictKind = ContradictoryPaths | CircularDependency | RedundantPaths | OverlappingConditions

  /** A conflict dictionary: `type`, `description`, `nodes`, `severity`. */
  datatype Conflict = Conflict(kind: ConflictKind, description: string, nodes: seq<string>, severity: string)

  /** `tree.get('nodes', {})`. */
  function NodesOf(tree: Tree): Nodes
  {
    if tree.nodes.Some? then tree.nodes.value else Keyed([])
  }

  predicate IsDecision(n: Node)
  {
    n.kind == Some("decision")
  }

  predicate IsOutcome(n: Node)
  {
    n.kind == Some("outcome")
  }

  /** `node.get('condition', '')`. */
  function CondOf(n: Node): string
  {
    if n.condition.Some? then n.condition.value else ""
  }

  /** `node.get('decision', '')`. */
  function DecisionOf(n: Node): string
  {
    if n.decision.Some? then n.decision.value else ""
  }

  /** `node['id']` once it is known to be present. */
  function IdText(n: Node): string
  {
    if n.id.Some? then n.id.value else ""
  }

  // =====================================================================
  // _find_node_by_id

  /** In a list of nodes, a lookup key matches a node whose `id` equals it;
      None matches a node without an id, and a dictionary matches none. */
  predicate IdMatches(n: Node, t: Target)
  {
    match t
    case Id(s) => n.id == Some(s)
    case Null => n.id.None?
    case Obj(_) => false
  }

  /** The first node of a list that matches the key. */
  function FirstMatch(items: seq<Node>, t: Target): (r: Option<Node>)
    ensures r.Some? <==> exists i :: 0 <= i < |items| && IdMatches(items[i], t)
    ensures r.Some? ==> exists i :: 0 <= i < |items| && items[i] == r.value && IdMatches(items[i], t)
                                    && forall j :: 0 <= j < i ==> !IdMatches(items[j], t)
  {
    if items == [] then None
    else if IdMatches(items[0], t) then Some(items[0])
    else
      var r := FirstMatch(items[1..], t);
      assert forall i :: 0 < i < |items| ==> items[i] == items[1..][i - 1];
      if r.Some? then
        var i :| 0 <= i < |items[1..]| && items[1..][i] == r.value && IdMatches(items[1..][i], t)
                  && forall j :: 0 <= j < i ==> !IdMatches(items[1..][j], t);
        assert items[i + 1] == r.value;
        r
      else r
  }

  /** `_find_node_by_id(nodes, key)`: a dictionary is indexed by the key
      (a dictionary-valued key is unhashable and raises); a list is scanned
      for the first node whose `id` equals the key. */
  function FindNodeById(nodes: Nodes, t: Target): (r: Result<Option<Node>>)
    ensures r.Err? <==> nodes.Keyed? && t.Obj?
    ensures r.Ok? && r.value.Some? ==> r.value.value in Values(nodes)
    ensures nodes.Keyed? && t.Id? ==>
              && (r.value.Some? <==> t.id in Keys(nodes.entries))
              && (r.value.Some? ==> exists i :: 0 <= i < |nodes.entries| && nodes.entries[i] == (t.id, r.value.value))
    ensures nodes.Keyed? && t.Null? ==> r == Ok(None)
    ensures nodes.Listed? ==>
              && r.Ok?
              && (r.value.Some? <==> exists i :: 0 <= i < |nodes.items| && IdMatches(nodes.items[i], t))
              && (r.value.Some? ==> exists i :: 0 <= i < |nodes.items| && nodes.items[i] == r.value.value
                                           && IdMatches(nodes.items[i], t)
                                           && forall j :: 0 <= j < i ==> !IdMatches(nodes.items[j], t))
    ensures r.Err? ==> r.error == TypeError
  {
    match nodes
    case Keyed(es) =>
      (match t
       case Obj(_) => Err(TypeError)
       case Null => Ok(None)
       case Id(s) =>
         var r := Get(es, s);
         if r.Some? then
           var i :| 0 <= i < |es| && es[i] == (s, r.value);
           assert Values(nodes)[i] == r.value;
           Ok(r)
         else Ok(r))
    case Listed(ns) => Ok(FirstMatch(ns, t))
  }

  // =====================================================================
  // The outcome labels a decision node reaches directly

  /** A record's `to` as a lookup key (absent means None). */
  function ToTarget(o: Option<string>): Target
  {
    if o.Some? then Id(o.value) else Null
  }

  /** The keys the detectors look up for a node's connections: the label
      values of the dict shape, the `to` of each record of the list shape. */
  function Lookups(c: Conns): (r: seq<Target>)
    ensures c.DictConns? ==> |r| == |c.labelled| && forall i :: 0 <= i < |r| ==> r[i] == c.labelled[i].1
    ensures c.ListConns? ==> |r| == |c.recs| && forall i :: 0 <= i < |r| ==> r[i] == ToTarget(c.recs[i].to)
  {
    match c
    case DictConns(l) => seq(|l|, i requires 0 <= i < |l| => l[i].1)
    case ListConns(rs) => seq(|rs|, i requires 0 <= i < |rs| => ToTarget(rs[i].to))
  }

  /** What key `t` contributes to the outcome labels: the lookup error, the
      `decision` label (default '') of the outcome node it names, or
      nothing. */
  function TargetLabel(nodes: Nodes, t: Target): Result<Option<string>>
  {
    var found := FindNodeById(nodes, t);
    if found.Err? then Err(found.error)
    else if found.value.Some? && IsOutcome(found.value.value) then Ok(Some(DecisionOf(found.value.value)))
    else Ok(None)
  }

  /** The labels `look` yields for the keys, in order, stopping at the
      first error. */
  function Gather(look: Target -> Result<Option<string>>, ts: seq<Target>): Result<set<string>>
  {
    if ts == [] then Ok({})
    else
      var prev := Gather(look, ts[..|ts| - 1]);
      var got := look(ts[|ts| - 1]);
      if prev.Err? then prev
      else if got.Err? then Err(got.error)
      else if got.value.Some? then Ok(prev.value + {got.value.value})
      else prev
  }

  /** An error comes from some key, and an error at any key surfaces. */
  lemma {:induction false} GatherErr(look: Target -> Result<Option<string>>, ts: seq<Target>)
    ensures Gather(look, ts).Err? ==> exists i :: 0 <= i < |ts| && look(ts[i]) == Err(Gather(look, ts).error)
    ensures (exists i :: 0 <= i < |ts| && look(ts[i]).Err?) ==> Gather(look, ts).Err?
  {
    if ts != [] {
      var n := |ts| - 1;
      var pre := ts[..n];
      GatherErr(look, pre);
      if Gather(look, pre).Err? {
        var i :| 0 <= i < n && look(pre[i]) == Err(Gather(look, pre).error);
        assert ts[i] == pre[i];
      }
      if exists i :: 0 <= i < |ts| && look(ts[i]).Err? {
        var i :| 0 <= i < |ts| && look(ts[i]).Err?;
        if i < n {
          assert pre[i] == ts[i];
        }
      }
    }
  }

  /** Without an error, the labels are exactly those some key yields. */
  lemma {:induction false} GatherOk(look: Target -> Result<Option<string>>, ts: seq<Target>, l: string)
    requires Gather(look, ts).Ok?
    ensures l in Gather(look, ts).value <==> exists i :: 0 <= i < |ts| && look(ts[i]) == Ok(Some(l))
  {
    if ts != [] {
      var n := |ts| - 1;
      var pre := ts[..n];
      GatherOk(look, pre, l);
      if exists i :: 0 <= i < |ts| && look(ts[i]) == Ok(Some(l)) {
        var i :| 0 <= i < |ts| && look(ts[i]) == Ok(Some(l));
        if i < n {
          assert pre[i] == ts[i];
        }
      }
      if exists i :: 0 <= i < n && look(pre[i]) == Ok(Some(l)) {
        var i :| 0 <= i < n && look(pre[i]) == Ok(Some(l));
        assert ts[i] == pre[i];
      }
    }
  }

  /** The `decision` labels (default '') of the outcome nodes the keys
      name, or the first lookup error. */
  function OutcomeLabels(nodes: Nodes, ts: seq<Target>): (r: Result<set<string>>)
    ensures r.Err? ==> r.error == TypeError
  {
    GatherErr(t => TargetLabel(nodes, t), ts);
    Gather(t => TargetLabel(nodes, t), ts)
  }

  /** The outcome labels are exactly the decisions of the outcome nodes
      found, and a lookup error anywhere surfaces. */
  lemma OutcomeLabelsExactly(nodes: Nodes, ts: seq<Target>)
    ensures OutcomeLabels(nodes, ts).Err? <==> exists i :: 0 <= i < |ts| && FindNodeById(nodes, ts[i]).Err?
    ensures OutcomeLabels(nodes, ts).Ok? ==>
              forall l :: l in OutcomeLabels(nodes, ts).value <==>
                exists i :: 0 <= i < |ts| && FindNodeById(nodes, ts[i]).Ok? && FindNodeById(nodes, ts[i]).value.Some?
                            && IsOutcome(FindNodeById(nodes, ts[i]).value.value)
                            && DecisionOf(FindNodeById(nodes, ts[i]).value.value) == l
  {
    var look := t => TargetLabel(nodes, t);
    GatherErr(look, ts);
    if OutcomeLabels(nodes, ts).Ok? {
      forall l
        ensures l in OutcomeLabels(nodes, ts).value <==> exists i :: 0 <= i < |ts| && look(ts[i]) == Ok(Some(l))
      {
        GatherOk(look, ts, l);
      }
    }
  }

  /** The inner loop of the contradiction detector: the outcome labels of
      one node's direct targets. */
  method DirectOutcomes(nodes: Nodes, ts: seq<Target>) returns (r: Result<set<string>>)
    ensures r == OutcomeLabels(nodes, ts)
  {
    var outcomes: set<string> := {};
    var i := 0;
    while i < |ts|
      invariant 0 <= i <= |ts|
      invariant OutcomeLabels(nodes, ts[..i]) == Ok(outcomes)
    {
      assert ts[..i + 1][..i] == ts[..i];
      var target := FindNodeById(nodes, ts[i]);
      if target.Err? {
        assert TargetLabel(nodes, ts[i]).Err?;
        GatherErr(t => TargetLabel(nodes, t), ts);
        return Err(target.error);
      }
      if target.value.Some? && IsOutcome(target.value.value) {
        outcomes := outcomes + {DecisionOf(target.value.value)};
      }
      i := i + 1;
    }
    assert ts[..i] == ts;
    return Ok(outcomes);
  }

  // =====================================================================
  // _detect_contradictory_paths

  /** The index of the first decision node before `hi` whose condition
      text is `c`. */
  function FirstDecision(list: seq<Node>, c: string, hi: nat): (r: Option<nat>)
    requires hi <= |list|
    ensures r.Some? ==> r.value < hi && IsDecision(list[r.value]) && CondOf(list[r.value]) == c
    ensures r.Some? ==> forall k :: 0 <= k < r.value ==> !(IsDecision(list[k]) && CondOf(list[k]) == c)
    ensures r.None? ==> forall k :: 0 <= k < hi ==> !(IsDecision(list[k]) && CondOf(list[k]) == c)
  {
    if hi == 0 then None
    else
      var f := FirstDecision(list, c, hi - 1);
      if f.Some? then f
      else if IsDecision(list[hi - 1]) && CondOf(list[hi - 1]) == c then Some(hi - 1)
      else None
  }

  /** The direct outcome labels of each node, as computed by
      `DirectOutcomes`. */
  function OutcomesIn(nodes: Nodes): Node -> Result<set<string>>
  {
    n => OutcomeLabels(nodes, Lookups(ConnsOf(n)))
  }

  /** Decision node `j` repeats the condition text of an earlier decision
      node, and its direct outcome labels differ from those of the first
      node with that text. */
  predicate Contradicts(outs: Node -> Result<set<string>>, list: seq<Node>, j: nat)
    requires j < |list|
  {
    && IsDecision(list[j])
    && var f := FirstDecision(list, CondOf(list[j]), j);
       && f.Some?
       && outs(list[f.value]).Ok?
       && outs(list[j]).Ok?
       && outs(list[f.value]).value != outs(list[j]).value
  }

  function ContradictionConflict(n: Node): Conflict
  {
    Conflict(ContradictoryPaths, "Condition \"" + CondOf(n) + "\" leads to different outcomes", [IdText(n)], "high")
  }

  /** The contradiction conflicts of the nodes before `hi`, in node order. */
  function Contradictions(outs: Node -> Result<set<string>>, list: seq<Node>, hi: nat): seq<Conflict>
    requires hi <= |list|
  {
    if hi == 0 then []
    else Contradictions(outs, list, hi - 1)
         + (if Contradicts(outs, list, hi - 1) then [ContradictionConflict(list[hi - 1])] else [])
  }

  /** The detector completes without raising: every decision node's
      targets can be looked up, and every contradicting node has an id. */
  predicate ContradictionScanOk(outs: Node -> Result<set<string>>, list: seq<Node>)
  {
    && (forall j :: 0 <= j < |list| && IsDecision(list[j]) ==> outs(list[j]).Ok?)
    && (forall j :: 0 <= j < |list| && Contradicts(outs, list, j) ==> list[j].id.Some?)
  }

  /** A conflict is reported for exactly the contradicting nodes; each
      names that one later node, and the first node with a given text never
      yields one. */
  lemma {:induction false} ContradictionsExactly(outs: Node -> Result<set<string>>, list: seq<Node>, hi: nat)
    requires hi <= |list|
    ensures forall c :: c in Contradictions(outs, list, hi) <==>
              exists j :: 0 <= j < hi && Contradicts(outs, list, j) && c == ContradictionConflict(list[j])
    ensures forall c :: c in Contradictions(outs, list, hi) ==>
              c.kind == ContradictoryPaths && c.severity == "high" && |c.nodes| == 1
    ensures forall j :: 0 <= j < hi && FirstDecision(list, CondOf(list[j]), j).None? ==> !Contradicts(outs, list, j)
  {
    if hi > 0 {
      ContradictionsExactly(outs, list, hi - 1);
    }
  }

  /** What the detector's dictionary holds after the first `i` nodes: one
      entry per condition text of a decision node seen so far, bound to the
      outcome labels of the first such node. */
  ghost predicate Remembered(outs: Node -> Result<set<string>>, list: seq<Node>, m: map<string, set<string>>, i: nat)
    requires i <= |list|
  {
    && (forall c :: c in m <==> FirstDecision(list, c, i).Some?)
    && (forall c :: c in m ==> outs(list[FirstDecision(list, c, i).value]) == Ok(m[c]))
  }

  /** One step of the scan: the dictionary gains the text of a new
      decision node and is never overwritten, and node `i` contradicts
      exactly when its text is known with different labels. */
  lemma RememberStep(outs: Node -> Result<set<string>>, list: seq<Node>, m: map<string, set<string>>, i: nat, outcomes: set<string>)
    requires i < |list| && Remembered(outs, list, m, i)
    requires IsDecision(list[i]) ==> outs(list[i]) == Ok(outcomes)
    ensures var m' := if IsDecision(list[i]) && CondOf(list[i]) !in m then m[CondOf(list[i]) := outcomes] else m;
            Remembered(outs, list, m', i + 1)
    ensures Contradicts(outs, list, i) <==>
              IsDecision(list[i]) && CondOf(list[i]) in m && m[CondOf(list[i])] != outcomes
  {
    var m' := if IsDecision(list[i]) && CondOf(list[i]) !in m then m[CondOf(list[i]) := outcomes] else m;
    forall c
      ensures (c in m' <==> FirstDecision(list, c, i + 1).Some?)
      ensures c in m' ==> outs(list[FirstDecision(list, c, i + 1).value]) == Ok(m'[c])
    {
      assert FirstDecision(list, c, i + 1) ==
             if FirstDecision(list, c, i).Some? then FirstDecision(list, c, i)
             else if IsDecision(list[i]) && CondOf(list[i]) == c then Some(i)
             else None;
    }
  }

  /** The detector's dictionary after the first `i` nodes, built the
      way the scan builds it. */
  ghost function Memory(outs: Node -> Result<set<string>>, list: seq<Node>, i: nat): map<string, set<string>>
    requires i <= |list|
  {
    if i == 0 then map[]
    else
      var m := Memory(outs, list, i - 1);
      var n := list[i - 1];
      if IsDecision(n) && CondOf(n) !in m && outs(n).Ok? then m[CondOf(n) := outs(n).value] else m
  }

  /** While no lookup raises, the dictionary the scan builds holds the
      labels of the first node of each text. */
  lemma {:induction false} MemoryRemembered(outs: Node -> Result<set<string>>, list: seq<Node>, i: nat)
    requires i <= |list|
    requires forall j :: 0 <= j < i && IsDecision(list[j]) ==> outs(list[j]).Ok?
    ensures Remembered(outs, list, Memory(outs, list, i), i)
  {
    if i > 0 {
      MemoryRemembered(outs, list, i - 1);
      var n := list[i - 1];
      RememberStep(outs, list, Memory(outs, list, i - 1), i - 1, if IsDecision(n) then outs(n).value else {});
    }
  }

  /** The state of the scan after the first `i` nodes: the dictionary
      is the one built so far, no lookup so far has raised, every
      contradicting node so far has an id, and the conflicts are those of
      the first `i` nodes. */
  ghost predicate ScanSoFar(outs: Node -> Result<set<string>>, list: seq<Node>, m: map<string, set<string>>, conflicts: seq<Conflict>, i: nat)
  {
    && i <= |list|
    && m == Memory(outs, list, i)
    && (forall j :: 0 <= j < i && IsDecision(list[j]) ==> outs(list[j]).Ok?)
    && (forall j :: 0 <= j < i && Contradicts(outs, list, j) ==> list[j].id.Some?)
    && conflicts == Contradictions(outs, list, i)
  }

  /** One node of the scan, when it raises nothing. */
  lemma ScanStep(outs: Node -> Result<set<string>>, list: seq<Node>, m: map<string, set<string>>, conflicts: seq<Conflict>, i: nat, outcomes: set<string>,
                 m': map<string, set<string>>, conflicts': seq<Conflict>)
    requires i < |list| && ScanSoFar(outs, list, m, conflicts, i)
    requires IsDecision(list[i]) ==> outs(list[i]) == Ok(outcomes)
    requires IsDecision(list[i]) && CondOf(list[i]) in m && m[CondOf(list[i])] != outcomes ==> list[i].id.Some?
    requires m' == if IsDecision(list[i]) && CondOf(list[i]) !in m then m[CondOf(list[i]) := outcomes] else m
    requires conflicts' == if IsDecision(list[i]) && CondOf(list[i]) in m && m[CondOf(list[i])] != outcomes
                           then conflicts + [ContradictionConflict(list[i])] else conflicts
    ensures ScanSoFar(outs, list, m', conflicts', i + 1)
  {
    MemoryRemembered(outs, list, i);
    RememberStep(outs, list, m, i, outcomes);
    assert Contradictions(outs, list, i + 1) ==
           Contradictions(outs, list, i) + (if Contradicts(outs, list, i) then [ContradictionConflict(list[i])] else []);
    assert forall j :: 0 <= j < i + 1 && Contradicts(outs, list, j) ==> list[j].id.Some? by {
      assert forall j :: 0 <= j < i && Contradicts(outs, list, j) ==> list[j].id.Some?;
    }
  }

  /** The lookups of the node at `i` raise, so the scan does. */
  lemma LookupFails(outs: Node -> Result<set<string>>, list: seq<Node>, i: nat)
    requires i < |list| && IsDecision(list[i]) && outs(list[i]).Err?
    ensures !ContradictionScanOk(outs, list)
  {
  }

  /** The node at `i` contradicts an earlier one and has no id, so the
      scan raises. */
  lemma MissingIdFails(outs: Node -> Result<set<string>>, list: seq<Node>, m: map<string, set<string>>, conflicts: seq<Conflict>, i: nat, outcomes: set<string>)
    requires i < |list| && ScanSoFar(outs, list, m, conflicts, i)
    requires IsDecision(list[i]) && outs(list[i]) == Ok(outcomes)
    requires CondOf(list[i]) in m && m[CondOf(list[i])] != outcomes && list[i].id.None?
    ensures !ContradictionScanOk(outs, list)
  {
    MemoryRemembered(outs, list, i);
    RememberStep(outs, list, m, i, outcomes);
  }

  /** After the last node the scan has succeeded with every conflict. */
  lemma ScanDone(outs: Node -> Result<set<string>>, list: seq<Node>, m: map<string, set<string>>, conflicts: seq<Conflict>, i: nat)
    requires i == |list| && ScanSoFar(outs, list, m, conflicts, i)
    ensures ContradictionScanOk(outs, list)
    ensures conflicts == Contradictions(outs, list, |list|)
  {
  }

  /** One pass of the detector's loop, over node `i`: the dictionary and
      the conflict list after it, or the exception it raises. */
  method ScanNode(nodes: Nodes, ghost outs: Node -> Result<set<string>>, ghost list: seq<Node>,
                  conditionOutcomes: map<string, set<string>>, conflicts: seq<Conflict>, i: nat)
    returns (m': map<string, set<string>>, conflicts': seq<Conflict>, failure: Option<Error>)
    requires outs == OutcomesIn(nodes) && list == Values(nodes)
    requires i < |list| && ScanSoFar(outs, list, conditionOutcomes, conflicts, i)
    ensures failure.None? ==> ScanSoFar(outs, list, m', conflicts', i + 1)
    ensures failure.Some? ==> !ContradictionScanOk(outs, list)
  {
    var node := Values(nodes)[i];
    m', conflicts', failure := conditionOutcomes, conflicts, None;
    var outcomes: Result<set<string>> := Ok({});
    if IsDecision(node) {
      var condition := CondOf(node);
      outcomes := DirectOutcomes(nodes, Lookups(ConnsOf(node)));
      assert outcomes == outs(node);
      if outcomes.Err? {
        LookupFails(outs, list, i);
        return m', conflicts', Some(outcomes.error);
      }
      if condition in conditionOutcomes {
        if conditionOutcomes[condition] != outcomes.value {
          if node.id.None? {
            MissingIdFails(outs, list, conditionOutcomes, conflicts, i, outcomes.value);
            return m', conflicts', Some(KeyError);
          }
          conflicts' := conflicts + [ContradictionConflict(node)];
        }
      } else {
        m' := conditionOutcomes[condition := outcomes.value];
      }
    }
    ScanStep(outs, list, conditionOutcomes, conflicts, i, outcomes.value, m', conflicts');
  }

  /** The loop of `_detect_contradictory_paths`: the conflicts of all the
      nodes, or the exception the scan raises. */
  method ScanAll(nodes: Nodes, ghost outs: Node -> Result<set<string>>, ghost list: seq<Node>)
    returns (conflicts: seq<Conflict>, failure: Option<Error>)
    requires outs == OutcomesIn(nodes) && list == Values(nodes)
    ensures failure.None? ==> ContradictionScanOk(outs, list) && conflicts == Contradictions(outs, list, |list|)
    ensures failure.Some? ==> !ContradictionScanOk(outs, list)
  {
    var n := |Values(nodes)|;
    conflicts, failure := [], None;
    var conditionOutcomes: map<string, set<string>> := map[];
    var i := 0;
    while i < n
      invariant i <= n && failure.None? && ScanSoFar(outs, list, conditionOutcomes, conflicts, i)
    {
      conditionOutcomes, conflicts, failure := ScanNode(nodes, outs, list, conditionOutcomes, conflicts, i);
      if failure.Some? {
        return;
      }
      i := i + 1;
    }
    ScanDone(outs, list, conditionOutcomes, conflicts, i);
  }

  /** `_detect_contradictory_paths`: scans the nodes in order, remembering
      the outcome labels of the first decision node with each condition
      text and reporting every later one whose labels differ. */
  method DetectContradictoryPaths(tree: Tree) returns (r: Result<seq<Conflict>>)
    ensures r.Ok? <==> ContradictionScanOk(OutcomesIn(NodesOf(tree)), Values(NodesOf(tree)))
    ensures r.Ok? ==> r.value == Contradictions(OutcomesIn(NodesOf(tree)), Values(NodesOf(tree)), |Values(NodesOf(tree))|)
  {
    var nodes := NodesOf(tree);
    var conflicts, failure := ScanAll(nodes, OutcomesIn(nodes), Values(nodes));
    if failure.Some? {
      return Err(failure.value);
    }
    return Ok(conflicts);
  }

  // =====================================================================
  // _detect_circular_dependencies

  function CircularConflict(cycle: seq<string>): Conflict
  {
    Conflict(CircularDependency, "Circular dependency detected: " + Join(cycle, " -> "), cycle, "critical")
  }

  /** One conflict per reported cycle, in order; none when the cycle
      search raises. */
  function CircularFrom(refs: Result<seq<seq<string>>>): (cs: seq<Conflict>)
  {
    if refs.Err? then []
    else seq(|refs.value|, k requires 0 <= k < |refs.value| => CircularConflict(refs.value[k]))
  }

  /** The circular conflicts `_detect_circular_dependencies` may report:
      those of one result the cycle search may give. */
  ghost predicate CircularOf(tree: Tree, cs: seq<Conflict>)
  {
    exists refs :: CycleReport(tree, refs) && cs == CircularFrom(refs)
  }

  /** Every circular conflict names a cycle of the graph and is critical;
      every self-loop is reported; an acyclic or unkeyed graph gives none. */
  lemma CircularOfCycles(tree: Tree, cs: seq<Conflict>)
    requires CircularOf(tree, cs)
    ensures forall c :: c in cs ==> c.kind == CircularDependency && c.severity == "critical"
    ensures tree.nodes.None? || tree.nodes.value.Listed? ==> cs == []
    ensures tree.nodes.Some? && tree.nodes.value.Keyed? ==>
              && (forall c :: c in cs ==> IsCycle(tree.nodes.value.entries, c.nodes))
              && (forall v :: Edge(tree.nodes.value.entries, v, v) ==> CircularConflict([v, v]) in cs)
              && ((forall c :: !IsCycle(tree.nodes.value.entries, c)) ==> cs == [])
              && ((exists c :: IsCycle(tree.nodes.value.entries, c)) ==> cs != [])
  {
    var refs :| CycleReport(tree, refs) && cs == CircularFrom(refs);
    if refs.Ok? {
      forall c | c in cs
        ensures c.kind == CircularDependency && c.severity == "critical"
        ensures tree.nodes.Some? && tree.nodes.value.Keyed? ==> IsCycle(tree.nodes.value.entries, c.nodes)
      {
        var k :| 0 <= k < |cs| && cs[k] == c;
        assert c == CircularConflict(refs.value[k]) && refs.value[k] in refs.value;
      }
      if tree.nodes.Some? && tree.nodes.value.Keyed? {
        forall v | Edge(tree.nodes.value.entries, v, v)
          ensures CircularConflict([v, v]) in cs
        {
          var k :| 0 <= k < |refs.value| && refs.value[k] == [v, v];
          assert cs[k] == CircularConflict([v, v]);
        }
      }
    }
  }

  /** `_detect_circular_dependencies`: one critical conflict per cycle the
      cycle finder reports, naming the cycle; a finder error is swallowed. */
  method DetectCircularDependencies(tree: Tree) returns (conflicts: seq<Conflict>)
    ensures CircularOf(tree, conflicts)
  {
    var refs := DetectCircularReferences(tree);
    if refs.Err? {
      assert CycleReport(tree, refs) && [] == CircularFrom(refs);
      return [];
    }
    var cycles := refs.value;
    conflicts := [];
    var i := 0;
    while i < |cycles|
      invariant 0 <= i <= |cycles|
      invariant |conflicts| == i
      invariant forall k :: 0 <= k < i ==> conflicts[k] == CircularConflict(cycles[k])
    {
      conflicts := conflicts + [CircularConflict(cycles[i])];
      i := i + 1;
    }
    assert CycleReport(tree, refs) && conflicts == CircularFrom(refs);
  }

  // =====================================================================
  // _conditions_overlap and _detect_overlapping_conditions

  const Stopwords: set<string> := {"is", "the", "and", "or", "not", "has", "have", "with", "than", "greater", "less"}

  /** `set(condition.lower().split())`. */
  function Keywords(c: string): set<string>
  {
    Elems(Split(Lower(c)))
  }

  /** The shared keywords that are not stopwords. */
  function Significant(c1: string, c2: string): set<string>
  {
    (Keywords(c1) * Keywords(c2)) - Stopwords
  }

  /** `_conditions_overlap`: at least two significant shared keywords. */
  predicate ConditionsOverlap(c1: string, c2: string)
  {
    |Significant(c1, c2)| >= 2
  }

  /** Overlap does not depend on the order of the two conditions. */
  lemma ConditionsOverlapSymmetric(c1: string, c2: string)
    ensures ConditionsOverlap(c1, c2) <==> ConditionsOverlap(c2, c1)
  {
    assert Significant(c1, c2) == Significant(c2, c1);
  }

  lemma {:induction false} LowerIdempotent(s: string)
    ensures Lower(Lower(s)) == Lower(s)
  {
    if s != [] {
      LowerIdempotent(s[1..]);
      assert Lower(s)[1..] == Lower(s[1..]);
    }
  }

  /** Overlap ignores the letter case of either condition. */
  lemma ConditionsOverlapCaseless(c1: string, c2: string)
    ensures ConditionsOverlap(Lower(c1), c2) <==> ConditionsOverlap(c1, c2)
  {
    LowerIdempotent(c1);
    assert Keywords(Lower(c1)) == Keywords(c1);
  }

  /** Two overlapping conditions each have at least two words. */
  lemma ConditionsOverlapWordCount(c1: string, c2: string)
    requires ConditionsOverlap(c1, c2)
    ensures |Split(Lower(c1))| >= 2 && |Split(Lower(c2))| >= 2
  {
    var sig := Significant(c1, c2);
    SubsetCard(sig, Keywords(c1));
    SubsetCard(sig, Keywords(c2));
    ElemsCard(Split(Lower(c1)));
    ElemsCard(Split(Lower(c2)));
  }

  /** `[n for n in nodes_list if n.get('type') == 'decision']`. */
  function Decisions(list: seq<Node>): (r: seq<Node>)
    ensures forall n :: n in r <==> n in list && IsDecision(n)
    ensures |r| <= |list|
  {
    if list == [] then []
    else (if IsDecision(list[0]) then [list[0]] else []) + Decisions(list[1..])
  }

  function OverlapConflict(a: Node, b: Node): Conflict
  {
    Conflict(OverlappingConditions,
             "Conditions may overlap: \"" + CondOf(a) + "\" and \"" + CondOf(b) + "\"",
             [IdText(a), IdText(b)], "low")
  }

  /** The pair `(i, j)` is flagged under the overlap test `overlap`. */
  predicate Flagged(ds: seq<Node>, overlap: (string, string) -> bool, i: nat, j: nat)
    requires i < |ds| && j < |ds|
  {
    overlap(CondOf(ds[i]), CondOf(ds[j]))
  }

  /** The conflicts of row `i` against the nodes after it and before `hi`. */
  function Row(ds: seq<Node>, overlap: (string, string) -> bool, i: nat, hi: nat): seq<Conflict>
    requires i < |ds| && hi <= |ds|
  {
    if hi <= i + 1 then []
    else Row(ds, overlap, i, hi - 1) + (if Flagged(ds, overlap, i, hi - 1) then [OverlapConflict(ds[i], ds[hi - 1])] else [])
  }

  /** The first `hi` complete rows. */
  function Table(ds: seq<Node>, overlap: (string, string) -> bool, hi: nat): (t: seq<seq<Conflict>>)
    requires hi <= |ds|
    ensures |t| == hi
    ensures forall i :: 0 <= i < hi ==> t[i] == Row(ds, overlap, i, |ds|)
  {
    if hi == 0 then [] else Table(ds, overlap, hi - 1) + [Row(ds, overlap, hi - 1, |ds|)]
  }

  /** The conflicts of the first `hi` rows, each row complete. */
  function Rows(ds: seq<Node>, overlap: (string, string) -> bool, hi: nat): seq<Conflict>
    requires hi <= |ds|
  {
    Base.Concat(Table(ds, overlap, hi))
  }

  /** One more row scanned. */
  lemma RowsSnoc(ds: seq<Node>, overlap: (string, string) -> bool, i: nat)
    requires i < |ds|
    ensures Rows(ds, overlap, i + 1) == Rows(ds, overlap, i) + Row(ds, overlap, i, |ds|)
  {
    Base.ConcatSnoc(Table(ds, overlap, i), Row(ds, overlap, i, |ds|));
  }

  /** The pair scan completes without raising: both ends of every flagged
      pair have an id. */
  predicate OverlapScanOk(ds: seq<Node>, overlap: (string, string) -> bool)
  {
    forall i, j :: 0 <= i < j < |ds| && Flagged(ds, overlap, i, j) ==> ds[i].id.Some? && ds[j].id.Some?
  }

  /** `c` is the conflict of row `i` with a flagged node after it and
      before `hi`. */
  ghost predicate RowFlagged(ds: seq<Node>, overlap: (string, string) -> bool, i: nat, hi: nat, c: Conflict)
    requires i < |ds| && hi <= |ds|
  {
    exists j :: i < j < hi && Flagged(ds, overlap, i, j) && c == OverlapConflict(ds[i], ds[j])
  }

  lemma {:induction false} RowExactly(ds: seq<Node>, overlap: (string, string) -> bool, i: nat, hi: nat)
    requires i < |ds| && hi <= |ds|
    ensures forall c :: c in Row(ds, overlap, i, hi) <==> RowFlagged(ds, overlap, i, hi, c)
  {
    if hi > i + 1 {
      RowExactly(ds, overlap, i, hi - 1);
    }
  }

  /** `c` is the conflict of a flagged pair whose first node lies in one
      of the first `hi` rows. */
  ghost predicate PairFlagged(ds: seq<Node>, overlap: (string, string) -> bool, hi: nat, c: Conflict)
    requires hi <= |ds|
  {
    exists i :: 0 <= i < hi && RowFlagged(ds, overlap, i, |ds|, c)
  }

  lemma RowMember(ds: seq<Node>, overlap: (string, string) -> bool, i: nat, c: Conflict)
    requires i < |ds|
    ensures c in Row(ds, overlap, i, |ds|) <==> RowFlagged(ds, overlap, i, |ds|, c)
  {
    RowExactly(ds, overlap, i, |ds|);
  }

  lemma RowsMember(ds: seq<Node>, overlap: (string, string) -> bool, hi: nat, c: Conflict)
    requires hi <= |ds|
    ensures c in Rows(ds, overlap, hi) <==> PairFlagged(ds, overlap, hi, c)
  {
    var t := Table(ds, overlap, hi);
    if c in Rows(ds, overlap, hi) {
      var i := ConcatWitness(t, c);
      RowMember(ds, overlap, i, c);
    }
    if PairFlagged(ds, overlap, hi, c) {
      var i :| 0 <= i < hi && RowFlagged(ds, overlap, i, |ds|, c);
      RowMember(ds, overlap, i, c);
      ConcatHas(t, i, c);
    }
  }

  /** Each unordered pair of decision nodes is compared once, earlier node
      first, and exactly the overlapping pairs are reported. */
  lemma RowsExactly(ds: seq<Node>, overlap: (string, string) -> bool, hi: nat)
    requires hi <= |ds|
    ensures forall c :: c in Rows(ds, overlap, hi) <==> PairFlagged(ds, overlap, hi, c)
  {
    forall c
      ensures c in Rows(ds, overlap, hi) <==> PairFlagged(ds, overlap, hi, c)
    {
      RowsMember(ds, overlap, hi, c);
    }
  }

  /** Every overlap conflict is low-severity and names two nodes. */
  lemma RowsKinds(ds: seq<Node>, overlap: (string, string) -> bool, hi: nat)
    requires hi <= |ds|
    ensures forall c :: c in Rows(ds, overlap, hi) ==> c.kind == OverlappingConditions && c.severity == "low" && |c.nodes| == 2
  {
    forall c | c in Rows(ds, overlap, hi)
      ensures c.kind == OverlappingConditions && c.severity == "low" && |c.nodes| == 2
    {
      var i := ConcatWitness(Table(ds, overlap, hi), c);
      RowMember(ds, overlap, i, c);
    }
  }

  /** The pairs of `ds` before position `(i, j)` in row order: every
      flagged one has ids at both ends. */
  ghost predicate IdsBefore(ds: seq<Node>, overlap: (string, string) -> bool, i: nat, j: nat)
  {
    forall a, b :: 0 <= a < b < |ds| && (a < i || (a == i && b < j)) && Flagged(ds, overlap, a, b) ==>
      ds[a].id.Some? && ds[b].id.Some?
  }

  /** One more pair compared without raising. */
  lemma IdsBeforeStep(ds: seq<Node>, overlap: (string, string) -> bool, i: nat, j: nat)
    requires i < j < |ds| && IdsBefore(ds, overlap, i, j)
    requires Flagged(ds, overlap, i, j) ==> ds[i].id.Some? && ds[j].id.Some?
    ensures IdsBefore(ds, overlap, i, j + 1)
  {
  }

  /** A finished row moves the scan to the start of the next one. */
  lemma IdsBeforeRow(ds: seq<Node>, overlap: (string, string) -> bool, i: nat)
    requires i < |ds| && IdsBefore(ds, overlap, i, |ds|)
    ensures IdsBefore(ds, overlap, i + 1, i + 2)
  {
  }

  /** All rows finished: the scan raised nothing. */
  lemma IdsBeforeDone(ds: seq<Node>, overlap: (string, string) -> bool)
    requires IdsBefore(ds, overlap, |ds|, |ds| + 1)
    ensures OverlapScanOk(ds, overlap)
  {
  }

  /** The inner loop of `_detect_overlapping_conditions`: row `i` compared
      against every later node. `failed` when a flagged pair lacks an id. */
  method ScanRow(ds: seq<Node>, overlap: (string, string) -> bool, i: nat, conflicts: seq<Conflict>)
    returns (conflicts': seq<Conflict>, failed: bool)
    requires i < |ds| && IdsBefore(ds, overlap, i, i + 1)
    ensures failed ==> !OverlapScanOk(ds, overlap)
    ensures !failed ==> conflicts' == conflicts + Row(ds, overlap, i, |ds|) && IdsBefore(ds, overlap, i, |ds|)
  {
    conflicts', failed := conflicts, false;
    var j := i + 1;
    while j < |ds|
      invariant i + 1 <= j <= |ds|
      invariant conflicts' == conflicts + Row(ds, overlap, i, j)
      invariant IdsBefore(ds, overlap, i, j)
    {
      if overlap(CondOf(ds[i]), CondOf(ds[j])) {
        if ds[i].id.None? || ds[j].id.None? {
          return conflicts', true;
        }
        conflicts' := conflicts' + [OverlapConflict(ds[i], ds[j])];
      }
      IdsBeforeStep(ds, overlap, i, j);
      j := j + 1;
    }
  }

  /** The nested loops of `_detect_overlapping_conditions`, over any
      overlap test. */
  method ScanOverlaps(ds: seq<Node>, overlap: (string, string) -> bool) returns (r: Result<seq<Conflict>>)
    ensures r.Ok? <==> OverlapScanOk(ds, overlap)
    ensures r.Ok? ==> r.value == Rows(ds, overlap, |ds|)
  {
    var conflicts: seq<Conflict> := [];
    var i := 0;
    while i < |ds|
      invariant 0 <= i <= |ds|
      invariant conflicts == Rows(ds, overlap, i)
      invariant IdsBefore(ds, overlap, i, i + 1)
    {
      var failed;
      conflicts, failed := ScanRow(ds, overlap, i, conflicts);
      if failed {
        return Err(KeyError);
      }
      IdsBeforeRow(ds, overlap, i);
      RowsSnoc(ds, overlap, i);
      i := i + 1;
    }
    IdsBeforeDone(ds, overlap);
    return Ok(conflicts);
  }

  /** `_detect_overlapping_conditions`: every pair `i < j` of decision
      nodes whose conditions overlap, in row order. */
  method DetectOverlappingConditions(tree: Tree) returns (r: Result<seq<Conflict>>)
    ensures var ds := Decisions(Values(NodesOf(tree)));
            && (r.Ok? <==> OverlapScanOk(ds, ConditionsOverlap))
            && (r.Ok? ==> r.value == Rows(ds, ConditionsOverlap, |ds|))
  {
    var ds := Decisions(Values(NodesOf(tree)));
    r := ScanOverlaps(ds, ConditionsOverlap);
  }

  // =====================================================================
  // The ids the detectors and the walk consider referenced

  /** The keys one node contributes to `referenced_nodes`: every value of
      the dict shape (None included; a dictionary value is unhashable and
      raises), the `to` of every list record that has one. */
  function NodeRefs(n: Node): (r: Result<set<Option<string>>>)
    ensures r.Err? <==> ConnsOf(n).DictConns? && exists i :: 0 <= i < |ConnsOf(n).labelled| && ConnsOf(n).labelled[i].1.Obj?
    ensures r.Err? ==> r.error == TypeError
  {
    match ConnsOf(n)
    case DictConns(l) =>
      if exists i :: 0 <= i < |l| && l[i].1.Obj? then Err(TypeError)
      else Ok(set i | 0 <= i < |l| :: Unwrap(l[i].1))
    case ListConns(rs) => Ok(set i | 0 <= i < |rs| && rs[i].to.Some? :: rs[i].to)
  }

  /** `referenced_nodes` after the nodes of `list`, or the error raised. */
  function ReferencedIds(list: seq<Node>): (r: Result<set<Option<string>>>)
    ensures r.Err? ==> r.error == TypeError
  {
    if list == [] then Ok({})
    else
      var prev := ReferencedIds(list[..|list| - 1]);
      var refs := NodeRefs(list[|list| - 1]);
      if prev.Err? then prev
      else if refs.Err? then refs
      else Ok(prev.value + refs.value)
  }

  /** Collecting the references raises exactly when some node's dict
      shape holds a dictionary value; otherwise it is the union over the
      nodes. */
  lemma {:induction false} ReferencedIdsExactly(list: seq<Node>)
    ensures ReferencedIds(list).Err? <==> exists i :: 0 <= i < |list| && NodeRefs(list[i]).Err?
    ensures ReferencedIds(list).Ok? ==>
              forall x :: x in ReferencedIds(list).value <==>
                exists i :: 0 <= i < |list| && NodeRefs(list[i]).Ok? && x in NodeRefs(list[i]).value
  {
    if list != [] {
      var n := |list| - 1;
      ReferencedIdsExactly(list[..n]);
      assert forall i :: 0 <= i < n ==> list[..n][i] == list[i];
    }
  }

  /** The loop that fills `referenced_nodes`. */
  method CollectReferenced(list: seq<Node>) returns (r: Result<set<Option<string>>>)
    ensures r == ReferencedIds(list)
  {
    var referenced: set<Option<string>> := {};
    var i := 0;
    while i < |list|
      invariant 0 <= i <= |list|
      invariant ReferencedIds(list[..i]) == Ok(referenced)
    {
      assert list[..i + 1][..i] == list[..i];
      var refs := NodeRefs(list[i]);
      if refs.Err? {
        ReferencedIdsExactly(list);
        return refs;
      }
      referenced := referenced + refs.value;
      i := i + 1;
    }
    assert list[..i] == list;
    return Ok(referenced);
  }

  // =====================================================================
  // _detect_redundant_paths

  /** One entry of `outcome_paths[outcome]`: the condition signature and
      the node ids of one path. */
  datatype PathRecord = PathRecord(conditions: string, nodes: seq<string>)

  /** `node.get('question') or node.get('condition')`. */
  function NodeText(n: Node): Option<string>
  {
    if Truthy(n.question) then n.question else n.condition
  }

  /** The truthy condition texts of the nodes the ids name, in order. */
  function PathTexts(nodes: Nodes, ids: seq<string>): (r: seq<string>)
    ensures forall t :: t in r ==> t != ""
    ensures |r| <= |ids|
  {
    if ids == [] then []
    else
      var found := FindNodeById(nodes, Id(ids[|ids| - 1]));
      PathTexts(nodes, ids[..|ids| - 1])
      + (if found.Ok? && found.value.Some? && Truthy(NodeText(found.value.value)) then [NodeText(found.value.value).value] else [])
  }

  /** The truthy ids, in order. */
  function NonEmptyIds(ids: seq<string>): (r: seq<string>)
    ensures forall x :: x in r <==> x in ids && x != ""
    ensures |r| <= |ids|
  {
    if ids == [] then []
    else NonEmptyIds(ids[..|ids| - 1]) + (if ids[|ids| - 1] != "" then [ids[|ids| - 1]] else [])
  }

  /** The record of one path: its texts joined by " -> ", its ids. */
  function RecordOf(nodes: Nodes, p: seq<string>): PathRecord
    requires p != []
  {
    PathRecord(Join(PathTexts(nodes, p[..|p| - 1]), " -> "), NonEmptyIds(p))
  }

  /** A path's signature is empty exactly when no node before its last
      has a truthy condition text. */
  lemma RecordSignatureEmpty(nodes: Nodes, p: seq<string>)
    requires p != []
    ensures RecordOf(nodes, p).conditions == "" <==> PathTexts(nodes, p[..|p| - 1]) == []
  {
    var ts := PathTexts(nodes, p[..|p| - 1]);
    if ts != [] {
      assert ts[0] in ts;
      assert |ts[0]| <= |Join(ts, " -> ")|;
    }
  }

  /** The inner loop over one path: texts of all but the last node, ids
      of every node. */
  method BuildRecord(nodes: Nodes, p: seq<string>) returns (rec: PathRecord)
    requires p != []
    ensures rec == RecordOf(nodes, p)
  {
    var conditions: seq<string> := [];
    var ids: seq<string> := [];
    var i := 0;
    while i < |p| - 1
      invariant 0 <= i <= |p| - 1
      invariant conditions == PathTexts(nodes, p[..i])
      invariant ids == NonEmptyIds(p[..i])
    {
      assert p[..i + 1][..i] == p[..i];
      var node := FindNodeById(nodes, Id(p[i]));
      if p[i] != "" {
        ids := ids + [p[i]];
      }
      if node.Ok? && node.value.Some? && Truthy(NodeText(node.value.value)) {
        conditions := conditions + [NodeText(node.value.value).value];
      }
      i := i + 1;
    }
    assert p[..|p|][..|p| - 1] == p[..|p| - 1];
    assert p[..|p|] == p;
    if p[|p| - 1] != "" {
      ids := ids + [p[|p| - 1]];
    }
    rec := PathRecord(Join(conditions, " -> "), ids);
  }

  /** `outcome_paths`: an insertion-ordered dictionary from decision
      label to the records of the paths reaching it, in append order. */
  datatype OutcomePaths = OutcomePaths(order: seq<string>, lists: map<string, seq<PathRecord>>)

  /** The key order lists each key of the dictionary once. */
  predicate WellOrdered(g: OutcomePaths)
  {
    Distinct(g.order) && g.lists.Keys == Elems(g.order)
  }

  predicate InGroups(g: OutcomePaths, outcome: string, rec: PathRecord)
  {
    outcome in g.lists && rec in g.lists[outcome]
  }

  /** `outcome_paths.setdefault(outcome, []).append(rec)`, as the
      detector spells it. */
  function AddRecord(g: OutcomePaths, outcome: string, rec: PathRecord): (r: OutcomePaths)
    requires WellOrdered(g)
    ensures WellOrdered(r)
    ensures forall l, x :: InGroups(r, l, x) <==> InGroups(g, l, x) || (l == outcome && x == rec)
    ensures outcome in g.lists ==> r.order == g.order
    ensures outcome !in g.lists ==> r.order == g.order + [outcome]
  {
    if outcome in g.lists then OutcomePaths(g.order, g.lists[outcome := g.lists[outcome] + [rec]])
    else OutcomePaths(g.order + [outcome], g.lists[outcome := [rec]])
  }

  /** The record was built from a simple path that starts at some node's
      id and ends at the id of a node whose decision is `outcome`. */
  ghost predicate Recorded(nodes: Nodes, outcome: string, rec: PathRecord)
  {
    && nodes.Keyed?
    && exists p :: p != [] && rec == RecordOf(nodes, p) && ReachesOutcome(nodes.entries, p, outcome)
  }

  predicate ReachesOutcome(entries: seq<(string, Node)>, p: seq<string>, outcome: string)
    requires p != []
  {
    && IsSimplePath(entries, p, p[0], p[|p| - 1])
    && (exists i :: 0 <= i < |entries| && entries[i].1.id == Some(p[0]))
    && (exists k :: 0 <= k < |entries| && entries[k].1.id == Some(p[|p| - 1]) && entries[k].1.decision == Some(outcome))
  }

  ghost predicate AllRecorded(nodes: Nodes, g: OutcomePaths)
  {
    forall l, x :: InGroups(g, l, x) ==> Recorded(nodes, l, x)
  }

  /** `[n for n in nodes_list if n.get('decision') is not None]`. */
  function OutcomeNodes(list: seq<Node>): (r: seq<Node>)
    ensures forall n :: n in r <==> n in list && n.decision.Some?
  {
    if list == [] then []
    else OutcomeNodes(list[..|list| - 1]) + (if list[|list| - 1].decision.Some? then [list[|list| - 1]] else [])
  }

  /** `[n for n in nodes_list if n.get('id') not in referenced_nodes]`. */
  function StartCandidates(list: seq<Node>, refs: set<Option<string>>): (r: seq<Node>)
    ensures forall n :: n in r <==> n in list && n.id !in refs
  {
    if list == [] then []
    else StartCandidates(list[..|list| - 1], refs) + (if list[|list| - 1].id !in refs then [list[|list| - 1]] else [])
  }

  /** `[n for n in nodes_list if n.get('decision') is None]`. */
  function NonOutcomes(list: seq<Node>): (r: seq<Node>)
    ensures forall n :: n in r <==> n in list && n.decision.None?
  {
    if list == [] then []
    else NonOutcomes(list[..|list| - 1]) + (if list[|list| - 1].decision.None? then [list[|list| - 1]] else [])
  }

  /** A simple path from a node of the dictionary to an outcome node's id
      yields a record of that outcome. */
  lemma RecordedPath(nodes: Nodes, outcome: string, p: seq<string>, s: Node, o: Node)
    requires nodes.Keyed? && s in Values(nodes) && o in Values(nodes)
    requires o.decision == Some(outcome) && s.id.Some? && o.id.Some?
    requires IsSimplePath(nodes.entries, p, s.id.value, o.id.value)
    ensures Recorded(nodes, outcome, RecordOf(nodes, p))
  {
    var i :| 0 <= i < |Values(nodes)| && Values(nodes)[i] == s;
    var k :| 0 <= k < |Values(nodes)| && Values(nodes)[k] == o;
    assert nodes.entries[i].1 == s && nodes.entries[k].1 == o;
    assert ReachesOutcome(nodes.entries, p, outcome);
  }

  /** The `try` block of `_detect_redundant_paths`: for each outcome node
      and each start node, the records of every simple path between them,
      grouped by decision label. An error while collecting references is
      caught and ends the collection. */
  method CollectOutcomePaths(tree: Tree) returns (g: OutcomePaths)
    ensures WellOrdered(g)
    ensures AllRecorded(NodesOf(tree), g)
    ensures NodesOf(tree).Listed? ==> g == OutcomePaths([], map[])
  {
    var nodes := NodesOf(tree);
    var list := Values(nodes);
    g := OutcomePaths([], map[]);
    var outcomes := OutcomeNodes(list);
    var a := 0;
    while a < |outcomes|
      invariant WellOrdered(g) && AllRecorded(nodes, g)
      invariant nodes.Listed? ==> g == OutcomePaths([], map[])
    {
      var outcomeNode := outcomes[a];
      assert outcomeNode in outcomes;
      var referenced := CollectReferenced(list);
      if referenced.Err? {
        return;
      }
      var starts := StartCandidates(list, referenced.value);
      if starts == [] {
        starts := NonOutcomes(list);
      }
      var b := 0;
      while b < |starts|
        invariant WellOrdered(g) && AllRecorded(nodes, g)
        invariant nodes.Listed? ==> g == OutcomePaths([], map[])
      {
        assert starts[b] in starts;
        var paths := FindAllPaths(tree, starts[b].id, outcomeNode.id);
        var c := 0;
        while c < |paths|
          invariant WellOrdered(g) && AllRecorded(nodes, g)
          invariant nodes.Listed? ==> g == OutcomePaths([], map[])
        {
          var p := paths[c];
          assert p in paths;
          if p != [] {
            var rec := BuildRecord(nodes, p);
            RecordedPath(nodes, outcomeNode.decision.value, p, starts[b], outcomeNode);
            g := AddRecord(g, outcomeNode.decision.value, rec);
          }
          c := c + 1;
        }
        b := b + 1;
      }
      a := a + 1;
    }
  }

  /** The index of the first record before `hi` with signature `c`. */
  function FirstSig(recs: seq<PathRecord>, c: string, hi: nat): (r: Option<nat>)
    requires hi <= |recs|
    ensures r.Some? ==> r.value < hi && recs[r.value].conditions == c
    ensures r.Some? ==> forall k :: 0 <= k < r.value ==> recs[k].conditions != c
    ensures r.None? ==> forall k :: 0 <= k < hi ==> recs[k].conditions != c
  {
    if hi == 0 then None
    else
      var f := FirstSig(recs, c, hi - 1);
      if f.Some? then f
      else if recs[hi - 1].conditions == c then Some(hi - 1)
      else None
  }

  /** `condition_sets` after the first `i` records, built the way the
      detector builds it. */
  ghost function SigMemory(recs: seq<PathRecord>, i: nat): map<string, seq<string>>
    requires i <= |recs|
  {
    if i == 0 then map[]
    else
      var m := SigMemory(recs, i - 1);
      var c := recs[i - 1].conditions;
      if c != "" && c !in m then m[c := recs[i - 1].nodes] else m
  }

  /** `condition_sets` binds each non-empty signature seen so far to the
      ids of the first record with it, and is never overwritten. */
  lemma {:induction false} SigMemoryFirst(recs: seq<PathRecord>, i: nat)
    requires i <= |recs|
    ensures forall c :: c in SigMemory(recs, i) <==> c != "" && FirstSig(recs, c, i).Some?
    ensures forall c :: c in SigMemory(recs, i) ==> SigMemory(recs, i)[c] == recs[FirstSig(recs, c, i).value].nodes
  {
    if i > 0 {
      SigMemoryFirst(recs, i - 1);
      forall c
        ensures FirstSig(recs, c, i) ==
                if FirstSig(recs, c, i - 1).Some? then FirstSig(recs, c, i - 1)
                else if recs[i - 1].conditions == c then Some(i - 1) else None
      {
      }
    }
  }

  function RedundantConflict(outcome: string, ids: seq<string>): Conflict
  {
    Conflict(RedundantPaths, "Multiple paths with identical conditions lead to \"" + outcome + "\"", ids, "medium")
  }

  /** Record `b` repeats the non-empty signature of an earlier record. */
  predicate Repeats(recs: seq<PathRecord>, b: nat)
    requires b < |recs|
  {
    recs[b].conditions != "" && FirstSig(recs, recs[b].conditions, b).Some?
  }

  /** The conflicts of one outcome's records before `hi`: each repeating
      record, with its ids followed by those of the first record with the
      same signature. */
  function GroupFlags(outcome: string, recs: seq<PathRecord>, hi: nat): seq<Conflict>
    requires hi <= |recs|
  {
    if hi == 0 then []
    else GroupFlags(outcome, recs, hi - 1) + (if Repeats(recs, hi - 1) then [RepeatConflict(outcome, recs, hi - 1)] else [])
  }

  /** The conflicts of the first `hi` outcomes, in dictionary order. */
  function RedundantConflicts(g: OutcomePaths, hi: nat): seq<Conflict>
    requires WellOrdered(g) && hi <= |g.order|
  {
    if hi == 0 then []
    else
      assert g.order[hi - 1] in Elems(g.order);
      RedundantConflicts(g, hi - 1) + GroupFlags(g.order[hi - 1], g.lists[g.order[hi - 1]], |g.lists[g.order[hi - 1]]|)
  }

  /** The conflict record `b` raises when it repeats an earlier signature:
      its ids, then those of the first record with the same signature. */
  function RepeatConflict(outcome: string, recs: seq<PathRecord>, b: nat): Conflict
    requires b < |recs| && Repeats(recs, b)
  {
    RedundantConflict(outcome, recs[b].nodes + recs[FirstSig(recs, recs[b].conditions, b).value].nodes)
  }

  /** `c` is the conflict of some record before `hi` that repeats an
      earlier non-empty signature. */
  ghost predicate RepeatFlagged(outcome: string, recs: seq<PathRecord>, hi: nat, c: Conflict)
    requires hi <= |recs|
  {
    exists b :: 0 <= b < hi && Repeats(recs, b) && c == RepeatConflict(outcome, recs, b)
  }

  lemma RepeatFlaggedSnoc(outcome: string, recs: seq<PathRecord>, hi: nat, c: Conflict)
    requires 0 < hi <= |recs|
    ensures RepeatFlagged(outcome, recs, hi, c) <==>
              RepeatFlagged(outcome, recs, hi - 1, c) || (Repeats(recs, hi - 1) && c == RepeatConflict(outcome, recs, hi - 1))
  {
    if RepeatFlagged(outcome, recs, hi, c) {
      var b :| 0 <= b < hi && Repeats(recs, b) && c == RepeatConflict(outcome, recs, b);
      if b < hi - 1 {
        assert RepeatFlagged(outcome, recs, hi - 1, c);
      }
    }
    if RepeatFlagged(outcome, recs, hi - 1, c) {
      var b :| 0 <= b < hi - 1 && Repeats(recs, b) && c == RepeatConflict(outcome, recs, b);
      assert 0 <= b < hi;
    }
  }

  /** A redundant-path conflict is reported exactly for each record that
      repeats the non-empty signature of an earlier record of the same
      outcome, listing the later record's ids and then the first one's. */
  lemma {:induction false} GroupFlagsExactly(outcome: string, recs: seq<PathRecord>, hi: nat)
    requires hi <= |recs|
    ensures forall c :: c in GroupFlags(outcome, recs, hi) <==> RepeatFlagged(outcome, recs, hi, c)
  {
    if hi > 0 {
      var b := hi - 1;
      GroupFlagsExactly(outcome, recs, b);
      forall c
        ensures c in GroupFlags(outcome, recs, hi) <==> RepeatFlagged(outcome, recs, hi, c)
      {
        RepeatFlaggedSnoc(outcome, recs, hi, c);
      }
    }
  }

  /** Every conflict of one outcome's flagging is a medium redundant-path one. */
  lemma {:induction false} GroupFlagsKinds(outcome: string, recs: seq<PathRecord>, hi: nat)
    requires hi <= |recs|
    ensures forall c :: c in GroupFlags(outcome, recs, hi) ==> c.kind == RedundantPaths && c.severity == "medium"
  {
    if hi > 0 {
      GroupFlagsKinds(outcome, recs, hi - 1);
    }
  }

  /** Every conflict of the flagging pass is a medium redundant-path one. */
  lemma {:induction false} RedundantConflictsKinds(g: OutcomePaths, hi: nat)
    requires WellOrdered(g) && hi <= |g.order|
    ensures forall c :: c in RedundantConflicts(g, hi) ==> c.kind == RedundantPaths && c.severity == "medium"
  {
    if hi > 0 {
      var o := g.order[hi - 1];
      assert o in Elems(g.order);
      var flags := GroupFlags(o, g.lists[o], |g.lists[o]|);
      RedundantConflictsKinds(g, hi - 1);
      GroupFlagsKinds(o, g.lists[o], |g.lists[o]|);
      assert RedundantConflicts(g, hi) == RedundantConflicts(g, hi - 1) + flags;
    }
  }

  /** One record of the flagging pass: the conflict it adds is the one
      `GroupFlags` names, read off `condition_sets`. */
  lemma FlagStep(outcome: string, recs: seq<PathRecord>, k: nat)
    requires k < |recs|
    ensures var c := recs[k].conditions;
            var m := SigMemory(recs, k);
            GroupFlags(outcome, recs, k + 1) ==
              GroupFlags(outcome, recs, k) + (if c != "" && c in m then [RedundantConflict(outcome, recs[k].nodes + m[c])] else [])
  {
    SigMemoryFirst(recs, k);
  }

  /** The flagging pass of `_detect_redundant_paths`. */
  method FlagRedundant(g: OutcomePaths) returns (conflicts: seq<Conflict>)
    requires WellOrdered(g)
    ensures conflicts == RedundantConflicts(g, |g.order|)
  {
    conflicts := [];
    var i := 0;
    while i < |g.order|
      invariant 0 <= i <= |g.order|
      invariant conflicts == RedundantConflicts(g, i)
    {
      var outcome := g.order[i];
      assert outcome in Elems(g.order);
      var recs := g.lists[outcome];
      var conditionSets: map<string, seq<string>> := map[];
      var k := 0;
      while k < |recs|
        invariant 0 <= k <= |recs|
        invariant conditionSets == SigMemory(recs, k)
        invariant conflicts == RedundantConflicts(g, i) + GroupFlags(outcome, recs, k)
      {
        FlagStep(outcome, recs, k);
        var cond := recs[k].conditions;
        if cond != "" && cond in conditionSets {
          conflicts := conflicts + [RedundantConflict(outcome, recs[k].nodes + conditionSets[cond])];
        } else if cond != "" {
          conditionSets := conditionSets[cond := recs[k].nodes];
        }
        k := k + 1;
      }
      i := i + 1;
    }
  }

  /** The redundant conflicts `_detect_redundant_paths` may report: the
      flags of some well-ordered grouping of recorded paths. */
  ghost predicate RedundantOf(tree: Tree, cs: seq<Conflict>)
  {
    exists g :: WellOrdered(g) && AllRecorded(NodesOf(tree), g) && cs == RedundantConflicts(g, |g.order|)
  }

  /** `_detect_redundant_paths`: the flagging pass over the records the
      collection gathered. */
  method DetectRedundantPaths(tree: Tree) returns (conflicts: seq<Conflict>)
    ensures RedundantOf(tree, conflicts)
    ensures NodesOf(tree).Listed? ==> conflicts == []
    ensures forall c :: c in conflicts ==> c.kind == RedundantPaths && c.severity == "medium"
  {
    var g := CollectOutcomePaths(tree);
    conflicts := FlagRedundant(g);
    RedundantConflictsKinds(g, |g.order|);
  }

  // =====================================================================
  // _evaluate_condition and _evaluate_node_connections

  const TrueWords: seq<string> := ["yes", "true", "approved"]
  const FalseWords: seq<string> := ["no", "false", "denied"]

  /** `_evaluate_condition`: the boolean labels decide by their lower-case
      form; any other text goes to the numeric comparison `numeric` (the
      regular-expression and floating-point branch, given as a parameter),
      and counts as met when that cannot decide. */
  function EvaluateCondition(condition: string, numeric: string -> Option<bool>): (r: bool)
    ensures Lower(condition) in TrueWords ==> r
    ensures Lower(condition) in FalseWords ==> !r
    ensures Lower(condition) !in TrueWords && Lower(condition) !in FalseWords ==>
              (r <==> numeric(condition) != Some(false))
  {
    var l := Lower(condition);
    if l in TrueWords then true
    else if l in FalseWords then false
    else if numeric(condition).Some? then numeric(condition).value
    else true
  }

  /** Two spellings of one boolean label, differing only in case, evaluate
      alike whatever the inputs. */
  lemma BooleanLabelsCaseless(c1: string, c2: string, n1: string -> Option<bool>, n2: string -> Option<bool>)
    requires Lower(c1) == Lower(c2)
    requires Lower(c1) in TrueWords || Lower(c1) in FalseWords
    ensures EvaluateCondition(c1, n1) == EvaluateCondition(c2, n2)
  {
    assert TrueWords[0] != FalseWords[0] && TrueWords[1] != FalseWords[1];
  }

  /** A record's next-node key: `conn.get('to') or conn.get('target_node_id')`. */
  function RecNext(r: Rec): Target
  {
    if Truthy(r.to) then Id(r.to.value) else ToTarget(r.targetNodeId)
  }

  /** The first labelled target whose label evaluates true. */
  function FirstLabelled(l: seq<(string, Target)>, numeric: string -> Option<bool>): (r: Target)
    ensures r != Null ==> exists i :: 0 <= i < |l| && EvaluateCondition(l[i].0, numeric) && l[i].1 == r
                                      && forall j :: 0 <= j < i ==> !EvaluateCondition(l[j].0, numeric)
    ensures (forall i :: 0 <= i < |l| ==> !EvaluateCondition(l[i].0, numeric)) ==> r == Null
  {
    if l == [] then Null
    else if EvaluateCondition(l[0].0, numeric) then l[0].1
    else
      var r := FirstLabelled(l[1..], numeric);
      if r != Null then
        var i :| 0 <= i < |l[1..]| && EvaluateCondition(l[1..][i].0, numeric) && l[1..][i].1 == r
                 && forall j :: 0 <= j < i ==> !EvaluateCondition(l[1..][j].0, numeric);
        assert l[i + 1] == l[1..][i];
        assert forall j :: 1 <= j < i + 1 ==> l[j] == l[1..][j - 1];
        r
      else r
  }

  /** A record's condition evaluates true. */
  predicate Fires(rec: Rec, numeric: string -> Option<bool>)
  {
    EvaluateCondition(OrEmpty(rec.condition), numeric)
  }

  /** The first firing record behind a non-firing head is the first firing
      record of the whole list. */
  lemma FirstFiringShift(rs: seq<Rec>, numeric: string -> Option<bool>, r: Target)
    requires rs != [] && !Fires(rs[0], numeric)
    requires exists i :: 0 <= i < |rs[1..]| && Fires(rs[1..][i], numeric) && RecNext(rs[1..][i]) == r
                         && forall j :: 0 <= j < i ==> !Fires(rs[1..][j], numeric)
    ensures exists i :: 0 <= i < |rs| && Fires(rs[i], numeric) && RecNext(rs[i]) == r
                        && forall j :: 0 <= j < i ==> !Fires(rs[j], numeric)
  {
    var i :| 0 <= i < |rs[1..]| && Fires(rs[1..][i], numeric) && RecNext(rs[1..][i]) == r
             && forall j :: 0 <= j < i ==> !Fires(rs[1..][j], numeric);
    assert rs[i + 1] == rs[1..][i];
    assert forall j :: 1 <= j < i + 1 ==> rs[j] == rs[1..][j - 1];
  }

  /** The next-node key of the first record whose condition evaluates
      true. */
  function FirstRecord(rs: seq<Rec>, numeric: string -> Option<bool>): (r: Target)
    ensures r != Null ==> exists i :: 0 <= i < |rs| && Fires(rs[i], numeric) && RecNext(rs[i]) == r
                                      && forall j :: 0 <= j < i ==> !Fires(rs[j], numeric)
    ensures (forall i :: 0 <= i < |rs| ==> !Fires(rs[i], numeric)) ==> r == Null
  {
    if rs == [] then Null
    else if Fires(rs[0], numeric) then RecNext(rs[0])
    else
      var r := FirstRecord(rs[1..], numeric);
      if r != Null then
        FirstFiringShift(rs, numeric, r);
        r
      else
        assert forall i :: 1 <= i < |rs| ==> rs[i] == rs[1..][i - 1];
        r
  }

  function OrEmpty(s: Option<string>): string
  {
    if s.Some? then s.value else ""
  }

  /** `_evaluate_node_connections`: the target of the first connection
      whose condition holds, None (here `Null`) when none does. */
  function EvaluateNodeConnections(n: Node, numeric: string -> Option<bool>): Target
  {
    match ConnsOf(n)
    case DictConns(l) => FirstLabelled(l, numeric)
    case ListConns(rs) => FirstRecord(rs, numeric)
  }

  // =====================================================================
  // _traverse_tree

  /** The walk stops at an outcome node or at any node with a decision. */
  predicate Terminal(n: Node)
  {
    n.kind == Some("outcome") || n.decision.Some?
  }

  /** The ids under which the walk can find a node: the keys of a
      dictionary, the `id`s of a list. */
  function FindableIds(nodes: Nodes): set<string>
  {
    match nodes
    case Keyed(es) => Keys(es)
    case Listed(ns) => set i | 0 <= i < |ns| && ns[i].id.Some? :: ns[i].id.value
  }

  /** No more ids can be found than there are nodes. */
  lemma FindableIdsCard(nodes: Nodes)
    ensures |FindableIds(nodes)| <= Size(nodes)
  {
    match nodes
    case Keyed(es) =>
      var ks := seq(|es|, i requires 0 <= i < |es| => es[i].0);
      assert Keys(es) == Elems(ks) by {
        forall k | k in Keys(es) ensures k in Elems(ks) {
          var i :| 0 <= i < |es| && es[i].0 == k;
          assert ks[i] == k;
        }
      }
      ElemsCard(ks);
    case Listed(ns) =>
      var ks := seq(|ns|, i requires 0 <= i < |ns| => IdText(ns[i]));
      assert FindableIds(nodes) <= Elems(ks) by {
        forall k | k in FindableIds(nodes) ensures k in Elems(ks) {
          var i :| 0 <= i < |ns| && ns[i].id.Some? && ns[i].id.value == k;
          assert ks[i] == k;
        }
      }
      SubsetCard(FindableIds(nodes), Elems(ks));
      ElemsCard(ks);
  }

  /** A node the walk finds under `s` lies in the node collection, and `s`
      is one of its findable ids. */
  lemma FoundFindable(nodes: Nodes, s: string)
    requires FindNodeById(nodes, Id(s)).Ok? && FindNodeById(nodes, Id(s)).value.Some?
    ensures s in FindableIds(nodes)
  {
    if nodes.Listed? {
      var i :| 0 <= i < |nodes.items| && IdMatches(nodes.items[i], Id(s));
    }
  }

  /** The candidate start ids: keys, or the `id`s of a list. */
  function AllNodeIds(nodes: Nodes): set<Option<string>>
  {
    match nodes
    case Keyed(es) => set i | 0 <= i < |es| :: Some(es[i].0)
    case Listed(ns) => set i | 0 <= i < |ns| :: ns[i].id
  }

  /** The start ids `_traverse_tree` may settle on when finding them does
      not raise: a truthy `metadata.start_node_id`; otherwise some node id
      that no connection references (which one is the set's iteration
      order, so any is allowed here); otherwise the first node's id, or
      None for no nodes. */
  ghost predicate StartOf(tree: Tree, start: Option<string>)
  {
    if Truthy(tree.startNodeId) then start == tree.startNodeId
    else
      && ReferencedIds(Values(NodesOf(tree))).Ok?
      && var potential := AllNodeIds(NodesOf(tree)) - ReferencedIds(Values(NodesOf(tree))).value;
         && (potential != {} ==> start in potential)
         && (potential == {} && Values(NodesOf(tree)) == [] ==> start.None?)
         && (potential == {} && NodesOf(tree).Keyed? && NodesOf(tree).entries != [] ==>
               start == Some(NodesOf(tree).entries[0].0))
         && (potential == {} && NodesOf(tree).Listed? && NodesOf(tree).items != [] ==>
               start == NodesOf(tree).items[0].id)
  }

  /** The start-node search of `_traverse_tree`: one of the starts
      `StartOf` allows, or the `TypeError` of collecting references. */
  method FindStart(tree: Tree) returns (r: Result<Option<string>>)
    ensures r.Err? <==> !Truthy(tree.startNodeId) && ReferencedIds(Values(NodesOf(tree))).Err?
    ensures r.Err? ==> r.error == TypeError
    ensures r.Ok? ==> StartOf(tree, r.value)
  {
    if Truthy(tree.startNodeId) {
      return Ok(tree.startNodeId);
    }
    var nodes := NodesOf(tree);
    var referenced := CollectReferenced(Values(nodes));
    if referenced.Err? {
      return Err(referenced.error);
    }
    var potential := AllNodeIds(nodes) - referenced.value;
    if potential != {} {
      var s :| s in potential;
      return Ok(s);
    }
    if nodes.Keyed? && nodes.entries != [] {
      return Ok(Some(nodes.entries[0].0));
    }
    if nodes.Listed? && nodes.items != [] {
      return Ok(nodes.items[0].id);
    }
    return Ok(None);
  }

  /** Each node of the walk is the one the previous node's first holding
      connection names. */
  ghost predicate Linked(nodes: Nodes, numeric: string -> Option<bool>, path: seq<Node>)
  {
    forall k :: 0 <= k < |path| - 1 ==>
      FindNodeById(nodes, EvaluateNodeConnections(path[k], numeric)) == Ok(Some(path[k + 1]))
  }

  /** Each node after the first is the one `find` returns for the id
      `next` chooses at the node before it. */
  ghost predicate Chain(find: string -> Option<Node>, next: Node -> Target, path: seq<Node>)
  {
    forall k :: 0 <= k < |path| - 1 ==> next(path[k]).Id? && find(next(path[k]).id) == Some(path[k + 1])
  }

  /** The id under which the walk from `s` enters `path[k]`: `s` itself,
      then the id the node before chooses. */
  function EnteredAt(s: string, next: Node -> Target, path: seq<Node>, k: nat): string
    requires k < |path|
  {
    if k == 0 then s
    else if next(path[k - 1]).Id? then next(path[k - 1]).id
    else ""
  }

  /** The ids entered along `path`: the walk's `visited`. */
  function Entered(s: string, next: Node -> Target, path: seq<Node>): set<string>
  {
    set k | 0 <= k < |path| :: EnteredAt(s, next, path, k)
  }

  /** `path` is walked from `s`: every node is found under a non-empty id
      entered for the first time, and every node before the last is not
      terminal and chooses an id. */
  ghost predicate Walked(find: string -> Option<Node>, next: Node -> Target, s: string, path: seq<Node>)
  {
    && path != []
    && (forall k {:trigger EnteredAt(s, next, path, k)} :: 0 <= k < |path| ==>
          EnteredAt(s, next, path, k) != "" && find(EnteredAt(s, next, path, k)) == Some(path[k]))
    && (forall k :: 0 <= k < |path| - 1 ==> !Terminal(path[k]) && next(path[k]).Id?)
    && (forall j, k {:trigger EnteredAt(s, next, path, j), EnteredAt(s, next, path, k)} :: 0 <= j < k < |path| ==>
          EnteredAt(s, next, path, j) != EnteredAt(s, next, path, k))
  }

  /** The walk stops after `path`: with no node, because the start id is
      empty or not found; otherwise because the last node is terminal,
      chooses nothing (None or an empty id), or chooses an id that was
      entered already or that is not found. */
  ghost predicate Halted(find: string -> Option<Node>, next: Node -> Target, s: string, path: seq<Node>)
  {
    if path == [] then s == "" || find(s).None?
    else
      var choice := next(path[|path| - 1]);
      || Terminal(path[|path| - 1])
      || choice.Null?
      || (choice.Id? && (choice.id == "" || choice.id in Entered(s, next, path) || find(choice.id).None?))
  }

  /** The walk raises after `path`: the last node is not terminal and
      chooses a dictionary, which cannot be hashed. */
  ghost predicate Stuck(find: string -> Option<Node>, next: Node -> Target, s: string, path: seq<Node>)
  {
    Walked(find, next, s, path) && !Terminal(path[|path| - 1]) && next(path[|path| - 1]).Obj?
  }

  /** What the walk from `s` returns: the path walked up to where it
      halts, or the `TypeError` of a path it gets stuck on. */
  ghost predicate WalkResult(find: string -> Option<Node>, next: Node -> Target, s: string, r: Result<seq<Node>>)
  {
    match r
    case Ok(path) => (path == [] || Walked(find, next, s, path)) && Halted(find, next, s, path)
    case Err(e) => e == TypeError && exists path :: Stuck(find, next, s, path)
  }

  lemma EnteredAtSnoc(s: string, next: Node -> Target, path: seq<Node>, node: Node, k: nat)
    requires k < |path|
    ensures EnteredAt(s, next, path + [node], k) == EnteredAt(s, next, path, k)
  {
    if k > 0 {
      assert (path + [node])[k - 1] == path[k - 1];
    }
  }

  /** Appending a node keeps the ids the earlier nodes were entered
      under, and enters the new one under the id the last node chose. */
  lemma EnteredAtAll(s: string, next: Node -> Target, path: seq<Node>, node: Node)
    ensures forall k :: 0 <= k < |path| ==> EnteredAt(s, next, path + [node], k) == EnteredAt(s, next, path, k)
    ensures path == [] ==> EnteredAt(s, next, path + [node], 0) == s
    ensures path != [] && next(path[|path| - 1]).Id? ==>
              EnteredAt(s, next, path + [node], |path|) == next(path[|path| - 1]).id
  {
    forall k | 0 <= k < |path|
      ensures EnteredAt(s, next, path + [node], k) == EnteredAt(s, next, path, k)
    {
      EnteredAtSnoc(s, next, path, node, k);
    }
  }

  /** The ids entered grow by the one the new node is entered under. */
  lemma EnteredSnoc(s: string, next: Node -> Target, path: seq<Node>, node: Node)
    ensures Entered(s, next, path + [node]) == Entered(s, next, path) + {EnteredAt(s, next, path + [node], |path|)}
  {
    var p := path + [node];
    EnteredAtAll(s, next, path, node);
    forall x | x in Entered(s, next, p)
      ensures x in Entered(s, next, path) + {EnteredAt(s, next, p, |path|)}
    {
      var k :| 0 <= k < |p| && EnteredAt(s, next, p, k) == x;
      if k < |path| {
        assert EnteredAt(s, next, path, k) in Entered(s, next, path);
      }
    }
    forall x | x in Entered(s, next, path)
      ensures x in Entered(s, next, p)
    {
      var k :| 0 <= k < |path| && EnteredAt(s, next, path, k) == x;
      assert EnteredAt(s, next, p, k) == x;
    }
    assert EnteredAt(s, next, p, |path|) in Entered(s, next, p);
  }

  /** One more node entered under a fresh id. */
  lemma WalkedSnoc(find: string -> Option<Node>, next: Node -> Target, s: string,
                   path: seq<Node>, id: string, node: Node)
    requires path == [] ==> id == s
    requires path != [] ==> && Walked(find, next, s, path) && !Terminal(path[|path| - 1])
                            && next(path[|path| - 1]) == Id(id)
    requires id != "" && id !in Entered(s, next, path) && find(id) == Some(node)
    ensures Walked(find, next, s, path + [node])
  {
    var p := path + [node];
    forall k | 0 <= k < |p| - 1
      ensures !Terminal(p[k]) && next(p[k]).Id?
    {
      assert p[k] == path[k];
      if k < |path| - 1 {
        assert !Terminal(path[k]) && next(path[k]).Id?;
      }
    }
    EnteredAtAll(s, next, path, node);
    forall k | 0 <= k < |p|
      ensures EnteredAt(s, next, p, k) != "" && find(EnteredAt(s, next, p, k)) == Some(p[k])
    {
      if k < |path| {
        assert p[k] == path[k];
      }
    }
    forall j, k | 0 <= j < k < |p|
      ensures EnteredAt(s, next, p, j) != EnteredAt(s, next, p, k)
    {
      if k == |path| {
        assert EnteredAt(s, next, path, j) in Entered(s, next, path);
      }
    }
  }

  /** A walked path is linked by `find` and `next`, starts at the start
      node and has no terminal node before its last. */
  lemma WalkedChain(find: string -> Option<Node>, next: Node -> Target, s: string, path: seq<Node>)
    requires Walked(find, next, s, path)
    ensures Chain(find, next, path)
    ensures find(s) == Some(path[0])
    ensures forall k :: 0 <= k < |path| - 1 ==> !Terminal(path[k])
  {
    assert EnteredAt(s, next, path, 0) == s;
    forall k | 0 <= k < |path| - 1
      ensures next(path[k]).Id? && find(next(path[k]).id) == Some(path[k + 1])
    {
      assert EnteredAt(s, next, path, k + 1) == next(path[k]).id;
    }
  }

  /** Two walked paths agree wherever both are defined. */
  lemma {:induction false} WalkedAgree(find: string -> Option<Node>, next: Node -> Target, s: string,
                                       p: seq<Node>, q: seq<Node>, k: nat)
    requires Walked(find, next, s, p) && Walked(find, next, s, q)
    requires k < |p| && k < |q|
    ensures p[k] == q[k]
    ensures EnteredAt(s, next, p, k) == EnteredAt(s, next, q, k)
  {
    if k > 0 {
      WalkedAgree(find, next, s, p, q, k - 1);
    }
    assert find(EnteredAt(s, next, p, k)) == Some(p[k]);
    assert find(EnteredAt(s, next, q, k)) == Some(q[k]);
  }

  /** The walk does not stop at any proper prefix of a walked path. */
  lemma NotHaltedBefore(find: string -> Option<Node>, next: Node -> Target, s: string, q: seq<Node>, n: nat)
    requires Walked(find, next, s, q) && n < |q|
    ensures !Halted(find, next, s, q[..n])
    ensures n > 0 ==> !Stuck(find, next, s, q[..n])
  {
    var p := q[..n];
    assert EnteredAt(s, next, q, 0) == s;
    if n > 0 {
      var last := p[n - 1];
      assert last == q[n - 1];
      assert EnteredAt(s, next, q, n) == next(last).id;
      forall j | 0 <= j < n
        ensures EnteredAt(s, next, p, j) == EnteredAt(s, next, q, j)
      {
        if j > 0 {
          assert p[j - 1] == q[j - 1];
        }
      }
    }
  }

  /** A walked path is the prefix of any longer walked path. */
  lemma WalkedPrefix(find: string -> Option<Node>, next: Node -> Target, s: string, p: seq<Node>, q: seq<Node>)
    requires Walked(find, next, s, p) && Walked(find, next, s, q) && |p| <= |q|
    ensures p == q[..|p|]
  {
    forall k | 0 <= k < |p|
      ensures p[k] == q[k]
    {
      WalkedAgree(find, next, s, p, q, k);
    }
  }

  /** The walk's result is determined: no prefix or extension of the path
      the walk takes satisfies `WalkResult`. */
  lemma WalkResultUnique(find: string -> Option<Node>, next: Node -> Target, s: string,
                         r1: Result<seq<Node>>, r2: Result<seq<Node>>)
    requires WalkResult(find, next, s, r1) && WalkResult(find, next, s, r2)
    ensures r1 == r2
  {
    if r1.Ok? && r2.Ok? {
      OkUnique(find, next, s, r1.value, r2.value);
    } else if r1.Ok? {
      var q :| Stuck(find, next, s, q);
      StuckNotHalted(find, next, s, r1.value, q);
    } else if r2.Ok? {
      var q :| Stuck(find, next, s, q);
      StuckNotHalted(find, next, s, r2.value, q);
    }
  }

  /** The path of a walk that halts is unique. */
  lemma OkUnique(find: string -> Option<Node>, next: Node -> Target, s: string, p: seq<Node>, q: seq<Node>)
    requires p == [] || Walked(find, next, s, p)
    requires q == [] || Walked(find, next, s, q)
    requires Halted(find, next, s, p) && Halted(find, next, s, q)
    ensures p == q
  {
    if |p| < |q| {
      ShorterNotHalted(find, next, s, p, q);
    } else if |q| < |p| {
      ShorterNotHalted(find, next, s, q, p);
    } else if p != [] {
      WalkedPrefix(find, next, s, p, q);
      assert q[..|p|] == q;
    }
  }

  /** A walk does not halt on a proper prefix of a walked path. */
  lemma ShorterNotHalted(find: string -> Option<Node>, next: Node -> Target, s: string, p: seq<Node>, q: seq<Node>)
    requires p == [] || Walked(find, next, s, p)
    requires Walked(find, next, s, q) && |p| < |q|
    ensures !Halted(find, next, s, p)
    ensures p != [] ==> !Stuck(find, next, s, p)
  {
    if p != [] {
      WalkedPrefix(find, next, s, p, q);
    }
    assert q[..|p|] == p;
    NotHaltedBefore(find, next, s, q, |p|);
  }

  /** A walk that gets stuck on `q` halts on no path. */
  lemma StuckNotHalted(find: string -> Option<Node>, next: Node -> Target, s: string, p: seq<Node>, q: seq<Node>)
    requires p == [] || Walked(find, next, s, p)
    requires Stuck(find, next, s, q)
    ensures !Halted(find, next, s, p)
  {
    if |p| < |q| {
      ShorterNotHalted(find, next, s, p, q);
    } else if |q| < |p| {
      ShorterNotHalted(find, next, s, q, p);
    } else {
      WalkedPrefix(find, next, s, p, q);
      assert q[..|p|] == q;
    }
  }

  /** The loop state of the walk: `path` walked so far, `current` the id
      to enter next, `visited` the ids entered. */
  ghost predicate WalkLoop(find: string -> Option<Node>, next: Node -> Target, s: string, ids: set<string>,
                           current: Target, visited: set<string>, path: seq<Node>)
  {
    && visited <= ids
    && |path| == |visited|
    && (path == [] ==> current == Id(s) && visited == {})
    && (path != [] ==>
          && Walked(find, next, s, path) && !Terminal(path[|path| - 1])
          && current == next(path[|path| - 1]) && !current.Obj?
          && visited == Entered(s, next, path))
  }

  /** The walk halts where the loop leaves without entering a node: no
      id to enter, an id entered before, or an id not found. */
  lemma WalkLoopHalts(find: string -> Option<Node>, next: Node -> Target, s: string, ids: set<string>,
                      current: Target, visited: set<string>, path: seq<Node>)
    requires WalkLoop(find, next, s, ids, current, visited, path)
    requires !(current.Id? && current.id != "") || current.id in visited || find(current.id).None?
    ensures WalkResult(find, next, s, Ok(path)) && |path| <= |ids|
  {
    SubsetCard(visited, ids);
  }

  /** Entering a found node under a fresh id: the path stays walked, and
      the walk halts on it, raises, or goes on from its choice. */
  lemma WalkLoopEnters(find: string -> Option<Node>, next: Node -> Target, s: string, ids: set<string>,
                       current: Target, visited: set<string>, path: seq<Node>, node: Node)
    requires forall id :: find(id).Some? ==> id in ids
    requires WalkLoop(find, next, s, ids, current, visited, path)
    requires current.Id? && current.id != "" && current.id !in visited && find(current.id) == Some(node)
    ensures |visited + {current.id}| == |path| + 1 <= |ids|
    ensures Terminal(node) ==> WalkResult(find, next, s, Ok(path + [node]))
    ensures !Terminal(node) && next(node).Obj? ==> Stuck(find, next, s, path + [node])
    ensures !Terminal(node) && !next(node).Obj? ==>
              WalkLoop(find, next, s, ids, next(node), visited + {current.id}, path + [node])
  {
    WalkedSnoc(find, next, s, path, current.id, node);
    EnteredSnoc(s, next, path, node);
    EnteredAtAll(s, next, path, node);
    SubsetCard(visited + {current.id}, ids);
  }

  /** The loop of `_traverse_tree` over a node lookup `find` (whose hits
      all lie in `ids`) and a connection choice `next`: enter an id at most
      once, stop after the first terminal node, at a missing node or when
      no connection holds; a dictionary-valued choice raises
      (unhashable). */
  method Walk(find: string -> Option<Node>, next: Node -> Target, s: string, ids: set<string>) returns (r: Result<seq<Node>>)
    requires forall id :: find(id).Some? ==> id in ids
    ensures WalkResult(find, next, s, r)
    ensures r.Ok? ==> |r.value| <= |ids|
    ensures ids == {} ==> r == Ok([])
  {
    var current := Id(s);
    var visited: set<string> := {};
    var path: seq<Node> := [];
    while current.Id? && current.id != ""
      invariant WalkLoop(find, next, s, ids, current, visited, path)
      decreases |ids| - |visited|
    {
      var id := current.id;
      if id in visited {
        WalkLoopHalts(find, next, s, ids, current, visited, path);
        break;
      }
      var found := find(id);
      if found.None? {
        WalkLoopHalts(find, next, s, ids, current, visited, path);
        break;
      }
      var node := found.value;
      WalkLoopEnters(find, next, s, ids, current, visited, path, node);
      visited := visited + {id};
      path := path + [node];
      if Terminal(node) {
        break;
      }
      var choice := next(node);
      if choice.Obj? {
        return Err(TypeError);
      }
      current := choice;
    }
    if !(current.Id? && current.id != "") {
      WalkLoopHalts(find, next, s, ids, current, visited, path);
    }
    return Ok(path);
  }

  /** The node lookup the walk uses: `_find_node_by_id` on a string id,
      which never raises. */
  function Finder(nodes: Nodes): string -> Option<Node>
  {
    id => if FindNodeById(nodes, Id(id)).Ok? then FindNodeById(nodes, Id(id)).value else None
  }

  /** The connection choice the walk uses. */
  function Chooser(numeric: string -> Option<bool>): Node -> Target
  {
    n => EvaluateNodeConnections(n, numeric)
  }

  /** The walk from `s` over the graph's own lookup and choice. */
  method WalkFrom(nodes: Nodes, s: string, numeric: string -> Option<bool>) returns (r: Result<seq<Node>>)
    ensures WalkResult(Finder(nodes), Chooser(numeric), s, r)
    ensures r.Ok? ==> |r.value| <= Size(nodes)
    ensures r.Ok? ==> forall k :: 0 <= k < |r.value| ==> r.value[k] in Values(nodes)
    ensures r.Ok? ==> Linked(nodes, numeric, r.value)
    ensures Values(nodes) == [] ==> r == Ok([])
  {
    var find := Finder(nodes);
    forall id | find(id).Some? ensures id in FindableIds(nodes) {
      FoundFindable(nodes, id);
    }
    FindableIdsCard(nodes);
    r := Walk(find, Chooser(numeric), s, FindableIds(nodes));
    if r.Ok? && r.value != [] {
      WalkedChain(find, Chooser(numeric), s, r.value);
      forall k | 0 <= k < |r.value| ensures r.value[k] in Values(nodes) {
        assert find(EnteredAt(s, Chooser(numeric), r.value, k)) == Some(r.value[k]);
      }
    }
  }

  /** What `_traverse_tree` returns under the condition test `numeric`:
      the `TypeError` of collecting the references when there is no
      start id; otherwise, for one of the allowed start ids, the walk
      from it when it is truthy and the empty path when not. */
  ghost predicate TraversalOf(tree: Tree, numeric: string -> Option<bool>, r: Result<seq<Node>>)
  {
    if !Truthy(tree.startNodeId) && ReferencedIds(Values(NodesOf(tree))).Err? then r == Err(TypeError)
    else
      exists start :: StartOf(tree, start) &&
        if Truthy(start) then WalkResult(Finder(NodesOf(tree)), Chooser(numeric), start.value, r)
        else r == Ok([])
  }

  /** `_traverse_tree`: find the start node, then walk from it; no start
      id means an empty path. */
  method TraverseTreeWalk(tree: Tree, numeric: string -> Option<bool>) returns (r: Result<seq<Node>>)
    ensures TraversalOf(tree, numeric, r)
    ensures r.Err? ==> r.error == TypeError
    ensures r.Ok? ==> |r.value| <= Size(NodesOf(tree))
    ensures r.Ok? ==> forall k :: 0 <= k < |r.value| ==> r.value[k] in Values(NodesOf(tree))
    ensures r.Ok? ==> Linked(NodesOf(tree), numeric, r.value)
    ensures Values(NodesOf(tree)) == [] ==> r == Ok([])
  {
    var start := FindStart(tree);
    if start.Err? {
      return Err(start.error);
    }
    if !Truthy(start.value) {
      r := Ok([]);
      assert StartOf(tree, start.value);
      return;
    }
    r := WalkFrom(NodesOf(tree), start.value.value, numeric);
    assert StartOf(tree, start.value);
  }

  // =====================================================================
  // _test_edge_cases and _analyze_test_results

  /** One scenario's result: its description, the nodes walked, the
      outcome text. */
  datatype TestResult = TestResult(scenario: string, path: seq<Node>, outcome: string)

  const NoOutcome: string := "No outcome reached"

  /** The outcome text `_test_edge_cases` derives from a walked path:
      "No outcome reached" for an empty path, the decision of a final
      outcome node, otherwise a note naming the kind the walk stopped at. */
  function ScenarioOutcome(path: seq<Node>): (r: string)
    ensures path == [] ==> r == NoOutcome
    ensures path != [] && path[|path| - 1].kind == Some("outcome") && path[|path| - 1].decision.Some? ==>
              r == path[|path| - 1].decision.value
    ensures path != [] && path[|path| - 1].kind != Some("outcome") ==>
              IsPrefix("Incomplete path - ended at ", r) && IsSuffix(" node", r)
  {
    if path == [] then NoOutcome
    else
      var last := path[|path| - 1];
      if last.kind == Some("outcome") then OrDefault(last.decision, "Unknown outcome")
      else
        var r := "Incomplete path - ended at " + OrDefault(last.kind, "unknown") + " node";
        assert r[..|"Incomplete path - ended at "|] == "Incomplete path - ended at ";
        assert r[|r| - |" node"|..] == " node";
        r
  }

  function OrDefault(s: Option<string>, d: string): string
  {
    if s.Some? then s.value else d
  }

  /** The scenarios that reached no outcome, by description. */
  function NoOutcomeScenarios(results: seq<TestResult>): (r: seq<string>)
    ensures |r| <= |results|
    ensures r == [] <==> forall i :: 0 <= i < |results| ==> results[i].outcome != NoOutcome
  {
    if results == [] then []
    else
      var n := |results| - 1;
      NoOutcomeScenarios(results[..n]) + (if results[n].outcome == NoOutcome then [results[n].scenario] else [])
  }

  /** The outcomes that were reached, in order. */
  function ReachedOutcomes(results: seq<TestResult>): (r: seq<string>)
    ensures |r| <= |results|
    ensures NoOutcome !in r
  {
    if results == [] then []
    else
      var n := |results| - 1;
      var prev := ReachedOutcomes(results[..n]);
      prev + (if results[n].outcome != NoOutcome then [results[n].outcome] else [])
  }

  /** The number of reached outcomes with paths shorter than three. */
  function ShortPaths(results: seq<TestResult>): (r: nat)
    ensures r <= |results|
    ensures r == 0 <==> forall i :: 0 <= i < |results| ==> |results[i].path| >= 3 || results[i].outcome == NoOutcome
  {
    if results == [] then 0
    else
      var n := |results| - 1;
      ShortPaths(results[..n]) + (if |results[n].path| < 3 && results[n].outcome != NoOutcome then 1 else 0)
  }

  /** All reached outcomes agree and there are more than two of them. */
  predicate SameOutcome(results: seq<TestResult>)
  {
    |Elems(ReachedOutcomes(results))| == 1 && |ReachedOutcomes(results)| > 2
  }

  // The fixed text of the three suggestions.
  const NoOutcomeHead: string := "The following scenarios did not reach a clear outcome: "
  const NoOutcomeTail: string := ". Consider adding decision paths for these cases."
  const SameOutcomeHead: string := "All test scenarios lead to the same outcome: '"
  const SameOutcomeTail: string := "'. Consider if more nuanced decision criteria are needed."
  const ShortPathTail: string := " scenarios reached outcomes with very few decision points. Consider if additional criteria should be evaluated."

  /** The suggestion naming the scenarios that reached no outcome. */
  function NoOutcomeSuggestion(results: seq<TestResult>): (r: seq<string>)
    ensures |r| <= 1
    ensures r == [] <==> NoOutcomeScenarios(results) == []
  {
    var none := NoOutcomeScenarios(results);
    if none != [] then [NoOutcomeHead + Join(none, ", ") + NoOutcomeTail] else []
  }

  /** The suggestion that every scenario reached one same outcome. */
  function SameOutcomeSuggestion(results: seq<TestResult>): (r: seq<string>)
    ensures |r| <= 1
    ensures r == [] <==> !SameOutcome(results)
  {
    if SameOutcome(results) then [SameOutcomeHead + ReachedOutcomes(results)[0] + SameOutcomeTail] else []
  }

  /** The suggestion counting the reached outcomes with short paths. */
  function ShortPathSuggestion(results: seq<TestResult>): (r: seq<string>)
    ensures |r| <= 1
    ensures r == [] <==> ShortPaths(results) == 0
  {
    var short := ShortPaths(results);
    if short > 0 then [NatToString(short) + ShortPathTail] else []
  }

  /** `_analyze_test_results`: up to three suggestions, in a fixed order. */
  function AnalyzeTestResults(results: seq<TestResult>): (r: seq<string>)
    ensures |r| <= 3
    ensures r == [] <==> NoOutcomeScenarios(results) == [] && !SameOutcome(results) && ShortPaths(results) == 0
  {
    var a, b, c := NoOutcomeSuggestion(results), SameOutcomeSuggestion(results), ShortPathSuggestion(results);
    assert |a + b + c| == |a| + |b| + |c|;
    a + b + c
  }

  /** No suggestion at all exactly when every scenario reached an outcome,
      the outcomes are not all one outcome over more than two scenarios,
      and every reached outcome took at least three nodes. */
  lemma AnalyzeTestResultsEmpty(results: seq<TestResult>)
    ensures AnalyzeTestResults(results) == [] <==>
              && (forall i :: 0 <= i < |results| ==> results[i].outcome != NoOutcome)
              && !SameOutcome(results)
              && (forall i :: 0 <= i < |results| ==> |results[i].path| >= 3 || results[i].outcome == NoOutcome)
  {
  }

  /** With at most two scenarios the same-outcome suggestion can never
      appear: it needs more than two reached outcomes. */
  lemma FewScenariosNoSameOutcome(results: seq<TestResult>)
    requires |results| <= 2
    ensures !SameOutcome(results)
    ensures |AnalyzeTestResults(results)| <= 2
  {
    assert |ReachedOutcomes(results)| <= 2;
    assert SameOutcomeSuggestion(results) == [];
  }

  const ElderlyScenario: string := "Elderly patient with multiple comorbidities"
  const YoungScenario: string := "Young adult newly diagnosed"

  /** The two scenario results `_test_edge_cases` may give: the elderly
      then the young scenario, each with a path the walk may give under
      the scenario's numeric comparison and the outcome read off it. */
  ghost predicate EdgeCasesOf(tree: Tree, elderly: string -> Option<bool>, young: string -> Option<bool>,
                              results: seq<TestResult>)
  {
    && |results| == 2
    && results[0].scenario == ElderlyScenario && results[1].scenario == YoungScenario
    && TraversalOf(tree, elderly, Ok(results[0].path)) && TraversalOf(tree, young, Ok(results[1].path))
    && results[0].outcome == ScenarioOutcome(results[0].path)
    && results[1].outcome == ScenarioOutcome(results[1].path)
  }

  /** The scenario loop of `_test_edge_cases`: walk the tree once per
      scenario, the scenario's inputs entering through its numeric
      comparison `numeric`. */
  method EdgeCaseResults(tree: Tree, elderly: string -> Option<bool>, young: string -> Option<bool>) returns (r: Result<seq<TestResult>>)
    ensures r.Err? ==> r.error == TypeError
    ensures r.Err? ==> TraversalOf(tree, elderly, Err(r.error)) || TraversalOf(tree, young, Err(r.error))
    ensures r.Ok? ==> |r.value| == 2 && r.value[0].scenario == ElderlyScenario && r.value[1].scenario == YoungScenario
    ensures r.Ok? ==> TraversalOf(tree, elderly, Ok(r.value[0].path)) && TraversalOf(tree, young, Ok(r.value[1].path))
    ensures r.Ok? ==> forall i :: 0 <= i < |r.value| ==>
              && r.value[i].outcome == ScenarioOutcome(r.value[i].path)
              && |r.value[i].path| <= Size(NodesOf(tree))
  {
    var scenarios := [(ElderlyScenario, elderly), (YoungScenario, young)];
    var results: seq<TestResult> := [];
    var i := 0;
    while i < |scenarios|
      invariant 0 <= i <= |scenarios|
      invariant |results| == i
      invariant forall k :: 0 <= k < i ==> results[k].scenario == scenarios[k].0
      invariant forall k :: 0 <= k < i ==> TraversalOf(tree, scenarios[k].1, Ok(results[k].path))
      invariant forall k :: 0 <= k < i ==>
                  results[k].outcome == ScenarioOutcome(results[k].path) && |results[k].path| <= Size(NodesOf(tree))
    {
      var path := TraverseTreeWalk(tree, scenarios[i].1);
      if path.Err? {
        return Err(path.error);
      }
      results := results + [TestResult(scenarios[i].0, path.value, ScenarioOutcome(path.value))];
      i := i + 1;
    }
    return Ok(results);
  }

  // =====================================================================
  // Shape checks and salvage of issue lists

  /** An issue dictionary with both required keys (any values). */
  predicate HasIssueKeys(v: Value)
  {
    v.VDict? && HasKey(v.fields, "node_id") && HasKey(v.fields, "explanation")
  }

  /** An issue dictionary whose required keys hold strings. */
  predicate ValidIssue(v: Value)
  {
    HasIssueKeys(v) && Field(v.fields, "node_id").VStr? && Field(v.fields, "explanation").VStr?
  }

  /** `_is_valid_consistency_result`: a dictionary with an `issues` list
      of valid issue dictionaries. */
  predicate IsValidConsistencyResult(v: Value)
  {
    && v.VDict?
    && HasKey(v.fields, "issues")
    && Field(v.fields, "issues").VList?
    && forall i :: 0 <= i < |Field(v.fields, "issues").items| ==> ValidIssue(Field(v.fields, "issues").items[i])
  }

  /** The issue dictionary built from a parsed string issue. */
  function IssueOf(nodeId: string, explanation: string): (v: Value)
    ensures HasIssueKeys(v)
    ensures ValidIssue(v) && Field(v.fields, "node_id") == VStr(nodeId) && Field(v.fields, "explanation") == VStr(explanation)
  {
    var fields := [("node_id", VStr(nodeId)), ("explanation", VStr(explanation))];
    assert fields[0].0 == "node_id" && fields[1].0 == "explanation";
    VDict(fields)
  }

  /** What the salvage keeps of one item: an issue dictionary as it is; a
      string through `parse` (the regular-expression patterns of
      `_parse_string_issue`, given as a parameter); nothing else. */
  function KeptIssue(item: Value, parse: string -> Option<(string, string)>): Option<Value>
  {
    if HasIssueKeys(item) then Some(item)
    else if item.VStr? && parse(item.s).Some? then Some(IssueOf(parse(item.s).value.0, parse(item.s).value.1))
    else None
  }

  /** The kept issues of a list, in order. */
  function KeptIssues(items: seq<Value>, parse: string -> Option<(string, string)>): (r: seq<Value>)
    ensures |r| <= |items|
    ensures forall v :: v in r ==> HasIssueKeys(v)
  {
    if items == [] then []
    else
      var n := |items| - 1;
      KeptIssues(items[..n], parse) + (if KeptIssue(items[n], parse).Some? then [KeptIssue(items[n], parse).value] else [])
  }

  /** A list of issue dictionaries passes through unchanged. */
  lemma {:induction false} KeptIssuesKeepsWellFormed(items: seq<Value>, parse: string -> Option<(string, string)>)
    requires forall i :: 0 <= i < |items| ==> HasIssueKeys(items[i])
    ensures KeptIssues(items, parse) == items
  {
    if items != [] {
      KeptIssuesKeepsWellFormed(items[..|items| - 1], parse);
      assert items[..|items| - 1] + [items[|items| - 1]] == items;
    }
  }

  /** Salvaging twice keeps what salvaging once kept. */
  lemma KeptIssuesIdempotent(items: seq<Value>, parse: string -> Option<(string, string)>)
    ensures KeptIssues(KeptIssues(items, parse), parse) == KeptIssues(items, parse)
  {
    var r := KeptIssues(items, parse);
    assert forall i :: 0 <= i < |r| ==> r[i] in r;
    KeptIssuesKeepsWellFormed(r, parse);
  }

  /** The loop shared by `_salvage_consistency_result` and
      `_validate_issues_format`. */
  method KeepIssues(items: seq<Value>, parse: string -> Option<(string, string)>) returns (kept: seq<Value>)
    ensures kept == KeptIssues(items, parse)
  {
    kept := [];
    var i := 0;
    while i < |items|
      invariant 0 <= i <= |items|
      invariant kept == KeptIssues(items[..i], parse)
    {
      assert items[..i + 1][..i] == items[..i];
      var item := items[i];
      if HasIssueKeys(item) {
        kept := kept + [item];
      } else if item.VStr? {
        var parsed := parse(item.s);
        if parsed.Some? {
          kept := kept + [IssueOf(parsed.value.0, parsed.value.1)];
        }
      }
      i := i + 1;
    }
    assert items[..i] == items;
  }

  /** `_salvage_consistency_result`: `{"issues": kept}` where `kept` are
      the salvageable items of the result's `issues` list, if it has one. */
  method SalvageConsistencyResult(v: Value, parse: string -> Option<(string, string)>) returns (r: Value)
    ensures v.VDict? && HasKey(v.fields, "issues") && Field(v.fields, "issues").VList? ==>
              r == VDict([("issues", VList(KeptIssues(Field(v.fields, "issues").items, parse)))])
    ensures !(v.VDict? && HasKey(v.fields, "issues") && Field(v.fields, "issues").VList?) ==>
              r == VDict([("issues", VList([]))])
  {
    var kept: seq<Value> := [];
    if v.VDict? && HasKey(v.fields, "issues") {
      var issues := Field(v.fields, "issues");
      if issues.VList? {
        kept := KeepIssues(issues.items, parse);
      }
    }
    r := VDict([("issues", VList(kept))]);
  }

  /** A result that passes the shape check survives salvage with its
      issues intact. */
  lemma ValidResultSurvivesSalvage(v: Value, parse: string -> Option<(string, string)>)
    requires IsValidConsistencyResult(v)
    ensures KeptIssues(Field(v.fields, "issues").items, parse) == Field(v.fields, "issues").items
  {
    KeptIssuesKeepsWellFormed(Field(v.fields, "issues").items, parse);
  }

  /** `_validate_issues_format` over the issues of a parsed response. */
  method ValidateIssuesFormat(issues: seq<Value>, parse: string -> Option<(string, string)>) returns (validated: seq<Value>)
    ensures validated == KeptIssues(issues, parse)
  {
    validated := KeepIssues(issues, parse);
  }

  // =====================================================================
  // validate

  /** The result dictionary of `validate`. */
  datatype ValidationReport = ValidationReport(isValid: bool, issues: seq<Value>, suggestions: seq<string>, conflicts: seq<Conflict>)

  /** The two middle detectors' conflicts: the circular ones, then the
      redundant ones. */
  ghost predicate MiddleOf(tree: Tree, m: seq<Conflict>)
  {
    exists k :: 0 <= k <= |m| && CircularOf(tree, m[..k]) && RedundantOf(tree, m[k..])
  }

  /** The conflicts of the four detectors of `validate`, concatenated in
      their order. */
  ghost predicate RuleConflictsOf(tree: Tree, cs: seq<Conflict>)
  {
    var ds := Decisions(Values(NodesOf(tree)));
    exists m :: MiddleOf(tree, m) &&
      cs == Contradictions(OutcomesIn(NodesOf(tree)), Values(NodesOf(tree)), |Values(NodesOf(tree))|)
            + m + Rows(ds, ConditionsOverlap, |ds|)
  }

  /** A dictionary of nodes with a cycle always yields a circular conflict
      naming one of its cycles among the rule-based conflicts. */
  lemma CycleReported(tree: Tree, cs: seq<Conflict>)
    requires RuleConflictsOf(tree, cs)
    requires tree.nodes.Some? && tree.nodes.value.Keyed?
    requires exists c :: IsCycle(tree.nodes.value.entries, c)
    ensures exists c :: c in cs && c.kind == CircularDependency && IsCycle(tree.nodes.value.entries, c.nodes)
  {
    var ds := Decisions(Values(NodesOf(tree)));
    var m :| MiddleOf(tree, m) &&
      cs == Contradictions(OutcomesIn(NodesOf(tree)), Values(NodesOf(tree)), |Values(NodesOf(tree))|)
            + m + Rows(ds, ConditionsOverlap, |ds|);
    var k :| 0 <= k <= |m| && CircularOf(tree, m[..k]) && RedundantOf(tree, m[k..]);
    CircularOfCycles(tree, m[..k]);
    assert m[..k][0] in m[..k] && m[..k][0] in cs;
  }

  /** The rule-based part of `validate`: the four detectors in order,
      their conflicts concatenated; an exception from the contradiction or
      the overlap scan propagates. */
  method RuleConflicts(tree: Tree) returns (r: Result<seq<Conflict>>)
    ensures r.Ok? <==> ContradictionScanOk(OutcomesIn(NodesOf(tree)), Values(NodesOf(tree)))
                       && OverlapScanOk(Decisions(Values(NodesOf(tree))), ConditionsOverlap)
    ensures r.Ok? ==> RuleConflictsOf(tree, r.value)
  {
    var contradictory := DetectContradictoryPaths(tree);
    if contradictory.Err? {
      return Err(contradictory.error);
    }
    var middle := CircularThenRedundant(tree);
    var overlapping := DetectOverlappingConditions(tree);
    if overlapping.Err? {
      return Err(overlapping.error);
    }
    r := Ok(contradictory.value + middle + overlapping.value);
  }

  /** The two middle detectors of `validate`, which never raise: the
      circular conflicts, then the redundant ones. */
  method CircularThenRedundant(tree: Tree) returns (middle: seq<Conflict>)
    ensures MiddleOf(tree, middle)
  {
    var circular := DetectCircularDependencies(tree);
    var redundant := DetectRedundantPaths(tree);
    middle := circular + redundant;
    assert middle[..|circular|] == circular && middle[|circular|..] == redundant;
  }

  /** `validate`, with the language-model checks as inputs: the issues of
      the logical-consistency check (already retried, salvaged or passed
      through the shape check), of the completeness check and of the
      ambiguity check. An exception from a detector or from the edge-case
      walk propagates. */
  method Validate(tree: Tree, logicIssues: seq<Value>, completenessIssues: seq<Value>, ambiguityIssues: seq<Value>,
                  parse: string -> Option<(string, string)>,
                  elderly: string -> Option<bool>, young: string -> Option<bool>)
    returns (r: Result<ValidationReport>)
    ensures r.Ok? ==> (r.value.isValid <==> r.value.issues == [] && r.value.conflicts == [])
    ensures r.Ok? ==> r.value.issues == KeptIssues(logicIssues, parse) + completenessIssues + ambiguityIssues
    ensures r.Ok? ==> ContradictionScanOk(OutcomesIn(NodesOf(tree)), Values(NodesOf(tree)))
    ensures r.Ok? ==> OverlapScanOk(Decisions(Values(NodesOf(tree))), ConditionsOverlap)
    ensures r.Ok? ==> |r.value.suggestions| <= 2
    ensures r.Ok? ==> r.value.conflicts == [] ==>
              Contradictions(OutcomesIn(NodesOf(tree)), Values(NodesOf(tree)), |Values(NodesOf(tree))|) == []
    ensures r.Ok? ==> RuleConflictsOf(tree, r.value.conflicts)
    ensures r.Ok? && tree.nodes.Some? && tree.nodes.value.Keyed? && (exists c :: IsCycle(tree.nodes.value.entries, c)) ==>
              !r.value.isValid
    ensures r.Ok? ==> exists results :: EdgeCasesOf(tree, elderly, young, results) &&
                                        r.value.suggestions == AnalyzeTestResults(results)
  {
    var issues := ValidateIssuesFormat(logicIssues, parse);
    var conflicts := RuleConflicts(tree);
    if conflicts.Err? {
      return Err(conflicts.error);
    }
    issues := issues + completenessIssues;
    issues := issues + ambiguityIssues;
    var results := EdgeCaseResults(tree, elderly, young);
    if results.Err? {
      return Err(results.error);
    }
    FewScenariosNoSameOutcome(results.value);
    var suggestions := AnalyzeTestResults(results.value);
    assert EdgeCasesOf(tree, elderly, young, results.value);
    if tree.nodes.Some? && tree.nodes.value.Keyed? && exists c :: IsCycle(tree.nodes.value.entries, c) {
      CycleReported(tree, conflicts.value);
    }
    r := Ok(ValidationReport(|issues| == 0 && |conflicts.value| == 0, issues, suggestions, conflicts.value));
  }
}
