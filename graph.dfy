/** The decision graph as the engine receives it: a tree dictionary whose
    `nodes` entry maps node ids to node dictionaries (or, in some producers,
    lists them), each node carrying its `connections` in one of two wire
    shapes. Different parts of the engine read different keys of these
    shapes; the functions below name each reading once. */
module Graph {
  import opened Base

  /** A connection value in the label-to-target shape: a plain id, a nested
      dictionary (whose optional `id` field names the target), or None. */
  datatype Target = Id(id: string) | Obj(objId: Option<string>) | Null

  /** A connection record in the list shape. The traversal utilities read
      `target_node_id`; the detectors and the resolver read `to`. */
  datatype Rec = Rec(to: Option<string>, targetNodeId: Option<string>, condition: Option<string>)

  datatype Conns = DictConns(labelled: seq<(string, Target)>) | ListConns(recs: seq<Rec>)

  /** A node dictionary, restricted to the keys the core reads. `kind` is the
      `type` key. */
  datatype Node = Node(
    id: Option<string>,
    kind: Option<string>,
    condition: Option<string>,
    question: Option<string>,
    decision: Option<string>,
    connections: Option<Conns>)

  /** `tree['nodes']`: a dictionary from key to node (in insertion order) or
      a plain list of nodes. */
  datatype Nodes = Keyed(entries: seq<(string, Node)>) | Listed(items: seq<Node>)

  /** The tree dictionary: its optional `nodes` entry and the optional
      `metadata.start_node_id`. */
  datatype Tree = Tree(nodes: Option<Nodes>, startNodeId: Option<string>)

  // ---------------------------------------------------------------------
  // Dictionaries of nodes

  function Keys(entries: seq<(string, Node)>): set<string>
  {
    set i | 0 <= i < |entries| :: entries[i].0
  }

  /** Python dictionaries never repeat a key. */
  predicate UniqueKeys(entries: seq<(string, Node)>)
  {
    forall i, j :: 0 <= i < j < |entries| ==> entries[i].0 != entries[j].0
  }

  /** `nodes.get(k)` on a dictionary of nodes. */
  function Get(entries: seq<(string, Node)>, k: string): (r: Option<Node>)
    ensures r.Some? <==> k in Keys(entries)
    ensures r.Some? ==> exists i :: 0 <= i < |entries| && entries[i] == (k, r.value)
  {
    if entries == [] then None
    else if entries[0].0 == k then Some(entries[0].1)
    else
      var r := Get(entries[1..], k);
      assert Keys(entries) == Keys(entries[1..]) + {entries[0].0};
      assert r.Some? ==> exists i :: 0 <= i < |entries[1..]| && entries[1..][i] == (k, r.value);
      r
  }

  /** `len(nodes)`. */
  function Size(nodes: Nodes): nat
  {
    match nodes
    case Keyed(es) => |es|
    case Listed(ns) => |ns|
  }

  /** `nodes.values()` for a dictionary, the list itself otherwise. */
  function Values(nodes: Nodes): (r: seq<Node>)
    ensures |r| == Size(nodes)
    ensures nodes.Keyed? ==> forall i :: 0 <= i < |r| ==> r[i] == nodes.entries[i].1
    ensures nodes.Listed? ==> r == nodes.items
  {
    match nodes
    case Keyed(es) => seq(|es|, i requires 0 <= i < |es| => es[i].1)
    case Listed(ns) => ns
  }

  /** `node.get('connections', {})`. */
  function ConnsOf(n: Node): Conns
  {
    if n.connections.Some? then n.connections.value else DictConns([])
  }

  /** Python truthiness of an optional string. */
  predicate Truthy(s: Option<string>)
  {
    s.Some? && s.value != ""
  }

  // ---------------------------------------------------------------------
  // The edges the traversal utilities follow

  /** A dict-shaped connection value after `target.get('id')` unwrapping. */
  function Unwrap(t: Target): Option<string>
  {
    match t
    case Id(s) => Some(s)
    case Obj(o) => o
    case Null => None
  }

  function DictTargets(labelled: seq<(string, Target)>, keys: set<string>): (r: seq<string>)
    ensures forall x :: x in r ==> x in keys && x != ""
  {
    if labelled == [] then []
    else
      var t := Unwrap(labelled[0].1);
      (if Truthy(t) && t.value in keys then [t.value] else []) + DictTargets(labelled[1..], keys)
  }

  function RecTargets(recs: seq<Rec>, keys: set<string>): (r: seq<string>)
    ensures forall x :: x in r ==> x in keys && x != ""
  {
    if recs == [] then []
    else
      var t := recs[0].targetNodeId;
      (if Truthy(t) && t.value in keys then [t.value] else []) + RecTargets(recs[1..], keys)
  }

  /** The ids the cycle finder and the path enumerator recurse into from a
      node, in connection order: the (unwrapped) targets that are truthy and
      name an existing node. */
  function DfsTargets(c: Conns, keys: set<string>): (r: seq<string>)
    ensures forall x :: x in r ==> x in keys && x != ""
  {
    match c
    case DictConns(l) => DictTargets(l, keys)
    case ListConns(rs) => RecTargets(rs, keys)
  }

  /** The successors of an existing node in a dictionary of nodes. */
  function Succ(entries: seq<(string, Node)>, a: string): seq<string>
    requires a in Keys(entries)
  {
    DfsTargets(ConnsOf(Get(entries, a).value), Keys(entries))
  }

  /** There is an edge from `a` to `b` as the traversal utilities see it. */
  predicate Edge(entries: seq<(string, Node)>, a: string, b: string)
  {
    a in Keys(entries) && b in Succ(entries, a)
  }

  /** Consecutive ids are joined by edges. */
  predicate IsWalk(entries: seq<(string, Node)>, p: seq<string>)
  {
    forall i :: 0 <= i < |p| - 1 ==> Edge(entries, p[i], p[i + 1])
  }

  /** A closed walk: at least one step, first id equal to the last. */
  predicate IsCycle(entries: seq<(string, Node)>, c: seq<string>)
  {
    |c| >= 2 && c[0] == c[|c| - 1] && IsWalk(entries, c)
  }

  /** A path from `s` to `t` that repeats no node. */
  predicate IsSimplePath(entries: seq<(string, Node)>, p: seq<string>, s: string, t: string)
  {
    p != [] && p[0] == s && p[|p| - 1] == t && Distinct(p) && IsWalk(entries, p)
  }
}
