/** The multi-document adapter's merge of a primary decision tree with the
    criteria of supplementary documents, its extraction of criteria from a
    tree, and its result cache. Trees, results and criteria are JSON-like
    values; reading documents and generating trees are not modelled. */
module MultiDocumentAdapters {
  import opened Base
  import opened Dicts
  import D = DocumentSetManager

  // =====================================================================
  // Dictionary operations on values

  /** `d[key] = v`: a present key keeps its place, a new one goes last. */
  function Assign(fields: seq<(string, Value)>, key: string, v: Value): (r: seq<(string, Value)>)
    ensures HasKey(r, key)
  {
    if HasKey(fields, key) then
      var r := seq(|fields|, i requires 0 <= i < |fields| => if fields[i].0 == key then (key, v) else fields[i]);
      assert HasKey(r, key) by {
        var i :| 0 <= i < |fields| && fields[i].0 == key;
        assert r[i].0 == key;
      }
      r
    else
      var r := fields + [(key, v)];
      assert r[|fields|].0 == key;
      r
  }

  lemma {:induction false} ReplaceOther(fields: seq<(string, Value)>, key: string, v: Value, k: string)
    requires k != key && HasKey(fields, k)
    ensures var r := seq(|fields|, i requires 0 <= i < |fields| => if fields[i].0 == key then (key, v) else fields[i]);
      HasKey(r, k) && Field(r, k) == Field(fields, k)
  {
    var r := seq(|fields|, i requires 0 <= i < |fields| => if fields[i].0 == key then (key, v) else fields[i]);
    var n := |fields| - 1;
    var i :| 0 <= i < |fields| && fields[i].0 == k;
    assert r[i].0 == k;
    if fields[n].0 != k {
      assert HasKey(fields[..n], k) by { assert fields[..n][i].0 == k; }
      ReplaceOther(fields[..n], key, v, k);
      var r' := seq(n, i requires 0 <= i < n => if fields[..n][i].0 == key then (key, v) else fields[..n][i]);
      assert r[..n] == r';
    }
  }

  /** After `d[key] = v`, `key` holds `v` and every other key what it held. */
  lemma AssignField(fields: seq<(string, Value)>, key: string, v: Value, k: string)
    ensures HasKey(Assign(fields, key, v), k) <==> HasKey(fields, k) || k == key
    ensures k == key ==> Field(Assign(fields, key, v), k) == v
    ensures k != key && HasKey(fields, k) ==> Field(Assign(fields, key, v), k) == Field(fields, k)
  {
    var r := Assign(fields, key, v);
    if HasKey(fields, k) {
      var i :| 0 <= i < |fields| && fields[i].0 == k;
      assert r[i].0 == k;
    }
    if k == key {
      assert r[|r| - 1].0 == key || HasKey(fields, key);
      if !HasKey(fields, key) {
        assert r[|r| - 1] == (key, v);
      }
    } else if HasKey(fields, k) {
      if HasKey(fields, key) {
        ReplaceOther(fields, key, v, k);
      } else {
        assert r[..|fields|] == fields;
      }
    }
    if HasKey(r, k) && k != key {
      var i :| 0 <= i < |r| && r[i].0 == k;
      if i < |fields| {
        assert fields[i].0 == k;
      }
    }
  }

  /** `d.get(key, default)`. */
  function Get(fields: seq<(string, Value)>, key: string, default: Value): Value
  {
    if HasKey(fields, key) then Field(fields, key) else default
  }

  /** The items `list.extend` and a `for` loop take from a value: a list's
      elements, a string's characters, a dictionary's keys; the other
      values are not iterable. */
  function Iterate(v: Value): (r: Result<seq<Value>>)
    ensures r.Err? <==> v.VNone? || v.VBool? || v.VInt?
    ensures r.Err? ==> r.error == TypeError
    ensures v.VList? ==> r == Ok(v.items)
    ensures v.VStr? ==> r.Ok? && |r.value| == |v.s|
    ensures v.VDict? ==> r.Ok? && |r.value| == |v.fields|
  {
    match v
    case VList(items) => Ok(items)
    case VStr(s) => Ok(seq(|s|, i requires 0 <= i < |s| => VStr([s[i]])))
    case VDict(fields) => Ok(seq(|fields|, i requires 0 <= i < |fields| => VStr(fields[i].0)))
    case _ => Err(TypeError)
  }

  function Strings(ss: seq<string>): (r: Value)
    ensures r.VList? && |r.items| == |ss|
  {
    VList(seq(|ss|, i requires 0 <= i < |ss| => VStr(ss[i])))
  }

  // =====================================================================
  // Extending a list item by item

  /** A loop that extends one list with `f(x)` for each `x` in turn; the
      first exception ends it. */
  function Gather<T>(xs: seq<T>, f: T -> Result<seq<Value>>): (r: Result<seq<Value>>)
  {
    if xs == [] then Ok([])
    else
      var n := |xs| - 1;
      var prev := Gather(xs[..n], f);
      if prev.Err? then prev
      else
        var next := f(xs[n]);
        if next.Err? then Err(next.error) else Ok(prev.value + next.value)
  }

  /** The loop's step: the result after `i + 1` items from the result
      after `i`. */
  lemma GatherStep<T>(xs: seq<T>, f: T -> Result<seq<Value>>, i: nat)
    requires i < |xs|
    ensures Gather(xs[..i + 1], f) ==
      var prev := Gather(xs[..i], f);
      if prev.Err? then prev
      else if f(xs[i]).Err? then Err(f(xs[i]).error)
      else Ok(prev.value + f(xs[i]).value)
  {
    assert xs[..i + 1][..i] == xs[..i];
  }

  /** Once an item fails, the loop's outcome is that failure. */
  lemma {:induction false} GatherStops<T>(xs: seq<T>, f: T -> Result<seq<Value>>, i: nat)
    requires i <= |xs| && Gather(xs[..i], f).Err?
    ensures Gather(xs, f) == Gather(xs[..i], f)
  {
    if i < |xs| {
      var n := |xs| - 1;
      assert xs[..n][..i] == xs[..i];
      GatherStops(xs[..n], f, i);
    } else {
      assert xs[..i] == xs;
    }
  }

  /** The loop completes exactly when no item fails, and an error it ends
      with is one of an item's errors. */
  lemma {:induction false} GatherOk<T>(xs: seq<T>, f: T -> Result<seq<Value>>)
    ensures Gather(xs, f).Ok? <==> forall i :: 0 <= i < |xs| ==> f(xs[i]).Ok?
    ensures Gather(xs, f).Err? ==> exists i :: 0 <= i < |xs| && f(xs[i]) == Err(Gather(xs, f).error)
  {
    if xs != [] {
      var n := |xs| - 1;
      GatherOk(xs[..n], f);
      assert forall i :: 0 <= i < n ==> xs[..n][i] == xs[i];
    }
  }

  /** A completed loop's list holds exactly the items' contributions. */
  lemma {:induction false} GatherMembers<T>(xs: seq<T>, f: T -> Result<seq<Value>>, x: Value)
    requires Gather(xs, f).Ok?
    ensures x in Gather(xs, f).value <==> exists i :: 0 <= i < |xs| && f(xs[i]).Ok? && x in f(xs[i]).value
  {
    if xs != [] {
      var n := |xs| - 1;
      GatherMembers(xs[..n], f, x);
      assert forall i :: 0 <= i < n ==> xs[..n][i] == xs[i];
    }
  }

  /** The total size of the items' contributions. */
  function Contributed<T>(xs: seq<T>, f: T -> Result<seq<Value>>): nat
  {
    if xs == [] then 0
    else
      var n := |xs| - 1;
      Contributed(xs[..n], f) + (if f(xs[n]).Ok? then |f(xs[n]).value| else 0)
  }

  /** Each contribution is in the list once per occurrence: nothing is
      dropped and nothing is added twice. */
  lemma {:induction false} GatherSize<T>(xs: seq<T>, f: T -> Result<seq<Value>>)
    requires Gather(xs, f).Ok?
    ensures |Gather(xs, f).value| == Contributed(xs, f)
  {
    if xs != [] {
      GatherSize(xs[..|xs| - 1], f);
    }
  }

  /** When every item contributes one value, the list is those values in
      item order. */
  lemma {:induction false} GatherOneEach<T>(xs: seq<T>, f: T -> Result<seq<Value>>)
    requires Gather(xs, f).Ok?
    requires forall i :: 0 <= i < |xs| ==> f(xs[i]).Ok? ==> |f(xs[i]).value| == 1
    ensures |Gather(xs, f).value| == |xs|
    ensures forall i :: 0 <= i < |xs| ==> f(xs[i]).Ok? && Gather(xs, f).value[i] == f(xs[i]).value[0]
  {
    GatherOk(xs, f);
    if xs != [] {
      var n := |xs| - 1;
      assert forall i :: 0 <= i < n ==> xs[..n][i] == xs[i];
      GatherOneEach(xs[..n], f);
    }
  }

  // =====================================================================
  // _extract_criteria_from_tree

  /** What a dictionary with a `criteria` key contributes; anything else
      contributes nothing. */
  function CriteriaIn(v: Value): Result<seq<Value>>
  {
    if v.VDict? && HasKey(v.fields, "criteria") then Iterate(Field(v.fields, "criteria")) else Ok([])
  }

  /** The contributions of the entries under `key` (`nodes` or
      `decision_points`), when the tree has that key. */
  function Nested(tree: seq<(string, Value)>, key: string): Result<seq<Value>>
  {
    if !HasKey(tree, key) then Ok([])
    else
      var xs := Iterate(Field(tree, key));
      if xs.Err? then Err(xs.error) else Gather(xs.value, CriteriaIn)
  }

  /** The criteria of a tree: its own, then those of its nodes, then those
      of its decision points; nothing for a value that is not a dictionary. */
  function CriteriaOf(tree: Value): Result<seq<Value>>
  {
    if !tree.VDict? then Ok([])
    else
      var top := CriteriaIn(tree);
      var nodes := Nested(tree.fields, "nodes");
      var points := Nested(tree.fields, "decision_points");
      if top.Err? then top
      else if nodes.Err? then nodes
      else if points.Err? then points
      else Ok(top.value + nodes.value + points.value)
  }

  /** A value that is not a dictionary has no criteria; a dictionary's
      own criteria come first. */
  lemma CriteriaOfTopFirst(tree: Value)
    ensures !tree.VDict? ==> CriteriaOf(tree) == Ok([])
    ensures CriteriaOf(tree).Ok? && tree.VDict? && HasKey(tree.fields, "criteria") ==>
      var own := Iterate(Field(tree.fields, "criteria"));
      own.Ok? && own.value <= CriteriaOf(tree).value
  {
  }

  /** `x` is a criterion of one of the dictionaries under `key`. */
  predicate NestedHas(tree: seq<(string, Value)>, key: string, x: Value)
  {
    && HasKey(tree, key)
    && var xs := Iterate(Field(tree, key));
    && xs.Ok?
    && exists i :: 0 <= i < |xs.value| && CriteriaIn(xs.value[i]).Ok? && x in CriteriaIn(xs.value[i]).value
  }

  lemma NestedMembers(tree: seq<(string, Value)>, key: string, x: Value)
    requires Nested(tree, key).Ok?
    ensures x in Nested(tree, key).value <==> NestedHas(tree, key, x)
  {
    if HasKey(tree, key) {
      GatherMembers(Iterate(Field(tree, key)).value, CriteriaIn, x);
    }
  }

  /** A value is extracted exactly when it is one of the tree's own
      criteria or a criterion of one of its node or decision-point
      dictionaries. */
  lemma CriteriaOfMembers(tree: Value, x: Value)
    requires CriteriaOf(tree).Ok? && tree.VDict?
    ensures CriteriaIn(tree).Ok?
    ensures x in CriteriaOf(tree).value <==>
      x in CriteriaIn(tree).value || NestedHas(tree.fields, "nodes", x) || NestedHas(tree.fields, "decision_points", x)
  {
    NestedMembers(tree.fields, "nodes", x);
    NestedMembers(tree.fields, "decision_points", x);
  }

  /** The loop over `nodes` or `decision_points`. */
  method ExtendFrom(criteria: seq<Value>, entries: seq<Value>) returns (r: Result<seq<Value>>)
    ensures r == (var g := Gather(entries, CriteriaIn); if g.Err? then Err(g.error) else Ok(criteria + g.value))
  {
    var acc := criteria;
    for i := 0 to |entries|
      invariant Gather(entries[..i], CriteriaIn).Ok?
      invariant acc == criteria + Gather(entries[..i], CriteriaIn).value
    {
      GatherStep(entries, CriteriaIn, i);
      var entry := entries[i];
      if entry.VDict? && HasKey(entry.fields, "criteria") {
        var items := Iterate(Field(entry.fields, "criteria"));
        if items.Err? {
          GatherStops(entries, CriteriaIn, i + 1);
          return Err(items.error);
        }
        acc := acc + items.value;
      }
    }
    assert entries[..|entries|] == entries;
    r := Ok(acc);
  }

  /** `_extract_criteria_from_tree`. */
  method ExtractCriteriaFromTree(tree: Value) returns (r: Result<seq<Value>>)
    ensures r == CriteriaOf(tree)
  {
    var criteria: seq<Value> := [];
    if !tree.VDict? {
      return Ok(criteria);
    }
    ghost var top := CriteriaIn(tree);
    ghost var nodes := Nested(tree.fields, "nodes");
    ghost var points := Nested(tree.fields, "decision_points");
    if HasKey(tree.fields, "criteria") {
      var items := Iterate(Field(tree.fields, "criteria"));
      if items.Err? {
        return Err(items.error);
      }
      criteria := criteria + items.value;
    }
    assert criteria == top.value;
    if HasKey(tree.fields, "nodes") {
      var nodes := Iterate(Field(tree.fields, "nodes"));
      if nodes.Err? {
        return Err(nodes.error);
      }
      var extended := ExtendFrom(criteria, nodes.value);
      if extended.Err? {
        return extended;
      }
      criteria := extended.value;
    }
    assert nodes.Ok? && criteria == top.value + nodes.value;
    if HasKey(tree.fields, "decision_points") {
      var points := Iterate(Field(tree.fields, "decision_points"));
      if points.Err? {
        return Err(points.error);
      }
      var extended := ExtendFrom(criteria, points.value);
      if extended.Err? {
        return extended;
      }
      criteria := extended.value;
    }
    assert points.Ok? && criteria == top.value + nodes.value + points.value;
    r := Ok(criteria);
  }

  // =====================================================================
  // _simple_merge

  /** The merged result: the tree, the ids of the documents it draws on,
      the set's metadata, and the two reference fields left for later use. */
  datatype UnifiedDecisionTree = UnifiedDecisionTree(
    tree: Value,
    sourceDocuments: seq<string>,
    metadata: Value,
    extractedReferences: seq<Value>,
    resolvedReferencesCount: int)

  const SourceDocument := "source_document"
  const SupplementarySections := "supplementary_sections"
  const SectionTitle := "Additional Criteria from Supplementary Documents"
  const SectionDescription := "These criteria are derived from clinical guidelines and supplementary documents"

  /** A copy of one criterion attributed to document `id`; only a
      dictionary takes the attribution. */
  function Attribute(id: string): Value -> Result<seq<Value>>
  {
    (c: Value) => if c.VDict? then Ok([VDict(Assign(c.fields, SourceDocument, VStr(id)))]) else Err(TypeError)
  }

  /** The attributed copies of one supplementary result's parsed criteria. */
  function FromDocument(e: (string, Value)): Result<seq<Value>>
  {
    if !e.1.VDict? then Err(AttributeError)
    else
      var items := Iterate(Get(e.1.fields, "parsed_criteria", VList([])));
      if items.Err? then Err(items.error) else Gather(items.value, Attribute(e.0))
  }

  /** The attributed criteria of all supplementary results, in order. */
  function SupplementaryCriteria(supplementary: seq<(string, Value)>): Result<seq<Value>>
  {
    Gather(supplementary, FromDocument)
  }

  /** Every collected criterion is a dictionary attributed to one of the
      supplementary documents, and every parsed criterion of every
      supplementary document is collected, attributed to that document,
      once per occurrence. */
  lemma SupplementaryCriteriaSpec(supplementary: seq<(string, Value)>)
    requires SupplementaryCriteria(supplementary).Ok?
    ensures forall x :: x in SupplementaryCriteria(supplementary).value ==>
      x.VDict? && HasKey(x.fields, SourceDocument) &&
      exists i :: 0 <= i < |supplementary| && Field(x.fields, SourceDocument) == VStr(supplementary[i].0)
    ensures forall i :: 0 <= i < |supplementary| ==>
      && supplementary[i].1.VDict?
      && var items := Iterate(Get(supplementary[i].1.fields, "parsed_criteria", VList([])));
      && items.Ok?
      && forall j :: 0 <= j < |items.value| ==>
           items.value[j].VDict? &&
           VDict(Assign(items.value[j].fields, SourceDocument, VStr(supplementary[i].0))) in SupplementaryCriteria(supplementary).value
    ensures |SupplementaryCriteria(supplementary).value| == Contributed(supplementary, FromDocument)
  {
    var c := SupplementaryCriteria(supplementary).value;
    GatherOk(supplementary, FromDocument);
    GatherSize(supplementary, FromDocument);
    forall x | x in c
      ensures x.VDict? && HasKey(x.fields, SourceDocument) &&
        exists i :: 0 <= i < |supplementary| && Field(x.fields, SourceDocument) == VStr(supplementary[i].0)
    {
      GatherMembers(supplementary, FromDocument, x);
      var i :| 0 <= i < |supplementary| && FromDocument(supplementary[i]).Ok? && x in FromDocument(supplementary[i]).value;
      var e := supplementary[i];
      var items := Iterate(Get(e.1.fields, "parsed_criteria", VList([]))).value;
      GatherMembers(items, Attribute(e.0), x);
      var j :| 0 <= j < |items| && Attribute(e.0)(items[j]).Ok? && x in Attribute(e.0)(items[j]).value;
      AssignField(items[j].fields, SourceDocument, VStr(e.0), SourceDocument);
    }
    forall i | 0 <= i < |supplementary|
      ensures && supplementary[i].1.VDict?
        && var items := Iterate(Get(supplementary[i].1.fields, "parsed_criteria", VList([])));
        && items.Ok?
        && forall j :: 0 <= j < |items.value| ==>
             items.value[j].VDict? &&
             VDict(Assign(items.value[j].fields, SourceDocument, VStr(supplementary[i].0))) in c
    {
      var e := supplementary[i];
      assert FromDocument(e).Ok?;
      var items := Iterate(Get(e.1.fields, "parsed_criteria", VList([]))).value;
      GatherOk(items, Attribute(e.0));
      forall j | 0 <= j < |items|
        ensures VDict(Assign(items[j].fields, SourceDocument, VStr(e.0))) in c
      {
        var x := VDict(Assign(items[j].fields, SourceDocument, VStr(e.0)));
        GatherMembers(items, Attribute(e.0), x);
        GatherMembers(supplementary, FromDocument, x);
      }
    }
  }

  function Section(criteria: seq<Value>, supplementary: seq<(string, Value)>): Value
  {
    VDict([("type", VStr("criteria_group")),
           ("title", VStr(SectionTitle)),
           ("description", VStr(SectionDescription)),
           ("criteria", VList(criteria)),
           ("source_documents", Strings(KeyList(supplementary)))])
  }

  /** Appending a section to the tree's `supplementary_sections` list,
      which is created when absent. */
  function WithSection(tree: seq<(string, Value)>, section: Value): Result<seq<(string, Value)>>
  {
    var t := if !HasKey(tree, SupplementarySections) then Assign(tree, SupplementarySections, VList([])) else tree;
    var sections := Field(t, SupplementarySections);
    if !sections.VList? then Err(AttributeError)
    else Ok(Assign(t, SupplementarySections, VList(sections.items + [section])))
  }

  function MergeMetadata(m: seq<(string, Value)>, ds: D.DocumentSet, supplementary: seq<(string, Value)>): seq<(string, Value)>
  {
    var m1 := Assign(m, "merge_strategy", VStr("simple_append"));
    var m2 := Assign(m1, "document_count", VInt(|ds.documents|));
    var m3 := Assign(m2, "primary_document", VStr(ds.primaryDocumentId));
    Assign(m3, "supplementary_documents", Strings(KeyList(supplementary)))
  }

  /** Recording the merge in the tree's `metadata` dictionary, which is
      created when absent. */
  function WithMergeMetadata(tree: seq<(string, Value)>, ds: D.DocumentSet, supplementary: seq<(string, Value)>): Result<seq<(string, Value)>>
  {
    var t := if !HasKey(tree, "metadata") then Assign(tree, "metadata", VDict([])) else tree;
    var m := Field(t, "metadata");
    if !m.VDict? then Err(TypeError)
    else Ok(Assign(t, "metadata", VDict(MergeMetadata(m.fields, ds, supplementary))))
  }

  function RelationTypeValue(t: D.DocumentRelationType): string
  {
    match t
    case CrossReferenced => "cross_referenced"
    case PrimarySupplementary => "primary_supplementary"
  }

  function RelationshipValue(r: D.DocumentRelationship): Value
  {
    VDict([("from_doc", VStr(r.fromDoc)), ("to_doc", VStr(r.toDoc)), ("type", VStr(RelationTypeValue(r.relationshipType)))])
  }

  function SetMetadata(ds: D.DocumentSet): Value
  {
    VDict([("document_set_id", VStr(ds.setId)),
           ("merge_strategy", VStr("simple_append")),
           ("processing_metadata", VDict(seq(|ds.processingMetadata|, i requires 0 <= i < |ds.processingMetadata| =>
                                          (ds.processingMetadata[i].0, VStr(ds.processingMetadata[i].1))))),
           ("relationships", VList(seq(|ds.relationships|, i requires 0 <= i < |ds.relationships| =>
                                     RelationshipValue(ds.relationships[i]))))])
  }

  /** What `_simple_merge` returns or raises. */
  function MergeOf(primary: Value, supplementary: seq<(string, Value)>, ds: D.DocumentSet): Result<UnifiedDecisionTree>
  {
    if !primary.VDict? then Err(AttributeError)
    else
      var tree := Get(primary.fields, "decision_tree", VDict([]));
      var criteria := SupplementaryCriteria(supplementary);
      if criteria.Err? then Err(criteria.error)
      else if !tree.VDict? then Err(TypeError)
      else
        var t1 := if criteria.value == [] then Ok(tree.fields) else WithSection(tree.fields, Section(criteria.value, supplementary));
        if t1.Err? then Err(t1.error)
        else
          var t2 := WithMergeMetadata(t1.value, ds, supplementary);
          if t2.Err? then Err(t2.error)
          else Ok(UnifiedDecisionTree(VDict(t2.value), [ds.primaryDocumentId] + KeyList(supplementary), SetMetadata(ds), [], 0))
  }

  /** The merge succeeds exactly when the primary result is a dictionary
      whose tree is a dictionary, every supplementary result is a
      dictionary of dictionaries of criteria, and the tree's
      `supplementary_sections` (when a section is added) is a list and its
      `metadata` a dictionary. */
  lemma MergeOfErrors(primary: Value, supplementary: seq<(string, Value)>, ds: D.DocumentSet)
    ensures !primary.VDict? ==> MergeOf(primary, supplementary, ds) == Err(AttributeError)
    ensures (primary.VDict? && SupplementaryCriteria(supplementary).Ok? &&
             !Get(primary.fields, "decision_tree", VDict([])).VDict?) ==> MergeOf(primary, supplementary, ds) == Err(TypeError)
    ensures primary.VDict? && SupplementaryCriteria(supplementary).Err? ==>
      exists i :: 0 <= i < |supplementary| && FromDocument(supplementary[i]) == Err(MergeOf(primary, supplementary, ds).error)
  {
    GatherOk(supplementary, FromDocument);
  }

  /** A merged tree keeps every key of the primary tree other than the two
      it extends, with its value. */
  lemma MergeKeepsTree(primary: Value, supplementary: seq<(string, Value)>, ds: D.DocumentSet, k: string)
    requires MergeOf(primary, supplementary, ds).Ok?
    requires k != SupplementarySections && k != "metadata"
    ensures var tree := Get(primary.fields, "decision_tree", VDict([]));
      var merged := MergeOf(primary, supplementary, ds).value.tree;
      && tree.VDict? && merged.VDict?
      && (HasKey(merged.fields, k) <==> HasKey(tree.fields, k))
      && (HasKey(tree.fields, k) ==> Field(merged.fields, k) == Field(tree.fields, k))
  {
    var tree := Get(primary.fields, "decision_tree", VDict([])).fields;
    var criteria := SupplementaryCriteria(supplementary).value;
    var t1 := tree;
    if criteria != [] {
      var t := if !HasKey(tree, SupplementarySections) then Assign(tree, SupplementarySections, VList([])) else tree;
      AssignField(tree, SupplementarySections, VList([]), k);
      var sections := Field(t, SupplementarySections);
      AssignField(t, SupplementarySections, VList(sections.items + [Section(criteria, supplementary)]), k);
      t1 := WithSection(tree, Section(criteria, supplementary)).value;
    }
    var t := if !HasKey(t1, "metadata") then Assign(t1, "metadata", VDict([])) else t1;
    AssignField(t1, "metadata", VDict([]), k);
    var m := Field(t, "metadata");
    AssignField(t, "metadata", VDict(MergeMetadata(m.fields, ds, supplementary)), k);
  }

  /** A section is appended exactly when some supplementary criterion was
      collected: it is then the last of the tree's sections, after the
      primary tree's own, and holds all collected criteria; otherwise the
      sections are the primary tree's. */
  lemma MergeSections(primary: Value, supplementary: seq<(string, Value)>, ds: D.DocumentSet)
    requires MergeOf(primary, supplementary, ds).Ok?
    ensures var tree := Get(primary.fields, "decision_tree", VDict([])).fields;
      var merged := MergeOf(primary, supplementary, ds).value.tree.fields;
      var criteria := SupplementaryCriteria(supplementary).value;
      && (criteria != [] ==>
            && HasKey(merged, SupplementarySections)
            && Field(merged, SupplementarySections) ==
                 VList((if HasKey(tree, SupplementarySections) then Field(tree, SupplementarySections).items else [])
                       + [Section(criteria, supplementary)]))
      && (criteria == [] ==>
            && (HasKey(merged, SupplementarySections) <==> HasKey(tree, SupplementarySections))
            && (HasKey(tree, SupplementarySections) ==> Field(merged, SupplementarySections) == Field(tree, SupplementarySections)))
  {
    var tree := Get(primary.fields, "decision_tree", VDict([])).fields;
    var criteria := SupplementaryCriteria(supplementary).value;
    var t1 := tree;
    if criteria != [] {
      var t := if !HasKey(tree, SupplementarySections) then Assign(tree, SupplementarySections, VList([])) else tree;
      AssignField(tree, SupplementarySections, VList([]), SupplementarySections);
      var sections := Field(t, SupplementarySections);
      AssignField(t, SupplementarySections, VList(sections.items + [Section(criteria, supplementary)]), SupplementarySections);
      t1 := WithSection(tree, Section(criteria, supplementary)).value;
    }
    var t := if !HasKey(t1, "metadata") then Assign(t1, "metadata", VDict([])) else t1;
    AssignField(t1, "metadata", VDict([]), SupplementarySections);
    var m := Field(t, "metadata");
    AssignField(t, "metadata", VDict(MergeMetadata(m.fields, ds, supplementary)), SupplementarySections);
  }

  /** The merged tree's metadata records the simple-append strategy, the
      number of documents in the set, the primary id and the supplementary
      ids; the result lists the primary id and then the supplementary ids,
      and carries no references yet. */
  lemma MergeRecords(primary: Value, supplementary: seq<(string, Value)>, ds: D.DocumentSet)
    requires MergeOf(primary, supplementary, ds).Ok?
    ensures var u := MergeOf(primary, supplementary, ds).value;
      && u.tree.VDict? && HasKey(u.tree.fields, "metadata")
      && var m := Field(u.tree.fields, "metadata");
      && m.VDict?
      && HasKey(m.fields, "merge_strategy") && Field(m.fields, "merge_strategy") == VStr("simple_append")
      && HasKey(m.fields, "document_count") && Field(m.fields, "document_count") == VInt(|ds.documents|)
      && HasKey(m.fields, "primary_document") && Field(m.fields, "primary_document") == VStr(ds.primaryDocumentId)
      && HasKey(m.fields, "supplementary_documents")
      && Field(m.fields, "supplementary_documents") == Strings(KeyList(supplementary))
      && u.sourceDocuments == [ds.primaryDocumentId] + KeyList(supplementary)
      && u.extractedReferences == [] && u.resolvedReferencesCount == 0
  {
    var tree := Get(primary.fields, "decision_tree", VDict([])).fields;
    var criteria := SupplementaryCriteria(supplementary).value;
    var t1 := if criteria == [] then tree else WithSection(tree, Section(criteria, supplementary)).value;
    var t := if !HasKey(t1, "metadata") then Assign(t1, "metadata", VDict([])) else t1;
    var m := Field(t, "metadata").fields;
    AssignField(t, "metadata", VDict(MergeMetadata(m, ds, supplementary)), "metadata");
    var m1 := Assign(m, "merge_strategy", VStr("simple_append"));
    var m2 := Assign(m1, "document_count", VInt(|ds.documents|));
    var m3 := Assign(m2, "primary_document", VStr(ds.primaryDocumentId));
    AssignField(m, "merge_strategy", VStr("simple_append"), "merge_strategy");
    AssignField(m1, "document_count", VInt(|ds.documents|), "merge_strategy");
    AssignField(m1, "document_count", VInt(|ds.documents|), "document_count");
    AssignField(m2, "primary_document", VStr(ds.primaryDocumentId), "merge_strategy");
    AssignField(m2, "primary_document", VStr(ds.primaryDocumentId), "document_count");
    AssignField(m2, "primary_document", VStr(ds.primaryDocumentId), "primary_document");
    AssignField(m3, "supplementary_documents", Strings(KeyList(supplementary)), "merge_strategy");
    AssignField(m3, "supplementary_documents", Strings(KeyList(supplementary)), "document_count");
    AssignField(m3, "supplementary_documents", Strings(KeyList(supplementary)), "primary_document");
    AssignField(m3, "supplementary_documents", Strings(KeyList(supplementary)), "supplementary_documents");
  }

  /** The attributed copies are the criteria in their order, each with
      `source_document` set to the document's id and its other keys as
      they were. */
  lemma AttributedInOrder(docId: string, items: seq<Value>)
    requires Gather(items, Attribute(docId)).Ok?
    ensures var c := Gather(items, Attribute(docId)).value;
      && |c| == |items|
      && forall j :: 0 <= j < |items| ==>
           && items[j].VDict? && c[j].VDict?
           && HasKey(c[j].fields, SourceDocument) && Field(c[j].fields, SourceDocument) == VStr(docId)
           && forall k :: k != SourceDocument ==>
                (HasKey(c[j].fields, k) <==> HasKey(items[j].fields, k)) &&
                (HasKey(items[j].fields, k) ==> Field(c[j].fields, k) == Field(items[j].fields, k))
  {
    GatherOk(items, Attribute(docId));
    GatherOneEach(items, Attribute(docId));
    var c := Gather(items, Attribute(docId)).value;
    forall j, k | 0 <= j < |items|
      ensures HasKey(c[j].fields, SourceDocument) && Field(c[j].fields, SourceDocument) == VStr(docId)
      ensures k != SourceDocument ==>
                (HasKey(c[j].fields, k) <==> HasKey(items[j].fields, k)) &&
                (HasKey(items[j].fields, k) ==> Field(c[j].fields, k) == Field(items[j].fields, k))
    {
      AssignField(items[j].fields, SourceDocument, VStr(docId), SourceDocument);
      AssignField(items[j].fields, SourceDocument, VStr(docId), k);
    }
  }

  /** The collection loop of `_simple_merge` over one supplementary
      result's criteria. */
  method AttributeCriteria(docId: string, items: seq<Value>) returns (r: Result<seq<Value>>)
    ensures r == Gather(items, Attribute(docId))
  {
    var attributed: seq<Value> := [];
    for j := 0 to |items|
      invariant Gather(items[..j], Attribute(docId)) == Ok(attributed)
    {
      GatherStep(items, Attribute(docId), j);
      var criterion := items[j];
      if !criterion.VDict? {
        GatherStops(items, Attribute(docId), j + 1);
        return Err(TypeError);
      }
      attributed := attributed + [VDict(Assign(criterion.fields, SourceDocument, VStr(docId)))];
    }
    assert items[..|items|] == items;
    r := Ok(attributed);
  }

  /** The collection loop of `_simple_merge` over the supplementary
      results. */
  method CollectSupplementary(supplementary: seq<(string, Value)>) returns (r: Result<seq<Value>>)
    ensures r == SupplementaryCriteria(supplementary)
  {
    var collected: seq<Value> := [];
    for i := 0 to |supplementary|
      invariant Gather(supplementary[..i], FromDocument) == Ok(collected)
    {
      GatherStep(supplementary, FromDocument, i);
      var (docId, result) := supplementary[i];
      if !result.VDict? {
        GatherStops(supplementary, FromDocument, i + 1);
        return Err(AttributeError);
      }
      var items := Iterate(Get(result.fields, "parsed_criteria", VList([])));
      if items.Err? {
        GatherStops(supplementary, FromDocument, i + 1);
        return Err(items.error);
      }
      var attributed := AttributeCriteria(docId, items.value);
      if attributed.Err? {
        GatherStops(supplementary, FromDocument, i + 1);
        return Err(attributed.error);
      }
      collected := collected + attributed.value;
    }
    assert supplementary[..|supplementary|] == supplementary;
    r := Ok(collected);
  }

  /** `_simple_merge`. The primary tree is a value, so the merge cannot
      change the primary result. */
  method SimpleMerge(primary: Value, supplementary: seq<(string, Value)>, ds: D.DocumentSet)
    returns (r: Result<UnifiedDecisionTree>)
    ensures r == MergeOf(primary, supplementary, ds)
  {
    if !primary.VDict? {
      return Err(AttributeError);
    }
    var mergedTree := Get(primary.fields, "decision_tree", VDict([]));
    var criteria := CollectSupplementary(supplementary);
    if criteria.Err? {
      return Err(criteria.error);
    }
    if !mergedTree.VDict? {
      return Err(TypeError);
    }
    var tree := mergedTree.fields;
    if criteria.value != [] {
      var section := Section(criteria.value, supplementary);
      if !HasKey(tree, SupplementarySections) {
        tree := Assign(tree, SupplementarySections, VList([]));
      }
      var sections := Field(tree, SupplementarySections);
      if !sections.VList? {
        return Err(AttributeError);
      }
      tree := Assign(tree, SupplementarySections, VList(sections.items + [section]));
    }
    if !HasKey(tree, "metadata") {
      tree := Assign(tree, "metadata", VDict([]));
    }
    var metadata := Field(tree, "metadata");
    if !metadata.VDict? {
      return Err(TypeError);
    }
    tree := Assign(tree, "metadata", VDict(MergeMetadata(metadata.fields, ds, supplementary)));
    r := Ok(UnifiedDecisionTree(VDict(tree), [ds.primaryDocumentId] + KeyList(supplementary), SetMetadata(ds), [], 0));
  }

  // =====================================================================
  // MultiDocumentAdapter

  /** The adapter's state: the processed results by document id. */
  class MultiDocumentAdapter {
    var cache: map<string, Value>

    constructor ()
      ensures cache == map[]
    {
      cache := map[];
    }

    /** Storing a processed result under its document id. */
    method Remember(docId: string, result: Value)
      modifies this
      ensures cache == old(cache)[docId := result]
    {
      cache := cache[docId := result];
    }

    /** `clear_cache`. */
    method ClearCache()
      modifies this
      ensures cache == map[]
    {
      cache := map[];
    }
  }
}
