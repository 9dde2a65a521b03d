/** Identification of a document set among several files by their names:
    `<base>_<type>.txt` or `<base>-<type>.txt` files are grouped by base,
    the largest group becomes the set, its first file the primary document,
    and every insurance/policy document is cross-referenced with every
    guidelines/clinical document. Reading a manifest and the random set id
    are inputs. */
module DocumentSetManager {
  import opened Base
  import opened Dicts

  // =====================================================================
  // Paths and file-name patterns

  /** A `Path`: its string form, the name of its parent directory and its
      final component. */
  datatype FilePath = FilePath(text: string, parentName: string, name: string)

  /** The argument of `identify_document_set`: one Path or a list of them. */
  datatype Paths = OnePath(path: FilePath) | PathList(paths: seq<FilePath>)

  const DocTypes: seq<string> := ["insurance", "policy", "guidelines", "clinical"]

  /** The order in which compound types are looked for at the end of a base. */
  const CompoundTypes: seq<string> := ["insurance", "clinical", "policy", "guidelines"]

  /** The part of a name a `...\.txt$` pattern must end at: `$` also
      matches before one final newline. */
  function Body(name: string): (r: string)
    ensures r == name || r + "\n" == name
  {
    if name != [] && name[|name| - 1] == '\n' then name[..|name| - 1] else name
  }

  function Tail(sep: char, t: string): string
  {
    [sep] + t + ".txt"
  }

  predicate NoNewline(s: string)
  {
    forall i :: 0 <= i < |s| ==> s[i] != '\n'
  }

  /** `re.match(r'^(.+?)<sep>(insurance|policy|guidelines|clinical)\.txt$', name)`
      as (group 1, group 2): a non-empty base without newline, the
      separator, a type and `.txt`. */
  function MatchSep(name: string, sep: char, types: seq<string>): (r: Option<(string, string)>)
    ensures r.Some? ==> r.value.1 in types && r.value.0 != [] && NoNewline(r.value.0)
                        && Body(name) == r.value.0 + Tail(sep, r.value.1)
  {
    if types == [] then None
    else
      var body := Body(name);
      var tail := Tail(sep, types[0]);
      if IsSuffix(tail, body) && |body| > |tail| && NoNewline(body[..|body| - |tail|]) then
        Some((body[..|body| - |tail|], types[0]))
      else MatchSep(name, sep, types[1..])
  }

  /** The two patterns in turn: underscore first, then dash. */
  function Classify(name: string): Option<(string, string)>
  {
    var u := MatchSep(name, '_', DocTypes);
    if u.Some? then u else MatchSep(name, '-', DocTypes)
  }

  /** Only `<base>_<type>.txt` and `<base>-<type>.txt` names (possibly
      followed by one newline) are matched, and the match gives their base
      and type. */
  lemma ClassifySound(name: string)
    requires Classify(name).Some?
    ensures var (b, t) := Classify(name).value;
      && t in DocTypes && b != [] && NoNewline(b)
      && exists sep :: (sep == '_' || sep == '-') && (name == b + Tail(sep, t) || name == b + Tail(sep, t) + "\n")
  {
    var (b, t) := Classify(name).value;
    if MatchSep(name, '_', DocTypes).Some? {
      assert name == b + Tail('_', t) || name == b + Tail('_', t) + "\n";
    } else {
      assert name == b + Tail('-', t) || name == b + Tail('-', t) + "\n";
    }
  }

  /** The four types end in four different letters. */
  lemma TypesByLastLetter(t: string, u: string)
    requires t in DocTypes && u in DocTypes
    ensures t[|t| - 1] == u[|u| - 1] <==> t == u
  {
  }

  /** Two matching tails of one body name the same type. */
  lemma TailUnique(body: string, s1: char, t1: string, s2: char, t2: string)
    requires t1 in DocTypes && t2 in DocTypes
    requires IsSuffix(Tail(s1, t1), body) && IsSuffix(Tail(s2, t2), body)
    ensures t1 == t2
  {
    var n := |body|;
    assert body[n - 5] == Tail(s1, t1)[|Tail(s1, t1)| - 5] == t1[|t1| - 1];
    assert body[n - 5] == Tail(s2, t2)[|Tail(s2, t2)| - 5] == t2[|t2| - 1];
    TypesByLastLetter(t1, t2);
  }

  lemma {:induction false} MatchSepFinds(b: string, sep: char, t: string, types: seq<string>)
    requires t in types && b != [] && NoNewline(b)
    requires forall u :: u in types ==> u in DocTypes
    ensures MatchSep(b + Tail(sep, t), sep, types) == Some((b, t))
  {
    var name := b + Tail(sep, t);
    assert Body(name) == name;
    var tail := Tail(sep, types[0]);
    if IsSuffix(tail, name) {
      TailUnique(name, sep, types[0], sep, t);
      assert name[..|name| - |tail|] == b;
    } else {
      assert types[0] != t;
      MatchSepFinds(b, sep, t, types[1..]);
    }
  }

  /** A body ending in one separator's tail ends in no tail of the other. */
  lemma OtherSeparator(body: string, sep: char, u: string, other: char, t: string)
    requires t in DocTypes && u in DocTypes && sep != other && IsSuffix(Tail(other, t), body)
    ensures !IsSuffix(Tail(sep, u), body)
  {
    TypesByLastLetter(t, u);
    var n := |body|;
    assert body[n - 5] == Tail(other, t)[|Tail(other, t)| - 5] == t[|t| - 1];
    if u == t {
      assert body[n - |Tail(other, t)|] == other;
    }
  }

  lemma {:induction false} MatchSepMisses(name: string, sep: char, t: string, other: char, types: seq<string>)
    requires t in DocTypes && sep != other && IsSuffix(Tail(other, t), Body(name))
    requires forall u :: u in types ==> u in DocTypes
    ensures MatchSep(name, sep, types).None?
  {
    if types != [] {
      var body := Body(name);
      var tail := Tail(sep, types[0]);
      OtherSeparator(body, sep, types[0], other, t);
      MatchSepMisses(name, sep, t, other, types[1..]);
    }
  }

  /** Every name of either form is matched, to its own base and type. */
  lemma ClassifyComplete(b: string, sep: char, t: string)
    requires t in DocTypes && b != [] && NoNewline(b) && (sep == '_' || sep == '-')
    ensures Classify(b + Tail(sep, t)) == Some((b, t))
  {
    var name := b + Tail(sep, t);
    if sep == '_' {
      MatchSepFinds(b, '_', t, DocTypes);
    } else {
      assert Body(name) == name;
      MatchSepMisses(name, '_', t, '-', DocTypes);
      MatchSepFinds(b, '-', t, DocTypes);
    }
  }

  /** The compound-type step: the first of the types that ends the base
      after an underscore moves from the base to the front of the type. */
  function Compound(base: string, t: string, types: seq<string>): (r: (string, string))
    ensures r == (base, t) || exists d :: d in types && base == r.0 + "_" + d && r.1 == d + "_" + t
    ensures (forall d :: d in types ==> !IsSuffix("_" + d, base)) ==> r == (base, t)
  {
    if types == [] then (base, t)
    else if IsSuffix("_" + types[0], base) then
      var d := types[0];
      var r := (base[..|base| - |d| - 1], d + "_" + t);
      assert base == r.0 + "_" + d;
      r
    else Compound(base, t, types[1..])
  }

  /** The base and type a path is grouped under, if its name matches. */
  function Classified(p: FilePath): Option<(string, string)>
  {
    var c := Classify(p.name);
    if c.Some? then Some(Compound(c.value.0, c.value.1, CompoundTypes)) else None
  }

  // =====================================================================
  // Grouping by base name

  type Entry = (FilePath, string)
  type Groups = seq<(string, seq<Entry>)>

  /** `groups.setdefault(k, []).append(e)`. */
  function AppendTo(g: Groups, k: string, e: Entry): (r: Groups)
    requires UniqueKeys(g)
    ensures UniqueKeys(r)
    ensures |r| == |g| + (if Find(g, k).Some? then 0 else 1)
    ensures forall i :: 0 <= i < |g| ==> r[i] == (if g[i].0 == k then (k, g[i].1 + [e]) else g[i])
    ensures Find(g, k).None? ==> r[|g|] == (k, [e])
  {
    var f := Find(g, k);
    if f.Some? then g[f.value := (k, g[f.value].1 + [e])] else g + [(k, [e])]
  }

  /** The `groups` dictionary after the loop over `paths`. */
  function GroupsOf(paths: seq<FilePath>): (r: Groups)
    ensures UniqueKeys(r)
  {
    if paths == [] then []
    else
      var n := |paths| - 1;
      var g := GroupsOf(paths[..n]);
      var c := Classified(paths[n]);
      if c.Some? then AppendTo(g, c.value.0, (paths[n], c.value.1)) else g
  }

  /** `[(p, t) for p in paths if p is grouped under base k with type t]`. */
  function Members(paths: seq<FilePath>, k: string): seq<Entry>
  {
    if paths == [] then []
    else
      var n := |paths| - 1;
      var c := Classified(paths[n]);
      Members(paths[..n], k) + (if c.Some? && c.value.0 == k then [(paths[n], c.value.1)] else [])
  }

  /** After `setdefault(k, []).append(e)` the keys are the old keys and `k`. */
  lemma AppendToKeys(g: Groups, k: string, e: Entry, x: string)
    requires UniqueKeys(g)
    ensures Find(AppendTo(g, k, e), x).Some? <==> Find(g, x).Some? || x == k
  {
    var r := AppendTo(g, k, e);
    if Find(g, x).Some? {
      assert r[Find(g, x).value].0 == x;
    } else if x == k {
      assert r[|g|].0 == k;
    } else {
      assert forall i :: 0 <= i < |r| ==> r[i].0 != x;
    }
  }

  /** There is a group for exactly the bases some path has. */
  lemma {:induction false} GroupsOfKeys(paths: seq<FilePath>, k: string)
    ensures Find(GroupsOf(paths), k).None? <==> Members(paths, k) == []
  {
    if paths != [] {
      var n := |paths| - 1;
      GroupsOfKeys(paths[..n], k);
      var c := Classified(paths[n]);
      if c.Some? {
        AppendToKeys(GroupsOf(paths[..n]), c.value.0, (paths[n], c.value.1), k);
      }
    }
  }

  /** Each group holds exactly the matching paths of its base, in input
      order, and there is a group for every base some path has. */
  lemma {:induction false} GroupsOfMembers(paths: seq<FilePath>)
    ensures forall i :: 0 <= i < |GroupsOf(paths)| ==> GroupsOf(paths)[i].1 == Members(paths, GroupsOf(paths)[i].0)
    ensures forall k :: Find(GroupsOf(paths), k).None? <==> Members(paths, k) == []
  {
    forall k
      ensures Find(GroupsOf(paths), k).None? <==> Members(paths, k) == []
    {
      GroupsOfKeys(paths, k);
    }
    if paths != [] {
      var n := |paths| - 1;
      GroupsOfMembers(paths[..n]);
      var g := GroupsOf(paths[..n]);
      var c := Classified(paths[n]);
      var r := GroupsOf(paths);
      if c.Some? {
        var k0 := c.value.0;
        assert r == AppendTo(g, k0, (paths[n], c.value.1));
        forall i | 0 <= i < |r|
          ensures r[i].1 == Members(paths, r[i].0)
        {
          if i < |g| {
            assert Members(paths, g[i].0) == Members(paths[..n], g[i].0) + (if g[i].0 == k0 then [(paths[n], c.value.1)] else []);
          } else {
            GroupsOfKeys(paths[..n], k0);
          }
        }
      } else {
        assert r == g;
        forall i | 0 <= i < |r|
          ensures r[i].1 == Members(paths, r[i].0)
        {
          assert Members(paths, g[i].0) == Members(paths[..n], g[i].0);
        }
      }
    }
  }

  /** Every group is non-empty. */
  lemma GroupsNonEmpty(paths: seq<FilePath>)
    ensures forall i :: 0 <= i < |GroupsOf(paths)| ==> GroupsOf(paths)[i].1 != []
  {
    GroupsOfMembers(paths);
  }

  /** `max(groups.keys(), key=lambda k: len(groups[k]))`: the first key
      whose group is largest. */
  function Largest(g: Groups): (r: nat)
    requires g != []
    ensures r < |g|
    ensures forall j :: 0 <= j < |g| ==> |g[j].1| <= |g[r].1|
    ensures forall j :: 0 <= j < r ==> |g[j].1| < |g[r].1|
  {
    if |g| == 1 then 0
    else
      var n := |g| - 1;
      var k := Largest(g[..n]);
      assert forall j :: 0 <= j < n ==> g[..n][j] == g[j];
      if |g[n].1| > |g[k].1| then n else k
  }

  // =====================================================================
  // The document set

  datatype DocumentMetadata = DocumentMetadata(
    filePath: string,
    documentId: string,
    source: string,
    documentType: string)

  datatype DocumentRelationType = CrossReferenced | PrimarySupplementary

  datatype DocumentRelationship = DocumentRelationship(
    fromDoc: string,
    toDoc: string,
    relationshipType: DocumentRelationType,
    references: seq<string>)

  datatype DocumentSet = DocumentSet(
    setId: string,
    primaryDocumentId: string,
    documents: seq<(string, DocumentMetadata)>,
    relationships: seq<DocumentRelationship>,
    processingMetadata: seq<(string, string)>)

  /** The processing metadata of a set found by file names. */
  const PatternMetadata: seq<(string, string)> := [("grouping_method", "pattern_matching")]

  function DocId(key: string, e: Entry): string
  {
    key + "_" + e.1
  }

  function Metadata(key: string, e: Entry): DocumentMetadata
  {
    DocumentMetadata(e.0.text, DocId(key, e), e.0.parentName, e.1)
  }

  /** The `documents` dictionary built from a group. */
  function DocumentsOf(key: string, group: seq<Entry>): (r: seq<(string, DocumentMetadata)>)
    ensures UniqueKeys(r)
  {
    if group == [] then []
    else
      var n := |group| - 1;
      Put(DocumentsOf(key, group[..n]), DocId(key, group[n]), Metadata(key, group[n]))
  }

  /** `group[j]` is the last file of the group with its document id. */
  predicate LastWithId(key: string, group: seq<Entry>, j: int)
  {
    0 <= j < |group| && forall l :: j < l < |group| ==> DocId(key, group[l]) != DocId(key, group[j])
  }

  /** An id occurs in a group iff it occurs before the last file or is the
      last file's. */
  lemma IdOccursSnoc(key: string, group: seq<Entry>, pre: seq<Entry>, id: string)
    requires group != [] && pre == group[..|group| - 1]
    ensures (exists i :: 0 <= i < |group| && DocId(key, group[i]) == id) <==>
            (exists i :: 0 <= i < |pre| && DocId(key, pre[i]) == id) || DocId(key, group[|group| - 1]) == id
  {
    if exists i :: 0 <= i < |group| && DocId(key, group[i]) == id {
      var i :| 0 <= i < |group| && DocId(key, group[i]) == id;
      if i < |pre| {
        assert DocId(key, pre[i]) == id;
      }
    }
    if exists i :: 0 <= i < |pre| && DocId(key, pre[i]) == id {
      var i :| 0 <= i < |pre| && DocId(key, pre[i]) == id;
      assert DocId(key, group[i]) == id;
    }
  }

  /** There is a document for every id of the group and for no other. */
  lemma {:induction false} DocumentsOfKeyList(key: string, group: seq<Entry>)
    ensures forall id :: Find(DocumentsOf(key, group), id).Some? <==>
      exists i :: 0 <= i < |group| && DocId(key, group[i]) == id
  {
    if group != [] {
      var n := |group| - 1;
      var pre := group[..n];
      var d := DocumentsOf(key, pre);
      assert DocumentsOf(key, group) == Put(d, DocId(key, group[n]), Metadata(key, group[n]));
      DocumentsOfKeyList(key, pre);
      forall id
        ensures Find(DocumentsOf(key, group), id).Some? <==> exists i :: 0 <= i < |group| && DocId(key, group[i]) == id
      {
        PutKeys(d, DocId(key, group[n]), Metadata(key, group[n]), id);
        IdOccursSnoc(key, group, pre, id);
      }
    }
  }

  /** A file last with its id before the final one stays last when the final
      file has another id. */
  lemma LastWithIdPrefix(key: string, group: seq<Entry>, pre: seq<Entry>, j: int)
    requires group != [] && pre == group[..|group| - 1]
    requires LastWithId(key, pre, j) && DocId(key, pre[j]) != DocId(key, group[|group| - 1])
    ensures LastWithId(key, group, j) && pre[j] == group[j]
  {
    forall l | j < l < |group|
      ensures DocId(key, group[l]) != DocId(key, group[j])
    {
      if l < |pre| {
        assert pre[l] == group[l];
      }
    }
  }

  /** Under each id is the metadata of the last file with that id. */
  lemma {:induction false} DocumentsOfLast(key: string, group: seq<Entry>)
    ensures forall i :: 0 <= i < |DocumentsOf(key, group)| ==>
      exists j :: LastWithId(key, group, j) && DocumentsOf(key, group)[i] == (DocId(key, group[j]), Metadata(key, group[j]))
  {
    if group != [] {
      var n := |group| - 1;
      var pre := group[..n];
      DocumentsOfLast(key, pre);
      var d := DocumentsOf(key, pre);
      var r := DocumentsOf(key, group);
      var id := DocId(key, group[n]);
      forall i | 0 <= i < |r|
        ensures exists j :: LastWithId(key, group, j) && r[i] == (DocId(key, group[j]), Metadata(key, group[j]))
      {
        if i < |d| && d[i].0 != id {
          var j :| LastWithId(key, pre, j) && d[i] == (DocId(key, pre[j]), Metadata(key, pre[j]));
          LastWithIdPrefix(key, group, pre, j);
        } else {
          assert r[i] == (DocId(key, group[n]), Metadata(key, group[n]));
          assert LastWithId(key, group, n);
        }
      }
    } else {
      assert DocumentsOf(key, group) == [];
    }
  }

  /** The primary id as the loop computes it: an insurance or policy file
      sets it when it is still unset, and so does the first file. */
  function PrimaryAsWritten(key: string, group: seq<Entry>): Option<string>
  {
    if group == [] then None
    else
      var n := |group| - 1;
      var p := PrimaryAsWritten(key, group[..n]);
      if (group[n].1 == "insurance" || group[n].1 == "policy") && p.None? then Some(DocId(key, group[n]))
      else if n == 0 && p.None? then Some(DocId(key, group[n]))
      else p
  }

  /** Whatever the types, the loop settles on the first file. */
  lemma {:induction false} PrimaryIsFirst(key: string, group: seq<Entry>)
    requires group != []
    ensures PrimaryAsWritten(key, group) == Some(DocId(key, group[0]))
  {
    if |group| > 1 {
      var n := |group| - 1;
      PrimaryIsFirst(key, group[..n]);
    }
  }

  predicate IsInsuranceId(id: string)
  {
    Contains(id, "insurance") || Contains(id, "policy")
  }

  predicate IsGuidelineId(id: string)
  {
    Contains(id, "guidelines") || Contains(id, "clinical")
  }

  /** `[x for x in ids if p(x)]`. */
  function Select(ids: seq<string>, p: string -> bool): (r: seq<string>)
    ensures forall x :: x in r <==> x in ids && p(x)
    ensures |r| <= |ids|
  {
    if ids == [] then []
    else
      var n := |ids| - 1;
      var r := Select(ids[..n], p);
      assert ids == ids[..n] + [ids[n]];
      r + (if p(ids[n]) then [ids[n]] else [])
  }

  function CrossRef(a: string, b: string): DocumentRelationship
  {
    DocumentRelationship(a, b, CrossReferenced, [])
  }

  /** One relationship per row of `froms`, each to every id of `tos`. */
  function Cross(froms: seq<string>, tos: seq<string>): (r: seq<DocumentRelationship>)
    ensures |r| == |froms| * |tos|
  {
    if froms == [] then []
    else
      var n := |froms| - 1;
      Cross(froms[..n], tos) + seq(|tos|, j requires 0 <= j < |tos| => CrossRef(froms[n], tos[j]))
  }

  /** The relationships are exactly the pairs of a source and a target,
      all cross-referenced and without references. */
  lemma {:induction false} CrossExactly(froms: seq<string>, tos: seq<string>)
    ensures forall r :: r in Cross(froms, tos) <==>
      r.fromDoc in froms && r.toDoc in tos && r.relationshipType == CrossReferenced && r.references == []
  {
    if froms != [] {
      var n := |froms| - 1;
      CrossExactly(froms[..n], tos);
      assert froms == froms[..n] + [froms[n]];
      var row := seq(|tos|, j requires 0 <= j < |tos| => CrossRef(froms[n], tos[j]));
      forall r: DocumentRelationship | r.fromDoc == froms[n] && r.toDoc in tos && r.relationshipType == CrossReferenced && r.references == []
        ensures r in row
      {
        var j :| 0 <= j < |tos| && tos[j] == r.toDoc;
        assert row[j] == r;
      }
    }
  }

  function Relationships(docs: seq<(string, DocumentMetadata)>): seq<DocumentRelationship>
  {
    Cross(Select(KeyList(docs), IsInsuranceId), Select(KeyList(docs), IsGuidelineId))
  }

  /** What `_group_by_patterns` returns; `hex` stands for the eight random
      hexadecimal digits of the set id. */
  function PatternSet(paths: seq<FilePath>, hex: string): Option<DocumentSet>
  {
    var groups := GroupsOf(paths);
    if groups == [] then None
    else
      var (key, group) := groups[Largest(groups)];
      if |group| < 2 then None
      else
        var docs := DocumentsOf(key, group);
        var primary := PrimaryAsWritten(key, group);
        if primary.None? then None
        else Some(DocumentSet(key + "_set_" + hex, primary.value, docs, Relationships(docs), PatternMetadata))
  }

  /** Every document id is the base, an underscore and the type of some
      file of the group. */
  lemma DocumentIds(key: string, group: seq<Entry>)
    ensures forall i :: 0 <= i < |DocumentsOf(key, group)| ==>
              exists j :: 0 <= j < |group| && DocumentsOf(key, group)[i].0 == key + "_" + group[j].1
  {
    DocumentsOfLast(key, group);
    var docs := DocumentsOf(key, group);
    forall i | 0 <= i < |docs|
      ensures exists j :: 0 <= j < |group| && docs[i].0 == key + "_" + group[j].1
    {
      var j :| LastWithId(key, group, j) && docs[i] == (DocId(key, group[j]), Metadata(key, group[j]));
    }
  }

  /** The relationships pair every insurance/policy id with every
      guidelines/clinical id. */
  lemma RelationshipsExactly(docs: seq<(string, DocumentMetadata)>)
    ensures forall r :: r in Relationships(docs) <==>
              r.fromDoc in KeyList(docs) && IsInsuranceId(r.fromDoc)
              && r.toDoc in KeyList(docs) && IsGuidelineId(r.toDoc)
              && r.relationshipType == CrossReferenced && r.references == []
  {
    CrossExactly(Select(KeyList(docs), IsInsuranceId), Select(KeyList(docs), IsGuidelineId));
  }

  /** The set found is built from a largest group of at least two files:
      its primary document is that group's first file, every document id is
      the base, an underscore and the type, and the relationships are all
      insurance/policy ids against all guidelines/clinical ids. */
  lemma PatternSetSpec(paths: seq<FilePath>, hex: string)
    ensures PatternSet(paths, hex).Some? <==>
      GroupsOf(paths) != [] && |GroupsOf(paths)[Largest(GroupsOf(paths))].1| >= 2
    ensures PatternSet(paths, hex).Some? ==>
      var key: string, group: seq<Entry> := GroupsOf(paths)[Largest(GroupsOf(paths))].0, GroupsOf(paths)[Largest(GroupsOf(paths))].1;
      var s := PatternSet(paths, hex).value;
      && group == Members(paths, key)
      && (forall j :: 0 <= j < |GroupsOf(paths)| ==> |GroupsOf(paths)[j].1| <= |group|)
      && s.primaryDocumentId == key + "_" + group[0].1
      && (forall i :: 0 <= i < |s.documents| ==>
            exists j :: 0 <= j < |group| && s.documents[i].0 == key + "_" + group[j].1)
      && (forall r :: r in s.relationships <==>
            r.fromDoc in KeyList(s.documents) && IsInsuranceId(r.fromDoc)
            && r.toDoc in KeyList(s.documents) && IsGuidelineId(r.toDoc)
            && r.relationshipType == CrossReferenced && r.references == [])
  {
    var groups := GroupsOf(paths);
    if groups != [] {
      GroupsOfMembers(paths);
      var key: string, group: seq<Entry> := groups[Largest(groups)].0, groups[Largest(groups)].1;
      if |group| >= 2 {
        PrimaryIsFirst(key, group);
        DocumentIds(key, group);
        RelationshipsExactly(DocumentsOf(key, group));
      }
    }
  }

  // =====================================================================
  // DocumentSetManager

  /** `_group_by_patterns`. */
  method GroupByPatterns(paths: seq<FilePath>, hex: string) returns (r: Option<DocumentSet>)
    ensures r == PatternSet(paths, hex)
  {
    var groups := CollectGroups(paths);
    if groups == [] {
      return None;
    }
    var largest := Largest(groups);
    var (key, group) := groups[largest];
    if |group| < 2 {
      return None;
    }
    var documents, primary := CollectDocuments(key, group);
    if primary.None? {
      return None;
    }
    var relationships := CrossReference(documents);
    r := Some(DocumentSet(key + "_set_" + hex, primary.value, documents, relationships, PatternMetadata));
  }

  /** The first loop of `_group_by_patterns`. */
  method CollectGroups(paths: seq<FilePath>) returns (groups: Groups)
    ensures groups == GroupsOf(paths)
  {
    groups := [];
    for i := 0 to |paths|
      invariant groups == GroupsOf(paths[..i])
    {
      assert paths[..i + 1][..i] == paths[..i];
      var c := Classified(paths[i]);
      if c.Some? {
        var (base, docType) := c.value;
        groups := AppendTo(groups, base, (paths[i], docType));
      }
    }
    assert paths[..|paths|] == paths;
  }

  /** The loop over the largest group: the documents and the primary id. */
  method CollectDocuments(key: string, group: seq<Entry>)
    returns (documents: seq<(string, DocumentMetadata)>, primary: Option<string>)
    ensures documents == DocumentsOf(key, group)
    ensures primary == PrimaryAsWritten(key, group)
  {
    documents := [];
    primary := None;
    for i := 0 to |group|
      invariant documents == DocumentsOf(key, group[..i])
      invariant primary == PrimaryAsWritten(key, group[..i])
    {
      assert group[..i + 1][..i] == group[..i] && group[..i + 1][i] == group[i];
      assert DocumentsOf(key, group[..i + 1]) ==
             Put(DocumentsOf(key, group[..i]), DocId(key, group[i]), Metadata(key, group[i]));
      assert PrimaryAsWritten(key, group[..i + 1]) ==
             var p := PrimaryAsWritten(key, group[..i]);
             if (group[i].1 == "insurance" || group[i].1 == "policy") && p.None? then Some(DocId(key, group[i]))
             else if i == 0 && p.None? then Some(DocId(key, group[i]))
             else p;
      var (path, docType) := group[i];
      var docId := key + "_" + docType;
      documents := Put(documents, docId, Metadata(key, group[i]));
      if (docType == "insurance" || docType == "policy") && primary.None? {
        primary := Some(docId);
      } else if i == 0 && primary.None? {
        primary := Some(docId);
      }
    }
    assert group[..|group|] == group;
  }

  /** The relationship loops: every insurance/policy id against every
      guidelines/clinical id. */
  method CrossReference(documents: seq<(string, DocumentMetadata)>) returns (relationships: seq<DocumentRelationship>)
    ensures relationships == Relationships(documents)
  {
    var insuranceDocs := Select(KeyList(documents), IsInsuranceId);
    var guidelinesDocs := Select(KeyList(documents), IsGuidelineId);
    relationships := [];
    for i := 0 to |insuranceDocs|
      invariant relationships == Cross(insuranceDocs[..i], guidelinesDocs)
    {
      assert insuranceDocs[..i + 1][..i] == insuranceDocs[..i];
      ghost var before := relationships;
      for j := 0 to |guidelinesDocs|
        invariant relationships == before + seq(j, l requires 0 <= l < j => CrossRef(insuranceDocs[i], guidelinesDocs[l]))
      {
        relationships := relationships + [CrossRef(insuranceDocs[i], guidelinesDocs[j])];
      }
    }
    assert insuranceDocs[..|insuranceDocs|] == insuranceDocs;
  }

  /** `identify_document_set`; `manifest` is the set a `manifest.json` next
      to the first path would load to, when there is one. */
  method IdentifyDocumentSet(paths: Paths, manifest: Option<DocumentSet>, hex: string) returns (r: Option<DocumentSet>)
    ensures paths.OnePath? ==> r.None?
    ensures paths.PathList? && |paths.paths| < 2 ==> r.None?
    ensures paths.PathList? && |paths.paths| >= 2 && manifest.Some? ==> r == manifest
    ensures paths.PathList? && |paths.paths| >= 2 && manifest.None? ==> r == PatternSet(paths.paths, hex)
  {
    if paths.OnePath? {
      return None;
    }
    if |paths.paths| < 2 {
      return None;
    }
    if manifest.Some? {
      return manifest;
    }
    r := GroupByPatterns(paths.paths, hex);
  }

  // =====================================================================
  // Primary document preference

  /** Two files, guidelines first and insurance second: the loop picks the
      guidelines document although an insurance document is present. */
  lemma PrimaryIgnoresInsurance()
    ensures var g := [(FilePath("d/drug_guidelines.txt", "d", "drug_guidelines.txt"), "guidelines"),
                      (FilePath("d/drug_insurance.txt", "d", "drug_insurance.txt"), "insurance")];
            PrimaryAsWritten("drug", g) == Some("drug_guidelines") && g[1].1 == "insurance"
  {
    var g := [(FilePath("d/drug_guidelines.txt", "d", "drug_guidelines.txt"), "guidelines"),
              (FilePath("d/drug_insurance.txt", "d", "drug_insurance.txt"), "insurance")];
    PrimaryIsFirst("drug", g);
    assert DocId("drug", g[0]) == "drug_guidelines";
  }

  /** The preference the comment describes: the first insurance or policy
      file, and the first file when there is none. */
  function PreferredPrimary(key: string, group: seq<Entry>): (r: Option<string>)
    ensures group == [] <==> r.None?
  {
    if group == [] then None
    else
      var i := FirstInsurance(group);
      if i < |group| then Some(DocId(key, group[i])) else Some(DocId(key, group[0]))
  }

  /** Index of the first insurance or policy file (`|group|` if none). */
  function FirstInsurance(group: seq<Entry>): (i: nat)
    ensures i <= |group|
    ensures i < |group| ==> group[i].1 == "insurance" || group[i].1 == "policy"
    ensures forall j :: 0 <= j < i ==> group[j].1 != "insurance" && group[j].1 != "policy"
  {
    if group == [] then 0
    else if group[0].1 == "insurance" || group[0].1 == "policy" then 0
    else 1 + FirstInsurance(group[1..])
  }

  /** With the preference, the primary is an insurance or policy document
      whenever the group has one, and otherwise the first file. */
  lemma PreferredPrimarySpec(key: string, group: seq<Entry>)
    requires group != []
    ensures (exists j :: 0 <= j < |group| && (group[j].1 == "insurance" || group[j].1 == "policy")) ==>
      exists j :: 0 <= j < |group| && (group[j].1 == "insurance" || group[j].1 == "policy")
        && PreferredPrimary(key, group) == Some(DocId(key, group[j]))
        && forall l :: 0 <= l < j ==> group[l].1 != "insurance" && group[l].1 != "policy"
    ensures (forall j :: 0 <= j < |group| ==> group[j].1 != "insurance" && group[j].1 != "policy") ==>
      PreferredPrimary(key, group) == Some(DocId(key, group[0]))
  {
  }
}
