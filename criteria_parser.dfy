/** The rule-based criteria parser: classification of one criterion by
    phrase patterns (exclusionary before documentation before threshold,
    required otherwise), the parse of a list of criterion texts into
    numbered criteria and four category lists, and the enhancement with
    groups, an evaluation order and a text-overlap dependency map. */
module CriteriaParser {
  import opened Base

  // =====================================================================
  // Criterion types

  const Exclusionary := "EXCLUSIONARY"
  const Required := "REQUIRED"
  const Documentation := "DOCUMENTATION"
  const Threshold := "THRESHOLD"

  const ExclusionaryPatterns: seq<string> :=
    ["must not", "no history of", "absence of", "without",
     "contraindicated", "prohibited", "should not have", "cannot have"]

  const DocumentationPatterns: seq<string> :=
    ["documentation", "must provide", "submit", "records", "evidence", "proof", "report"]

  /** The alternatives of the eight threshold patterns that are plain phrases. */
  const ThresholdPhrases: seq<string> :=
    ["≥", ">=", "greater than or equal", "≤", "<=", "less than or equal",
     ">", "greater than", "<", "less than",
     "between", "at least", "minimum of", "maximum of"]

  /** Some pattern of `pats` occurs in `s`. */
  predicate Hits(s: string, pats: seq<string>)
  {
    exists i :: 0 <= i < |pats| && Contains(s, pats[i])
  }

  /** The pattern scan: the patterns are tried in turn. */
  function MatchesAny(s: string, pats: seq<string>): (r: bool)
    ensures r <==> Hits(s, pats)
  {
    if pats == [] then false
    else if Contains(s, pats[0]) then true
    else
      var r := MatchesAny(s, pats[1..]);
      assert Hits(s, pats[1..]) ==> Hits(s, pats) by {
        if Hits(s, pats[1..]) {
          var i :| 0 <= i < |pats| - 1 && Contains(s, pats[1..][i]);
          assert pats[i + 1] == pats[1..][i];
        }
      }
      assert Hits(s, pats) ==> Hits(s, pats[1..]) by {
        if Hits(s, pats) {
          var i :| 0 <= i < |pats| && Contains(s, pats[i]);
          assert i != 0;
          assert pats[1..][i - 1] == pats[i];
        }
      }
      r
  }

  /** `_determine_criterion_type`. `digits` says whether the lowered text
      matches one of the three threshold patterns built on `\d` (a number
      of years, an age followed by a number). */
  function CriterionType(text: string, digits: string -> bool): string
  {
    var t := Lower(text);
    if MatchesAny(t, ExclusionaryPatterns) then Exclusionary
    else if MatchesAny(t, DocumentationPatterns) then Documentation
    else if MatchesAny(t, ThresholdPhrases) || digits(t) then Threshold
    else Required
  }

  /** The type is exclusionary exactly when an exclusionary phrase occurs,
      documentation exactly when a documentation phrase but no exclusionary
      one does, threshold exactly when neither does but a threshold phrase or
      number does, and required otherwise. */
  lemma CriterionTypeCases(text: string, digits: string -> bool)
    ensures CriterionType(text, digits) == Exclusionary <==> Hits(Lower(text), ExclusionaryPatterns)
    ensures CriterionType(text, digits) == Documentation <==>
      !Hits(Lower(text), ExclusionaryPatterns) && Hits(Lower(text), DocumentationPatterns)
    ensures CriterionType(text, digits) == Threshold <==>
      !Hits(Lower(text), ExclusionaryPatterns) && !Hits(Lower(text), DocumentationPatterns)
      && (Hits(Lower(text), ThresholdPhrases) || digits(Lower(text)))
    ensures CriterionType(text, digits) == Required <==>
      !Hits(Lower(text), ExclusionaryPatterns) && !Hits(Lower(text), DocumentationPatterns)
      && !Hits(Lower(text), ThresholdPhrases) && !digits(Lower(text))
  {
    var t := Lower(text);
    var ex, doc, thr := MatchesAny(t, ExclusionaryPatterns), MatchesAny(t, DocumentationPatterns), MatchesAny(t, ThresholdPhrases);
  }

  /** An exclusionary phrase decides the type whatever else the text says. */
  lemma ExclusionaryFirstType(text: string, digits: string -> bool, i: nat)
    requires i < |ExclusionaryPatterns| && Contains(Lower(text), ExclusionaryPatterns[i])
    ensures CriterionType(text, digits) == Exclusionary
  {
    CriterionTypeCases(text, digits);
  }

  // =====================================================================
  // Criteria

  /** A criterion dictionary: `id` is always present; a missing
      `original_text`, `description` or `type` is None, missing
      `conditions` the empty list. */
  datatype Criterion = Criterion(
    id: string,
    originalText: Option<string>,
    description: Option<string>,
    kind: Option<string>,
    conditions: seq<string>)

  /** The four categories of `parse_criteria_text`, which are also the four
      groups of `_group_related_criteria`. */
  datatype Class = Req | Excl | Doc | Thr

  /** Both the category chain and the grouping chain: the three named
      types, everything else (a missing type included) required. */
  function ClassOf(kind: Option<string>): Class
  {
    if kind == Some(Exclusionary) then Excl
    else if kind == Some(Documentation) then Doc
    else if kind == Some(Threshold) then Thr
    else Req
  }

  function InClass(c: Class): Criterion -> bool
  {
    (x: Criterion) => ClassOf(x.kind) == c
  }

  function HasKind(k: Option<string>): Criterion -> bool
  {
    (x: Criterion) => x.kind == k
  }

  predicate UniqueIds(cl: seq<Criterion>)
  {
    forall i, j :: 0 <= i < j < |cl| ==> cl[i].id != cl[j].id
  }

  /** `[c["id"] for c in cl if p(c)]`. */
  function IdsWhere(cl: seq<Criterion>, p: Criterion -> bool): (r: seq<string>)
    ensures |r| <= |cl|
  {
    if cl == [] then []
    else
      var n := |cl| - 1;
      IdsWhere(cl[..n], p) + (if p(cl[n]) then [cl[n].id] else [])
  }

  lemma UniqueAt(cl: seq<Criterion>, i: nat, j: nat)
    requires UniqueIds(cl) && i < |cl| && j < |cl| && cl[i].id == cl[j].id
    ensures i == j
  {
    if i < j || j < i {
      assert false;
    }
  }

  /** The ids kept are exactly those of the criteria that pass. */
  lemma {:induction false} IdsWhereMembers(cl: seq<Criterion>, p: Criterion -> bool)
    ensures forall x :: x in IdsWhere(cl, p) <==> exists i :: 0 <= i < |cl| && cl[i].id == x && p(cl[i])
  {
    if cl != [] {
      var n := |cl| - 1;
      IdsWhereMembers(cl[..n], p);
      assert forall i :: 0 <= i < n ==> cl[..n][i] == cl[i];
    }
  }

  /** With unique ids, a criterion's id occurs in the list once if it passes
      and not at all otherwise. */
  lemma {:induction false} IdsWhereCount(cl: seq<Criterion>, p: Criterion -> bool, i: nat)
    requires UniqueIds(cl) && i < |cl|
    ensures multiset(IdsWhere(cl, p))[cl[i].id] == if p(cl[i]) then 1 else 0
  {
    var n := |cl| - 1;
    assert UniqueIds(cl[..n]);
    if i < n {
      assert cl[..n][i] == cl[i];
      IdsWhereCount(cl[..n], p, i);
    } else {
      IdsWhereMembers(cl[..n], p);
      assert forall k :: 0 <= k < n ==> cl[..n][k].id != cl[i].id;
      assert cl[i].id !in IdsWhere(cl[..n], p);
      assert IdsWhere(cl, p) == IdsWhere(cl[..n], p) + (if p(cl[n]) then [cl[n].id] else []);
    }
  }

  /** With unique ids, membership of a criterion's id is the test itself. */
  lemma IdsWhereUnique(cl: seq<Criterion>, p: Criterion -> bool, i: nat)
    requires UniqueIds(cl) && i < |cl|
    ensures cl[i].id in IdsWhere(cl, p) <==> p(cl[i])
  {
    IdsWhereCount(cl, p, i);
  }

  /** Every criterion falls in exactly one of the four classes, so the four
      class lists together are as long as the input. */
  lemma {:induction false} ClassesPartition(cl: seq<Criterion>)
    ensures |IdsWhere(cl, InClass(Req))| + |IdsWhere(cl, InClass(Excl))|
          + |IdsWhere(cl, InClass(Doc))| + |IdsWhere(cl, InClass(Thr))| == |cl|
  {
    if cl != [] {
      ClassesPartition(cl[..|cl| - 1]);
    }
  }

  // =====================================================================
  // parse_criteria_text

  function CriterionId(n: nat): string
  {
    "criterion_" + NatToString(n)
  }

  lemma {:induction false} NatToStringInjective(a: nat, b: nat)
    requires NatToString(a) == NatToString(b)
    ensures a == b
  {
    var s := NatToString(a);
    if a < 10 {
      assert DigitChar(a) == s[0] == DigitChar(b);
    } else {
      assert NatToString(a / 10) == s[..|s| - 1] == NatToString(b / 10);
      assert DigitChar(a % 10) == s[|s| - 1] == DigitChar(b % 10);
      NatToStringInjective(a / 10, b / 10);
    }
  }

  lemma CriterionIdInjective(a: nat, b: nat)
    requires CriterionId(a) == CriterionId(b)
    ensures a == b
  {
    assert NatToString(a) == CriterionId(a)[10..] == CriterionId(b)[10..] == NatToString(b);
    NatToStringInjective(a, b);
  }

  /** `_parse_single_criterion`. The description and the medical
      conditions come out of regular expressions and are inputs here. */
  function ParseSingle(text: string, id: string, digits: string -> bool,
                       describe: string -> string, conditionsOf: string -> seq<string>): Criterion
  {
    Criterion(id, Some(text), Some(describe(text)), Some(CriterionType(text, digits)), conditionsOf(text))
  }

  datatype Parsed = Parsed(
    criteriaList: seq<Criterion>,
    logicalStructure: string,
    exclusionary: seq<string>,
    required: seq<string>,
    documentation: seq<string>,
    threshold: seq<string>)

  function Category(p: Parsed, c: Class): seq<string>
  {
    match c
    case Req => p.required
    case Excl => p.exclusionary
    case Doc => p.documentation
    case Thr => p.threshold
  }

  /** One more criterion extends each class list by its id exactly when it
      belongs to that class. */
  lemma IdsWhereSnoc(cl: seq<Criterion>, x: Criterion, p: Criterion -> bool)
    ensures IdsWhere(cl + [x], p) == IdsWhere(cl, p) + (if p(x) then [x.id] else [])
  {
    assert (cl + [x])[..|cl|] == cl;
  }

  /** The criteria `parse_criteria_text` builds from the items, in order. */
  predicate ParsedFrom(cl: seq<Criterion>, items: seq<string>, digits: string -> bool,
                       describe: string -> string, conditionsOf: string -> seq<string>)
  {
    |cl| == |items| &&
    forall k :: 0 <= k < |items| ==> cl[k] == ParseSingle(items[k], CriterionId(k + 1), digits, describe, conditionsOf)
  }

  /** `cl` holds the parses of the first `|cl|` items. */
  predicate ParsedPrefix(cl: seq<Criterion>, items: seq<string>, digits: string -> bool,
                         describe: string -> string, conditionsOf: string -> seq<string>)
  {
    |cl| <= |items| &&
    forall k :: 0 <= k < |cl| ==> cl[k] == ParseSingle(items[k], CriterionId(k + 1), digits, describe, conditionsOf)
  }

  lemma ParsedPrefixSnoc(cl: seq<Criterion>, items: seq<string>, digits: string -> bool,
                         describe: string -> string, conditionsOf: string -> seq<string>, criterion: Criterion)
    requires ParsedPrefix(cl, items, digits, describe, conditionsOf) && |cl| < |items|
    requires criterion == ParseSingle(items[|cl|], CriterionId(|cl| + 1), digits, describe, conditionsOf)
    ensures ParsedPrefix(cl + [criterion], items, digits, describe, conditionsOf)
  {
    var cl' := cl + [criterion];
    forall k | 0 <= k < |cl'|
      ensures cl'[k] == ParseSingle(items[k], CriterionId(k + 1), digits, describe, conditionsOf)
    {
      if k < |cl| {
        assert cl'[k] == cl[k];
      }
    }
  }

  /** The four id lists are those of `cl`'s classes. */
  predicate Filed(cl: seq<Criterion>, ex: seq<string>, rq: seq<string>, dc: seq<string>, th: seq<string>)
  {
    && ex == IdsWhere(cl, InClass(Excl)) && rq == IdsWhere(cl, InClass(Req))
    && dc == IdsWhere(cl, InClass(Doc)) && th == IdsWhere(cl, InClass(Thr))
  }

  /** The ids `criterion_1`, `criterion_2`, … are distinct, so each criterion
      sits in exactly the category of its type. */
  lemma ParsedCategories(cl: seq<Criterion>, items: seq<string>, digits: string -> bool,
                         describe: string -> string, conditionsOf: string -> seq<string>)
    requires ParsedFrom(cl, items, digits, describe, conditionsOf)
    ensures UniqueIds(cl)
    ensures forall i, c :: 0 <= i < |items| ==>
      (cl[i].id in IdsWhere(cl, InClass(c)) <==> c == ClassOf(Some(CriterionType(items[i], digits))))
  {
    forall i, j | 0 <= i < j < |cl|
      ensures cl[i].id != cl[j].id
    {
      if cl[i].id == cl[j].id {
        CriterionIdInjective(i + 1, j + 1);
      }
    }
    forall i, c | 0 <= i < |items|
      ensures cl[i].id in IdsWhere(cl, InClass(c)) <==> c == ClassOf(Some(CriterionType(items[i], digits)))
    {
      IdsWhereUnique(cl, InClass(c), i);
    }
  }

  /** Filing one parsed criterion: its id joins the list of its class. */
  method File(cl: seq<Criterion>, ex: seq<string>, rq: seq<string>, dc: seq<string>, th: seq<string>, criterion: Criterion)
    returns (ex': seq<string>, rq': seq<string>, dc': seq<string>, th': seq<string>)
    requires Filed(cl, ex, rq, dc, th)
    ensures Filed(cl + [criterion], ex', rq', dc', th')
  {
    IdsWhereSnoc(cl, criterion, InClass(Excl));
    IdsWhereSnoc(cl, criterion, InClass(Req));
    IdsWhereSnoc(cl, criterion, InClass(Doc));
    IdsWhereSnoc(cl, criterion, InClass(Thr));
    ex', rq', dc', th' := ex, rq, dc, th;
    if criterion.kind == Some(Exclusionary) {
      ex' := ex + [criterion.id];
    } else if criterion.kind == Some(Documentation) {
      dc' := dc + [criterion.id];
    } else if criterion.kind == Some(Threshold) {
      th' := th + [criterion.id];
    } else {
      rq' := rq + [criterion.id];
    }
  }

  /** The loop of `parse_criteria_text`: parse each item and file its id
      under its type. */
  method ParseItems(items: seq<string>, digits: string -> bool,
                    describe: string -> string, conditionsOf: string -> seq<string>)
    returns (cl: seq<Criterion>, ex: seq<string>, rq: seq<string>, dc: seq<string>, th: seq<string>)
    ensures ParsedFrom(cl, items, digits, describe, conditionsOf)
    ensures ex == IdsWhere(cl, InClass(Excl)) && rq == IdsWhere(cl, InClass(Req))
    ensures dc == IdsWhere(cl, InClass(Doc)) && th == IdsWhere(cl, InClass(Thr))
  {
    cl, ex, rq, dc, th := [], [], [], [], [];
    for i := 0 to |items|
      invariant |cl| == i && ParsedPrefix(cl, items, digits, describe, conditionsOf)
      invariant Filed(cl, ex, rq, dc, th)
    {
      var criterion := ParseSingle(items[i], CriterionId(i + 1), digits, describe, conditionsOf);
      ex, rq, dc, th := File(cl, ex, rq, dc, th, criterion);
      ParsedPrefixSnoc(cl, items, digits, describe, conditionsOf, criterion);
      cl := cl + [criterion];
    }
  }

  /** `parse_criteria_text` over the items `_split_criteria` produced. */
  method ParseCriteriaText(items: seq<string>, digits: string -> bool,
                           describe: string -> string, conditionsOf: string -> seq<string>)
    returns (p: Parsed)
    ensures |p.criteriaList| == |items|
    ensures forall i :: 0 <= i < |items| ==>
      p.criteriaList[i] == ParseSingle(items[i], CriterionId(i + 1), digits, describe, conditionsOf)
    ensures p.logicalStructure == "AND"
    ensures UniqueIds(p.criteriaList)
    ensures forall c :: Category(p, c) == IdsWhere(p.criteriaList, InClass(c))
    ensures forall i, c :: 0 <= i < |items| ==>
      (p.criteriaList[i].id in Category(p, c) <==> c == ClassOf(Some(CriterionType(items[i], digits))))
    ensures |p.exclusionary| + |p.required| + |p.documentation| + |p.threshold| == |items|
  {
    var cl, ex, rq, dc, th := ParseItems(items, digits, describe, conditionsOf);
    p := Parsed(cl, "AND", ex, rq, dc, th);
    ParsedCategories(cl, items, digits, describe, conditionsOf);
    ClassesPartition(cl);
    assert forall c :: Category(p, c) == IdsWhere(cl, InClass(c));
  }

  /** The cleanup at the end of `_split_criteria`: the fragments longer than ten
      characters once `clean` (`str.strip`) is applied, in order. */
  function LongFragments(pieces: seq<string>, clean: string -> string): (r: seq<string>)
    ensures |r| <= |pieces|
  {
    if pieces == [] then []
    else
      var n := |pieces| - 1;
      LongFragments(pieces[..n], clean) + (if |clean(pieces[n])| > 10 then [clean(pieces[n])] else [])
  }

  /** Only short fragments leave nothing. */
  lemma {:induction false} LongFragmentsEmpty(pieces: seq<string>, clean: string -> string)
    ensures LongFragments(pieces, clean) == [] <==> forall i :: 0 <= i < |pieces| ==> |clean(pieces[i])| <= 10
  {
    if pieces != [] {
      var n := |pieces| - 1;
      var pre := pieces[..n];
      LongFragmentsEmpty(pre, clean);
      assert forall i :: 0 <= i < n ==> pre[i] == pieces[i];
      assert LongFragments(pieces, clean) == [] <==> LongFragments(pre, clean) == [] && |clean(pieces[n])| <= 10;
    }
  }

  /** What is kept is long and is a cleaned fragment. */
  lemma {:induction false} LongFragmentsKept(pieces: seq<string>, clean: string -> string)
    ensures forall k :: 0 <= k < |LongFragments(pieces, clean)| ==>
      |LongFragments(pieces, clean)[k]| > 10 && exists i :: 0 <= i < |pieces| && LongFragments(pieces, clean)[k] == clean(pieces[i])
  {
    if pieces != [] {
      var n := |pieces| - 1;
      var pre := pieces[..n];
      LongFragmentsKept(pre, clean);
      var r := LongFragments(pieces, clean);
      assert r == LongFragments(pre, clean) + (if |clean(pieces[n])| > 10 then [clean(pieces[n])] else []);
      forall k | 0 <= k < |r|
        ensures |r[k]| > 10 && exists i :: 0 <= i < |pieces| && r[k] == clean(pieces[i])
      {
        if k < |LongFragments(pre, clean)| {
          var i :| 0 <= i < n && LongFragments(pre, clean)[k] == clean(pre[i]);
          assert r[k] == clean(pieces[i]);
        }
      }
    }
  }

  /** The non-numbered path of `_split_criteria`, given the fragments the
      splitting patterns produced: the long fragments, or the whole stripped
      text when there are none. */
  method SplitCriteriaFallback(text: string, pieces: seq<string>) returns (items: seq<string>)
    ensures items != []
    ensures (forall i :: 0 <= i < |pieces| ==> |Strip(pieces[i])| <= 10) ==> items == [Strip(text)]
    ensures (exists i :: 0 <= i < |pieces| && |Strip(pieces[i])| > 10) ==>
      items == LongFragments(pieces, Strip) && forall k :: 0 <= k < |items| ==> |items[k]| > 10
  {
    var cleaned: seq<string> := [];
    for i := 0 to |pieces|
      invariant cleaned == LongFragments(pieces[..i], Strip)
    {
      assert pieces[..i + 1][..i] == pieces[..i];
      var item := Strip(pieces[i]);
      if item != [] && |item| > 10 {
        cleaned := cleaned + [item];
      }
    }
    assert pieces[..|pieces|] == pieces;
    LongFragmentsEmpty(pieces, Strip);
    LongFragmentsKept(pieces, Strip);
    items := if cleaned != [] then cleaned else [Strip(text)];
  }

  // =====================================================================
  // _determine_evaluation_order

  /** The five kinds exclude one another, so together they pick each
      criterion at most once. */
  lemma {:induction false} OrderedCount(cl: seq<Criterion>)
    ensures |IdsWhere(cl, HasKind(Some(Exclusionary)))| + |IdsWhere(cl, HasKind(Some(Required)))|
            + |IdsWhere(cl, HasKind(None))| + |IdsWhere(cl, HasKind(Some(Threshold)))|
            + |IdsWhere(cl, HasKind(Some(Documentation)))| <= |cl|
  {
    if cl != [] {
      OrderedCount(cl[..|cl| - 1]);
    }
  }

  /** Exclusionary, required, untyped, threshold, documentation. */
  function EvaluationOrder(cl: seq<Criterion>): (r: seq<string>)
    ensures |r| <= |cl|
  {
    OrderedCount(cl);
    IdsWhere(cl, HasKind(Some(Exclusionary))) + IdsWhere(cl, HasKind(Some(Required)))
    + IdsWhere(cl, HasKind(None)) + IdsWhere(cl, HasKind(Some(Threshold)))
    + IdsWhere(cl, HasKind(Some(Documentation)))
  }

  /** The types the evaluation order knows. */
  predicate Ordered(kind: Option<string>)
  {
    kind == Some(Exclusionary) || kind == Some(Required) || kind == None
    || kind == Some(Threshold) || kind == Some(Documentation)
  }

  /** An id is ordered iff some criterion with that id has a known type;
      criteria of any other type are left out. */
  lemma EvaluationOrderMembers(cl: seq<Criterion>)
    ensures forall x :: x in EvaluationOrder(cl) <==>
      exists i :: 0 <= i < |cl| && cl[i].id == x && Ordered(cl[i].kind)
  {
    IdsWhereMembers(cl, HasKind(Some(Exclusionary)));
    IdsWhereMembers(cl, HasKind(Some(Required)));
    IdsWhereMembers(cl, HasKind(None));
    IdsWhereMembers(cl, HasKind(Some(Threshold)));
    IdsWhereMembers(cl, HasKind(Some(Documentation)));
  }

  /** With unique ids, each criterion of a known type is ordered exactly
      once and every other criterion not at all. */
  lemma EvaluationOrderOnce(cl: seq<Criterion>, i: nat)
    requires UniqueIds(cl) && i < |cl|
    ensures multiset(EvaluationOrder(cl))[cl[i].id] == if Ordered(cl[i].kind) then 1 else 0
  {
    IdsWhereCount(cl, HasKind(Some(Exclusionary)), i);
    IdsWhereCount(cl, HasKind(Some(Required)), i);
    IdsWhereCount(cl, HasKind(None), i);
    IdsWhereCount(cl, HasKind(Some(Threshold)), i);
    IdsWhereCount(cl, HasKind(Some(Documentation)), i);
  }

  predicate IsExclusionaryId(cl: seq<Criterion>, x: string)
  {
    exists k :: 0 <= k < |cl| && cl[k].id == x && cl[k].kind == Some(Exclusionary)
  }

  /** With unique ids, an id picked by one of the four later filters does
      not belong to an exclusionary criterion. */
  lemma RestNotExclusionary(cl: seq<Criterion>, rest: seq<string>)
    requires UniqueIds(cl)
    requires rest == IdsWhere(cl, HasKind(Some(Required))) + IdsWhere(cl, HasKind(None))
      + IdsWhere(cl, HasKind(Some(Threshold))) + IdsWhere(cl, HasKind(Some(Documentation)))
    ensures forall k :: 0 <= k < |cl| && cl[k].id in rest ==> cl[k].kind != Some(Exclusionary)
  {
    IdsWhereMembers(cl, HasKind(Some(Required)));
    IdsWhereMembers(cl, HasKind(None));
    IdsWhereMembers(cl, HasKind(Some(Threshold)));
    IdsWhereMembers(cl, HasKind(Some(Documentation)));
    forall k | 0 <= k < |cl| && cl[k].id in rest
      ensures cl[k].kind != Some(Exclusionary)
    {
      var x := cl[k].id;
      if x in IdsWhere(cl, HasKind(Some(Required))) {
        var k2 :| 0 <= k2 < |cl| && cl[k2].id == x && HasKind(Some(Required))(cl[k2]);
        UniqueAt(cl, k, k2);
      } else if x in IdsWhere(cl, HasKind(None)) {
        var k2 :| 0 <= k2 < |cl| && cl[k2].id == x && HasKind(None)(cl[k2]);
        UniqueAt(cl, k, k2);
      } else if x in IdsWhere(cl, HasKind(Some(Threshold))) {
        var k2 :| 0 <= k2 < |cl| && cl[k2].id == x && HasKind(Some(Threshold))(cl[k2]);
        UniqueAt(cl, k, k2);
      } else {
        assert x in IdsWhere(cl, HasKind(Some(Documentation)));
        var k2 :| 0 <= k2 < |cl| && cl[k2].id == x && HasKind(Some(Documentation))(cl[k2]);
        UniqueAt(cl, k, k2);
      }
    }
  }

  /** Fail-fast order: with unique ids, every exclusionary id comes before
      every other ordered id. */
  lemma ExclusionaryFirst(cl: seq<Criterion>)
    requires UniqueIds(cl)
    ensures forall i, j ::
      0 <= i < |EvaluationOrder(cl)| && 0 <= j < |EvaluationOrder(cl)| &&
      IsExclusionaryId(cl, EvaluationOrder(cl)[i]) && !IsExclusionaryId(cl, EvaluationOrder(cl)[j])
      ==> i < j
  {
    var r := EvaluationOrder(cl);
    var ex := IdsWhere(cl, HasKind(Some(Exclusionary)));
    var rest := IdsWhere(cl, HasKind(Some(Required))) + IdsWhere(cl, HasKind(None))
      + IdsWhere(cl, HasKind(Some(Threshold))) + IdsWhere(cl, HasKind(Some(Documentation)));
    IdsWhereMembers(cl, HasKind(Some(Exclusionary)));
    RestNotExclusionary(cl, rest);
    assert r == ex + rest;
    forall p | 0 <= p < |ex|
      ensures IsExclusionaryId(cl, r[p])
    {
      assert r[p] == ex[p] && ex[p] in ex;
      var k :| 0 <= k < |cl| && cl[k].id == ex[p] && HasKind(Some(Exclusionary))(cl[k]);
      assert cl[k].kind == Some(Exclusionary);
    }
    forall p | |ex| <= p < |r|
      ensures !IsExclusionaryId(cl, r[p])
    {
      assert r[p] == rest[p - |ex|];
    }
  }

  // =====================================================================
  // _group_related_criteria

  datatype Groups = Groups(
    eligibility: seq<string>,
    contraindications: seq<string>,
    documentation: seq<string>,
    clinicalParameters: seq<string>)

  function Group(g: Groups, c: Class): seq<string>
  {
    match c
    case Req => g.eligibility
    case Excl => g.contraindications
    case Doc => g.documentation
    case Thr => g.clinicalParameters
  }

  /** The groups as the class lists of the criteria. */
  function GroupsOf(cl: seq<Criterion>): Groups
  {
    Groups(IdsWhere(cl, InClass(Req)), IdsWhere(cl, InClass(Excl)),
           IdsWhere(cl, InClass(Doc)), IdsWhere(cl, InClass(Thr)))
  }

  /** One more criterion joins the group of its class. */
  lemma GroupsOfSnoc(cl: seq<Criterion>, x: Criterion)
    ensures GroupsOf(cl + [x]) ==
              var g := GroupsOf(cl);
              match ClassOf(x.kind)
              case Excl => g.(contraindications := g.contraindications + [x.id])
              case Doc => g.(documentation := g.documentation + [x.id])
              case Thr => g.(clinicalParameters := g.clinicalParameters + [x.id])
              case Req => g.(eligibility := g.eligibility + [x.id])
  {
    IdsWhereSnoc(cl, x, InClass(Excl));
    IdsWhereSnoc(cl, x, InClass(Req));
    IdsWhereSnoc(cl, x, InClass(Doc));
    IdsWhereSnoc(cl, x, InClass(Thr));
  }

  /** The groups partition the criteria: untyped ones count as eligibility,
      and with distinct ids each criterion is in the group of its type only. */
  lemma GroupsOfFacts(cl: seq<Criterion>)
    ensures var g := GroupsOf(cl);
            |g.eligibility| + |g.contraindications| + |g.documentation| + |g.clinicalParameters| == |cl|
    ensures forall i :: 0 <= i < |cl| && cl[i].kind == None ==> cl[i].id in GroupsOf(cl).eligibility
    ensures UniqueIds(cl) ==> forall i, c :: 0 <= i < |cl| ==> (cl[i].id in Group(GroupsOf(cl), c) <==> c == ClassOf(cl[i].kind))
  {
    ClassesPartition(cl);
    IdsWhereMembers(cl, InClass(Req));
    if UniqueIds(cl) {
      forall i, c | 0 <= i < |cl|
        ensures cl[i].id in Group(GroupsOf(cl), c) <==> c == ClassOf(cl[i].kind)
      {
        IdsWhereUnique(cl, InClass(c), i);
      }
    }
  }

  method GroupRelatedCriteria(cl: seq<Criterion>) returns (g: Groups)
    ensures g == GroupsOf(cl)
    ensures |g.eligibility| + |g.contraindications| + |g.documentation| + |g.clinicalParameters| == |cl|
    ensures forall i :: 0 <= i < |cl| && cl[i].kind == None ==> cl[i].id in g.eligibility
    ensures UniqueIds(cl) ==> forall i, c :: 0 <= i < |cl| ==> (cl[i].id in Group(g, c) <==> c == ClassOf(cl[i].kind))
  {
    g := Groups([], [], [], []);
    for i := 0 to |cl|
      invariant g == GroupsOf(cl[..i])
    {
      assert cl[..i + 1] == cl[..i] + [cl[i]];
      GroupsOfSnoc(cl[..i], cl[i]);
      var criterion := cl[i];
      var criterionType := if criterion.kind.Some? then criterion.kind.value else Required;
      if criterionType == Exclusionary {
        g := g.(contraindications := g.contraindications + [criterion.id]);
      } else if criterionType == Documentation {
        g := g.(documentation := g.documentation + [criterion.id]);
      } else if criterionType == Threshold {
        g := g.(clinicalParameters := g.clinicalParameters + [criterion.id]);
      } else {
        g := g.(eligibility := g.eligibility + [criterion.id]);
      }
    }
    assert cl[..|cl|] == cl;
    GroupsOfFacts(cl);
  }

  // =====================================================================
  // _build_dependency_map

  /** `c.get("original_text", c.get("description", ""))`. */
  function TextOf(c: Criterion): string
  {
    if c.originalText.Some? then c.originalText.value
    else if c.description.Some? then c.description.value
    else ""
  }

  /** `c` depends on `o` when one of `o`'s conditions, or `o`'s whole text
      if longer than five characters, occurs in `c`'s text (all lowered). */
  predicate DependsOn(c: Criterion, o: Criterion)
  {
    var ct := Lower(TextOf(c));
    var ot := Lower(TextOf(o));
    (o.conditions != [] && exists k :: 0 <= k < |o.conditions| && Contains(ct, Lower(o.conditions[k])))
    || (ot != [] && |ot| > 5 && Contains(ct, ot))
  }

  function Needs(c: Criterion): Criterion -> bool
  {
    (o: Criterion) => o.id != c.id && DependsOn(c, o)
  }

  /** The ids `c` depends on, in list order. */
  function Dependencies(cl: seq<Criterion>, c: Criterion): seq<string>
  {
    IdsWhere(cl, Needs(c))
  }

  /** No criterion after `cl[k]` and before position `n` has its id. */
  predicate LastOfId(cl: seq<Criterion>, k: nat, n: nat)
    requires k < |cl|
  {
    forall j :: k < j < n && j < |cl| ==> cl[j].id != cl[k].id
  }

  /** A key per criterion id; under each the dependencies of the last
      criterion with that id (a later entry overwrites an earlier one). */
  ghost predicate IsDependencyMap(cl: seq<Criterion>, m: map<string, seq<string>>)
  {
    (forall x :: x in m <==> exists i :: 0 <= i < |cl| && cl[i].id == x)
    && forall i :: 0 <= i < |cl| && LastOfId(cl, i, |cl|) ==> cl[i].id in m && m[cl[i].id] == Dependencies(cl, cl[i])
  }

  /** Every dependency is the id of another criterion. */
  lemma DependenciesOthers(cl: seq<Criterion>, c: Criterion)
    ensures forall d :: d in Dependencies(cl, c) ==> d != c.id && exists j :: 0 <= j < |cl| && cl[j].id == d
  {
    IdsWhereMembers(cl, Needs(c));
  }

  /** The inner loop of `_build_dependency_map` for one criterion. */
  method CollectDependencies(cl: seq<Criterion>, criterion: Criterion) returns (dependencies: seq<string>)
    ensures dependencies == Dependencies(cl, criterion)
  {
    dependencies := [];
    for j := 0 to |cl|
      invariant dependencies == IdsWhere(cl[..j], Needs(criterion))
    {
      var other := cl[j];
      assert cl[..j + 1] == cl[..j] + [other];
      IdsWhereSnoc(cl[..j], other, Needs(criterion));
      if other.id != criterion.id && DependsOn(criterion, other) {
        dependencies := dependencies + [other.id];
      }
    }
    assert cl[..|cl|] == cl;
  }

  /** The keys after the first `i` criteria: their ids. */
  ghost predicate KeysSoFar(cl: seq<Criterion>, m: map<string, seq<string>>, i: nat)
  {
    forall x :: x in m <==> exists k :: 0 <= k < i && i <= |cl| && cl[k].id == x
  }

  /** The last criterion so far with each id decides its value. */
  ghost predicate LastSoFar(cl: seq<Criterion>, m: map<string, seq<string>>, i: nat)
  {
    forall k :: 0 <= k < i && k < |cl| && LastOfId(cl, k, i) ==> cl[k].id in m && m[cl[k].id] == Dependencies(cl, cl[k])
  }

  /** Every value is the dependency list of some criterion so far. */
  ghost predicate ValuesSoFar(cl: seq<Criterion>, m: map<string, seq<string>>, i: nat)
  {
    forall x :: x in m ==> exists k :: 0 <= k < i && k < |cl| && cl[k].id == x && m[x] == Dependencies(cl, cl[k])
  }

  /** The map after the first `i` criteria. */
  ghost predicate MapSoFar(cl: seq<Criterion>, m: map<string, seq<string>>, i: nat)
  {
    i <= |cl| && KeysSoFar(cl, m, i) && LastSoFar(cl, m, i) && ValuesSoFar(cl, m, i)
  }

  lemma KeysStep(cl: seq<Criterion>, m: map<string, seq<string>>, i: nat, v: seq<string>)
    requires i < |cl| && KeysSoFar(cl, m, i)
    ensures KeysSoFar(cl, m[cl[i].id := v], i + 1)
  {
    var m' := m[cl[i].id := v];
    forall x
      ensures x in m' <==> exists k :: 0 <= k < i + 1 && i + 1 <= |cl| && cl[k].id == x
    {
      if x in m' && x != cl[i].id {
        var k :| 0 <= k < i && i <= |cl| && cl[k].id == x;
        assert 0 <= k < i + 1 && cl[k].id == x;
      }
      if x == cl[i].id {
        assert 0 <= i < i + 1 && cl[i].id == x;
      }
    }
  }

  lemma LastStep(cl: seq<Criterion>, m: map<string, seq<string>>, i: nat)
    requires i < |cl| && LastSoFar(cl, m, i)
    ensures LastSoFar(cl, m[cl[i].id := Dependencies(cl, cl[i])], i + 1)
  {
    var m' := m[cl[i].id := Dependencies(cl, cl[i])];
    forall k | 0 <= k < i + 1 && k < |cl| && LastOfId(cl, k, i + 1)
      ensures cl[k].id in m' && m'[cl[k].id] == Dependencies(cl, cl[k])
    {
      if k < i {
        assert LastOfId(cl, k, i);
        assert cl[i].id != cl[k].id;
      }
    }
  }

  lemma ValuesStep(cl: seq<Criterion>, m: map<string, seq<string>>, i: nat)
    requires i < |cl| && ValuesSoFar(cl, m, i)
    ensures ValuesSoFar(cl, m[cl[i].id := Dependencies(cl, cl[i])], i + 1)
  {
    var m' := m[cl[i].id := Dependencies(cl, cl[i])];
    forall x | x in m'
      ensures exists k :: 0 <= k < i + 1 && k < |cl| && cl[k].id == x && m'[x] == Dependencies(cl, cl[k])
    {
      if x == cl[i].id {
        assert cl[i].id == x && m'[x] == Dependencies(cl, cl[i]);
      } else {
        var k :| 0 <= k < i && k < |cl| && cl[k].id == x && m[x] == Dependencies(cl, cl[k]);
        assert m'[x] == m[x];
      }
    }
  }

  /** `dependency_map[criterion["id"]] = dependencies` for criterion `i`. */
  lemma MapStep(cl: seq<Criterion>, m: map<string, seq<string>>, i: nat)
    requires i < |cl| && MapSoFar(cl, m, i)
    ensures MapSoFar(cl, m[cl[i].id := Dependencies(cl, cl[i])], i + 1)
  {
    KeysStep(cl, m, i, Dependencies(cl, cl[i]));
    LastStep(cl, m, i);
    ValuesStep(cl, m, i);
  }

  /** The finished map: each key's list names other criteria only. */
  lemma MapDone(cl: seq<Criterion>, m: map<string, seq<string>>)
    requires MapSoFar(cl, m, |cl|)
    ensures IsDependencyMap(cl, m)
    ensures forall x :: x in m ==> x !in m[x]
    ensures forall x, d :: x in m && d in m[x] ==> exists j :: 0 <= j < |cl| && cl[j].id == d
  {
    forall x | x in m
      ensures x !in m[x]
      ensures forall d :: d in m[x] ==> exists j :: 0 <= j < |cl| && cl[j].id == d
    {
      var k :| 0 <= k < |cl| && cl[k].id == x && m[x] == Dependencies(cl, cl[k]);
      DependenciesOthers(cl, cl[k]);
    }
  }

  method BuildDependencyMap(cl: seq<Criterion>) returns (m: map<string, seq<string>>)
    ensures IsDependencyMap(cl, m)
    ensures forall x :: x in m ==> x !in m[x]
    ensures forall x, d :: x in m && d in m[x] ==> exists j :: 0 <= j < |cl| && cl[j].id == d
  {
    m := map[];
    for i := 0 to |cl|
      invariant MapSoFar(cl, m, i)
    {
      var criterion := cl[i];
      var dependencies := CollectDependencies(cl, criterion);
      MapStep(cl, m, i);
      m := m[criterion.id := dependencies];
    }
    MapDone(cl, m);
  }

  // =====================================================================
  // enhance_criteria_relationships

  /** A value of the parsed-criteria dictionary. */
  datatype Entry =
    | Text(s: string)
    | IdList(ids: seq<string>)
    | CriteriaList(cs: seq<Criterion>)
    | GroupsEntry(g: Groups)
    | DependencyEntry(deps: map<string, seq<string>>)
    | Other(v: Value)

  /** The dictionary `parse_criteria_text` returns. */
  function ParsedDict(p: Parsed): (d: map<string, Entry>)
    ensures d.Keys == {"criteria_list", "logical_structure", "exclusionary_criteria",
                       "required_criteria", "documentation_criteria", "threshold_criteria"}
  {
    map["criteria_list" := CriteriaList(p.criteriaList),
        "logical_structure" := Text(p.logicalStructure),
        "exclusionary_criteria" := IdList(p.exclusionary),
        "required_criteria" := IdList(p.required),
        "documentation_criteria" := IdList(p.documentation),
        "threshold_criteria" := IdList(p.threshold)]
  }

  const AddedKeys: set<string> := {"criteria_groups", "evaluation_order", "dependency_map"}

  /** A `criteria_list`, when present, holds criterion dictionaries. */
  predicate WellFormed(d: map<string, Entry>)
  {
    "criteria_list" in d ==> d["criteria_list"].CriteriaList?
  }

  /** `parsed.get("criteria_list", [])`. */
  function CriteriaOf(d: map<string, Entry>): seq<Criterion>
    requires WellFormed(d)
  {
    if "criteria_list" in d then d["criteria_list"].cs else []
  }

  /** `enhance_criteria_relationships`: a copy of the input with the three
      derived entries set. */
  method EnhanceCriteriaRelationships(d: map<string, Entry>) returns (e: map<string, Entry>)
    requires WellFormed(d)
    ensures e.Keys == d.Keys + AddedKeys
    ensures forall k :: k in d && k !in AddedKeys ==> e[k] == d[k]
    ensures e["criteria_groups"] == GroupsEntry(GroupsOf(CriteriaOf(d)))
    ensures e["evaluation_order"] == IdList(EvaluationOrder(CriteriaOf(d)))
    ensures e["dependency_map"].DependencyEntry? && IsDependencyMap(CriteriaOf(d), e["dependency_map"].deps)
  {
    var criteriaList := CriteriaOf(d);
    var groups := GroupRelatedCriteria(criteriaList);
    var evaluationOrder := EvaluationOrder(criteriaList);
    var dependencyMap := BuildDependencyMap(criteriaList);
    e := d["criteria_groups" := GroupsEntry(groups)]
          ["evaluation_order" := IdList(evaluationOrder)]
          ["dependency_map" := DependencyEntry(dependencyMap)];
  }

  /** A parsed result enhanced keeps its six entries and gains three. */
  lemma EnhancedParsedKeys(p: Parsed)
    ensures WellFormed(ParsedDict(p)) && CriteriaOf(ParsedDict(p)) == p.criteriaList
    ensures ParsedDict(p).Keys !! AddedKeys
  {
  }
}
