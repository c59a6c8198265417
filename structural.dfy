/**
 * Success Criterion 1.3.1, structural markup: `test_structural_markup`
 * checks every article, section and div element for content, for enough
 * words for its purpose and, for div and section, for an ARIA role; it
 * scores the run by the share of elements with an issue and then stamps
 * that score on every entry.
 *
 * The score is `max(100 - 50 * k/n, 0)` for k flagged of n elements
 * (test_structural_markup.py:86-92).
 */
module Structural {
  import opened Wrappers
  import opened Dom
  import PyStr
  import opened Verdict

  const StructuralTags: set<string> := {"article", "section", "div"}
  const RoleTags: set<string> := {"div", "section"}
  const Baseline := 100.0

  /** The three checks' failures; the purpose check fails in one way per tag. */
  datatype Check = Empty | SectionPurpose | ArticlePurpose | DivPurpose | MissingRole

  /** The message a failed check returns. */
  function Message(c: Check): string
  {
    match c
    case Empty => "Structural element is empty or lacks meaningful content."
    case SectionPurpose => "Section should contain a meaningful amount of content."
    case ArticlePurpose => "Article should contain self-contained, detailed content."
    case DivPurpose => "Div should not be used solely for structural purposes without meaningful content."
    case MissingRole => "Structural element is missing an ARIA role for accessibility."
  }

  /** The messages of `checks`, in order. */
  function Messages(checks: seq<Check>): seq<string>
  {
    seq(|checks|, i requires 0 <= i < |checks| => Message(checks[i]))
  }

  /**
   * One entry of `details`: "structural_index", "structural_tag",
   * "structural_html", "issues" and "confidence_percentage", which the first
   * loop sets to 0 and the second overwrites.
   */
  datatype Entry = Entry(index: nat, tag: string, html: string, issues: seq<string>, confidence: real)

  /** The number of words of the element's stripped text. */
  function Words(el: Located): nat
    requires el.node.Element?
  {
    PyStr.WordCount(GetText(el.node))
  }

  /** `validate_empty_structural`: flags an element with neither text nor a child element. */
  function ValidateEmpty(el: Located): (r: Option<Check>)
    requires el.node.Element?
    ensures r.Some? <==> GetText(el.node) == "" && !HasChildElement(el.node)
    ensures r.Some? ==> r.value == Empty
  {
    if GetText(el.node) == "" && !HasChildElement(el.node) then Some(Empty) else None
  }

  /** `validate_structural_purpose`: a word-count threshold for each of the three tags. */
  function ValidatePurpose(el: Located): (r: Option<Check>)
    requires el.node.Element?
    ensures r == Some(SectionPurpose) <==> el.node.name == "section" && Words(el) < 10
    ensures r == Some(ArticlePurpose) <==> el.node.name == "article" && Words(el) < 50
    ensures r == Some(DivPurpose) <==> el.node.name == "div" && Words(el) < 5
    ensures r != Some(Empty) && r != Some(MissingRole)
  {
    var tag := el.node.name;
    if tag == "section" && Words(el) < 10 then Some(SectionPurpose)
    else if tag == "article" && Words(el) < 50 then Some(ArticlePurpose)
    else if tag == "div" && Words(el) < 5 then Some(DivPurpose)
    else None
  }

  /** `validate_aria_role`: flags a div or section without a non-empty `role`; an article never. */
  function ValidateRole(el: Located): (r: Option<Check>)
    requires el.node.Element?
    ensures r.Some? <==> el.node.name in RoleTags && !Truthy(el.node, "role")
    ensures r.Some? ==> r.value == MissingRole
  {
    if el.node.name in RoleTags && !Truthy(el.node, "role") then Some(MissingRole) else None
  }

  /** `structural_issues`: the failing checks in the order empty, purpose, role. */
  function StructuralIssues(el: Located): (r: seq<Check>)
    requires el.node.Element?
    ensures |r| <= 3
  {
    Collect3(ValidateEmpty(el), ValidatePurpose(el), ValidateRole(el))
  }

  /**
   * The empty check is listed exactly when the element has neither text nor
   * a child element, a purpose failure exactly when the purpose check fails,
   * and the role check exactly when a div or section has no role; the
   * order is empty, purpose, role.
   */
  lemma StructuralIssuesExactly(el: Located)
    requires el.node.Element?
    ensures var r := StructuralIssues(el);
      && (Empty in r <==> GetText(el.node) == "" && !HasChildElement(el.node))
      && (forall c | c in {SectionPurpose, ArticlePurpose, DivPurpose} :: c in r <==> ValidatePurpose(el) == Some(c))
      && (MissingRole in r <==> el.node.name in RoleTags && !Truthy(el.node, "role"))
  {
    var empty, purpose, role := ValidateEmpty(el), ValidatePurpose(el), ValidateRole(el);
    assert forall c | c in StructuralIssues(el) :: empty == Some(c) || purpose == Some(c) || role == Some(c);
  }

  /** The issues come in the order of their validators: empty, purpose, role. */
  lemma StructuralIssuesOrdered(el: Located)
    requires el.node.Element?
    ensures var r := StructuralIssues(el);
      forall j, k | 0 <= j < k < |r| :: Rank(r[j]) < Rank(r[k])
  {
    RankedCollect(ValidateEmpty(el), ValidatePurpose(el), ValidateRole(el));
  }

  /** Three outcomes of ranks 0, 1 and 2 are listed in rank order. */
  lemma RankedCollect(empty: Option<Check>, purpose: Option<Check>, role: Option<Check>)
    requires empty.Some? ==> Rank(empty.value) == 0
    requires purpose.Some? ==> Rank(purpose.value) == 1
    requires role.Some? ==> Rank(role.value) == 2
    ensures var r := Collect3(empty, purpose, role);
      forall j, k | 0 <= j < k < |r| :: Rank(r[j]) < Rank(r[k])
  {
  }

  /** The position of a check's validator in the list. */
  function Rank(c: Check): nat
  {
    match c
    case Empty => 0
    case SectionPurpose => 1
    case ArticlePurpose => 1
    case DivPurpose => 1
    case MissingRole => 2
  }

  /** An article is never flagged for its role, so it has at most two issues. */
  lemma ArticleHasNoRoleIssue(el: Located)
    requires el.node.Element? && el.node.name == "article"
    ensures MissingRole !in StructuralIssues(el)
    ensures |StructuralIssues(el)| <= 2
  {
    assert el.node.name !in RoleTags;
  }

  /**
   * `calculate_structural_confidence`: 100 less half the share of elements
   * with an issue, in [50, 100] and 100 exactly when none has one.
   */
  function StructuralConfidence(flagged: nat, total: nat): (c: real)
    requires total > 0
    ensures flagged <= total ==> 50.0 <= c <= 100.0 && (c == 100.0 <==> flagged == 0)
  {
    ShareScore(Baseline, flagged, total)
  }

  /** The entry the first loop appends for the element at 1-based position `index`, if it has an issue. */
  function StructuralEntry(index: nat, el: Located, serialize: Serializer): (r: Option<Entry>)
    requires el.node.Element?
    ensures r.Some? <==> StructuralIssues(el) != []
    ensures r.Some? ==> r.value == Entry(index, el.node.name, serialize(el.node), Messages(StructuralIssues(el)), 0.0)
  {
    var checks := StructuralIssues(el);
    if checks != [] then Some(Entry(index, el.node.name, serialize(el.node), Messages(checks), 0.0)) else None
  }

  /** Each element's entry, if any, in document order. */
  function StructuralOptions(els: seq<Located>, serialize: Serializer): (r: seq<Option<Entry>>)
    requires forall i | 0 <= i < |els| :: els[i].node.Element?
    ensures |r| == |els|
  {
    seq(|els|, i => PositionEntry(els, serialize, i))
  }

  /** The entry of the element at 0-based position `i`; none outside `els`. */
  function PositionEntry(els: seq<Located>, serialize: Serializer, i: int): Option<Entry>
  {
    if 0 <= i < |els| && els[i].node.Element? then StructuralEntry(i + 1, els[i], serialize) else None
  }

  lemma OptionAt(els: seq<Located>, serialize: Serializer, i: nat)
    requires forall i | 0 <= i < |els| :: els[i].node.Element?
    requires i < |els|
    ensures StructuralOptions(els, serialize)[i] == StructuralEntry(i + 1, els[i], serialize)
  {
  }

  /** The `issues` list the first loop builds: each element with an issue, in document order, scored 0. */
  function Entries(els: seq<Located>, serialize: Serializer): seq<Entry>
    requires forall i | 0 <= i < |els| :: els[i].node.Element?
  {
    Kept(StructuralOptions(els, serialize))
  }

  /** `entries` with "confidence_percentage" set to `c` in each. */
  function Stamped(entries: seq<Entry>, c: real): (r: seq<Entry>)
    ensures |r| == |entries|
    ensures forall j | 0 <= j < |r| :: r[j] == entries[j].(confidence := c)
  {
    seq(|entries|, j requires 0 <= j < |entries| => entries[j].(confidence := c))
  }

  /** The result of `test_structural_markup` on a document. */
  function Report(doc: seq<Node>, serialize: Serializer): Outcome<Entry>
  {
    var els := FindInDocument(doc, StructuralTags);
    if els == [] then Outcome(NotApplicable, [], 100.0)
    else
      var entries := Entries(els, serialize);
      var confidence := StructuralConfidence(|entries|, |els|);
      Outcome(if entries != [] then Malformed else Passed, Stamped(entries, confidence), confidence)
  }

  /** `test_structural_markup` */
  method TestStructuralMarkup(doc: seq<Node>, serialize: Serializer) returns (r: Outcome<Entry>)
    ensures r == Report(doc, serialize)
  {
    var els := FindInDocument(doc, StructuralTags);
    if els == [] {
      return Outcome(NotApplicable, [], 100.0);
    }
    ghost var opts := StructuralOptions(els, serialize);
    var issues: seq<Entry> := [];
    for index := 0 to |els|
      invariant issues == Kept(opts[..index])
    {
      KeptSnoc(opts, index);
      var el := els[index];
      var html := serialize(el.node);
      var checks := StructuralIssues(el);
      assert opts[index] == StructuralEntry(index + 1, el, serialize);
      if checks != [] {
        issues := issues + [Entry(index + 1, el.node.name, html, Messages(checks), 0.0)];
      }
    }
    assert opts[..|els|] == opts;
    assert issues == Entries(els, serialize);
    var confidence := StructuralConfidence(|issues|, |els|);
    var stamped := AttachConfidence(issues, confidence);
    r := Outcome(if stamped != [] then Malformed else Passed, stamped, confidence);
  }

  /** The second loop of `test_structural_markup`: each entry's "confidence_percentage" overwritten with `c`. */
  method AttachConfidence(entries: seq<Entry>, c: real) returns (r: seq<Entry>)
    ensures r == Stamped(entries, c)
  {
    r := entries;
    for i := 0 to |r|
      invariant |r| == |entries|
      invariant forall j | 0 <= j < |r| :: r[j] == if j < i then entries[j].(confidence := c) else entries[j]
    {
      r := r[i := r[i].(confidence := c)];
    }
  }

  /** `e`, up to its score, is the entry of the element it names by 1-based position. */
  predicate EntryOf(els: seq<Located>, serialize: Serializer, e: Entry)
    requires forall i | 0 <= i < |els| :: els[i].node.Element?
  {
    1 <= e.index <= |els| && StructuralEntry(e.index, els[e.index - 1], serialize) == Some(e.(confidence := 0.0))
  }

  /** The j-th entry of the first loop is the entry of the element at the j-th kept position. */
  lemma EntryAt(els: seq<Located>, serialize: Serializer, j: nat)
    requires forall i | 0 <= i < |els| :: els[i].node.Element?
    requires j < |Entries(els, serialize)|
    ensures var opts := StructuralOptions(els, serialize);
      && j < |KeptAt(opts)|
      && Entries(els, serialize)[j].index == KeptAt(opts)[j] + 1
      && EntryOf(els, serialize, Entries(els, serialize)[j])
      && Entries(els, serialize)[j].confidence == 0.0
  {
    var opts := StructuralOptions(els, serialize);
    KeptExactly(opts);
    var i := KeptAt(opts)[j];
    var e := Entries(els, serialize)[j];
    OptionAt(els, serialize, i);
    assert StructuralEntry(i + 1, els[i], serialize) == Some(e);
    assert e.index - 1 == i;
  }

  /** Every entry of the first loop is the entry of the element it names, and the entries follow document order. */
  lemma EntriesSound(els: seq<Located>, serialize: Serializer)
    requires forall i | 0 <= i < |els| :: els[i].node.Element?
    ensures var es := Entries(els, serialize);
      && |es| <= |els|
      && (forall j | 0 <= j < |es| :: EntryOf(els, serialize, es[j]))
      && (forall j, k | 0 <= j < k < |es| :: es[j].index < es[k].index)
  {
    var es := Entries(els, serialize);
    KeptExactly(StructuralOptions(els, serialize));
    forall j | 0 <= j < |es| ensures EntryOf(els, serialize, es[j]) {
      EntryAt(els, serialize, j);
    }
    forall j, k | 0 <= j < k < |es| ensures es[j].index < es[k].index {
      EntryAt(els, serialize, j);
      EntryAt(els, serialize, k);
    }
  }

  /** Every element with an issue is named by some entry of `es`. */
  predicate Covers(els: seq<Located>, es: seq<Entry>)
    requires forall i | 0 <= i < |els| :: els[i].node.Element?
  {
    forall i | 0 <= i < |els| && StructuralIssues(els[i]) != [] :: exists j | 0 <= j < |es| :: es[j].index == i + 1
  }

  /** Every element with an issue has an entry. */
  lemma EntriesComplete(els: seq<Located>, serialize: Serializer)
    requires forall i | 0 <= i < |els| :: els[i].node.Element?
    ensures Covers(els, Entries(els, serialize))
  {
    var opts := StructuralOptions(els, serialize);
    KeptExactly(opts);
    var es := Entries(els, serialize);
    var at := KeptAt(opts);
    forall i | 0 <= i < |els| && StructuralIssues(els[i]) != []
      ensures exists j | 0 <= j < |es| :: es[j].index == i + 1
    {
      OptionAt(els, serialize, i);
      var j :| 0 <= j < |at| && at[j] == i;
      assert opts[at[j]] == Some(es[j]);
    }
  }

  /** There are no entries exactly when no element has an issue. */
  lemma EntriesEmpty(els: seq<Located>, serialize: Serializer)
    requires forall i | 0 <= i < |els| :: els[i].node.Element?
    ensures Entries(els, serialize) == [] <==> forall i | 0 <= i < |els| :: StructuralIssues(els[i]) == []
  {
    var opts := StructuralOptions(els, serialize);
    KeptEmpty(opts);
    forall i | 0 <= i < |els| ensures opts[i].Some? == (StructuralIssues(els[i]) != []) {
      OptionAt(els, serialize, i);
    }
  }

  /** Without article, section or div elements the validator reports Not Applicable with confidence 100, and only then. */
  lemma NotApplicableWithoutElements(doc: seq<Node>, serialize: Serializer)
    ensures Report(doc, serialize).status == NotApplicable <==> !HasElement(doc, StructuralTags)
    ensures !HasElement(doc, StructuralTags) ==> Report(doc, serialize) == Outcome(NotApplicable, [], 100.0)
  {
    FindAllEmpty(doc, [], StructuralTags);
  }

  /** With candidates, the result is Malformed exactly when some element has an issue, and Passed otherwise. */
  lemma StructuralStatus(doc: seq<Node>, serialize: Serializer)
    requires HasElement(doc, StructuralTags)
    ensures var els := FindInDocument(doc, StructuralTags);
      && (Report(doc, serialize).status == Malformed <==> exists i | 0 <= i < |els| :: StructuralIssues(els[i]) != [])
      && (Report(doc, serialize).status == Passed <==> forall i | 0 <= i < |els| :: StructuralIssues(els[i]) == [])
  {
    FindAllEmpty(doc, [], StructuralTags);
    EntriesEmpty(FindInDocument(doc, StructuralTags), serialize);
  }

  /**
   * With candidates, the confidence lies in [50, 100] and is 100 exactly for
   * a passing document, and it counts elements rather than messages.
   */
  lemma StructuralScore(doc: seq<Node>, serialize: Serializer)
    requires HasElement(doc, StructuralTags)
    ensures var r := Report(doc, serialize);
      var els := FindInDocument(doc, StructuralTags);
      && 50.0 <= r.confidence <= 100.0
      && (r.confidence == 100.0 <==> r.status == Passed)
      && r.confidence == StructuralConfidence(|r.details|, |els|)
  {
    FindAllEmpty(doc, [], StructuralTags);
    EntriesSound(FindInDocument(doc, StructuralTags), serialize);
  }

  /** Every entry carries the overall confidence. */
  lemma StampedEverywhere(doc: seq<Node>, serialize: Serializer)
    ensures var r := Report(doc, serialize);
      forall j | 0 <= j < |r.details| :: r.details[j].confidence == r.confidence
  {
  }
}
