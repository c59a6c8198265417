/**
 * Success Criterion 1.3.1 (b), list markup: `test_list_markup` checks every
 * ul, ol, div and section element for `<li>` descendants and, when the
 * element is not a native list, for a `role` attribute; it scores the run
 * by the share of flagged elements and then stamps that score on every
 * entry.
 *
 * There are exactly two rules, no `<li>` and no role, and the score is
 * `max(95 - 50 * k/n, 0)` for k flagged of n candidates (test_list_markup.py:60-76).
 */
module Lists {
  import opened Wrappers
  import opened Dom
  import opened Verdict

  const ListTags: set<string> := {"ul", "ol", "div", "section"}
  const NativeListTags: set<string> := {"ul", "ol"}
  const ListCode := "1.3.1 (b)"
  const NoItemsMessage := "List is malformed. No <li> elements found."
  const MissingRoleMessage := "List is missing proper ARIA roles for accessibility."

  /**
   * One entry of `details`. `confidence` is `None` while the dictionary has
   * no "Confidence Percentage" key yet.
   */
  datatype Entry = Entry(index: nat, html: string, issue: string, code: string, confidence: Option<real>)

  /**
   * `validate_list`: an element without any `<li>` below it is malformed,
   * whatever its tag; one with items that is neither ul nor ol needs a
   * non-empty `role`; anything else passes.
   */
  function ValidateList(lst: Located): (r: Option<string>)
    requires lst.node.Element?
    ensures r == Some(NoItemsMessage) <==> !HasElement(lst.node.children, {"li"})
    ensures r == Some(MissingRoleMessage) <==>
              HasElement(lst.node.children, {"li"}) && lst.node.name !in NativeListTags && !Truthy(lst.node, "role")
    ensures r.None? <==>
              HasElement(lst.node.children, {"li"}) && (lst.node.name in NativeListTags || Truthy(lst.node, "role"))
  {
    FindAllEmpty(lst.node.children, lst.above + [lst.node.name], {"li"});
    if FindBelow(lst, {"li"}) == [] then Some(NoItemsMessage)
    else if lst.node.name !in NativeListTags && !Truthy(lst.node, "role") then Some(MissingRoleMessage)
    else None
  }

  /** `calculate_list_confidence`: 95 less half the share of flagged elements, in [45, 95]. */
  function ListConfidence(flagged: nat, total: nat): (c: real)
    requires total > 0
    ensures flagged <= total ==> 45.0 <= c <= 95.0 && (c == 95.0 <==> flagged == 0)
  {
    ShareScore(95.0, flagged, total)
  }

  /** The entries the first loop appends for the candidates `lists`, before any has a confidence. */
  function ListEntries(lists: seq<Located>, serialize: Serializer): seq<Entry>
    requires forall i | 0 <= i < |lists| :: lists[i].node.Element?
  {
    if lists == [] then []
    else
      var last := lists[|lists| - 1];
      ListEntries(lists[..|lists| - 1], serialize) +
        match ValidateList(last)
        case Some(m) => [Entry(|lists|, serialize(last.node), m, ListCode, None)]
        case None => []
  }

  /** `entries` with "Confidence Percentage" set to `c` in each. */
  function Stamped(entries: seq<Entry>, c: real): (r: seq<Entry>)
    ensures |r| == |entries|
    ensures forall j | 0 <= j < |r| :: r[j] == entries[j].(confidence := Some(c))
  {
    seq(|entries|, j requires 0 <= j < |entries| => entries[j].(confidence := Some(c)))
  }

  /** The result of `test_list_markup` on a document. */
  function ListReport(doc: seq<Node>, serialize: Serializer): Outcome<Entry>
  {
    var lists := FindInDocument(doc, ListTags);
    if lists == [] then Outcome(NotApplicable, [], 100.0)
    else
      var entries := ListEntries(lists, serialize);
      var confidence := ListConfidence(|entries|, |lists|);
      Outcome(if entries != [] then Malformed else Passed, Stamped(entries, confidence), confidence)
  }

  /** `test_list_markup` */
  method TestListMarkup(doc: seq<Node>, serialize: Serializer) returns (r: Outcome<Entry>)
    ensures r == ListReport(doc, serialize)
  {
    var lists := FindInDocument(doc, ListTags);
    if lists == [] {
      return Outcome(NotApplicable, [], 100.0);
    }
    var issues: seq<Entry> := [];
    for index := 0 to |lists|
      invariant issues == ListEntries(lists[..index], serialize)
    {
      assert lists[..index + 1][..index] == lists[..index];
      var validationIssue := ValidateList(lists[index]);
      if validationIssue.Some? {
        issues := issues + [Entry(index + 1, serialize(lists[index].node), validationIssue.value, ListCode, None)];
      }
    }
    assert lists[..|lists|] == lists;
    var confidence := ListConfidence(|issues|, |lists|);
    ghost var found := issues;
    for i := 0 to |issues|
      invariant |issues| == |found|
      invariant forall j | 0 <= j < |issues| :: issues[j] == if j < i then found[j].(confidence := Some(confidence)) else found[j]
    {
      issues := issues[i := issues[i].(confidence := Some(confidence))];
    }
    assert issues == Stamped(found, confidence);
    r := Outcome(if issues != [] then Malformed else Passed, issues, confidence);
  }

  /** `e` records the flagged candidate it names by 1-based position, with its message and serialisation. */
  predicate EntryOf(lists: seq<Located>, serialize: Serializer, e: Entry)
    requires forall i | 0 <= i < |lists| :: lists[i].node.Element?
  {
    && 1 <= e.index <= |lists|
    && ValidateList(lists[e.index - 1]) == Some(e.issue)
    && e.html == serialize(lists[e.index - 1].node)
    && e.code == ListCode
  }

  /**
   * Every entry the first loop appends records a flagged candidate, with the
   * code 1.3.1 (b) and no confidence yet, and the entries follow document
   * order.
   */
  lemma {:induction false} ListEntriesSound(lists: seq<Located>, serialize: Serializer)
    requires forall i | 0 <= i < |lists| :: lists[i].node.Element?
    ensures var es := ListEntries(lists, serialize);
      && |es| <= |lists|
      && (forall j | 0 <= j < |es| :: EntryOf(lists, serialize, es[j]) && es[j].confidence.None?)
      && (forall j, k | 0 <= j < k < |es| :: es[j].index < es[k].index)
  {
    if lists != [] {
      var init := lists[..|lists| - 1];
      ListEntriesSound(init, serialize);
      var es := ListEntries(lists, serialize);
      var before := ListEntries(init, serialize);
      forall j | 0 <= j < |before| ensures EntryOf(lists, serialize, before[j]) {
        assert init[before[j].index - 1] == lists[before[j].index - 1];
      }
    }
  }

  /** Every flagged candidate of `lists` is named by some entry of `es`. */
  predicate Covers(lists: seq<Located>, es: seq<Entry>)
    requires forall i | 0 <= i < |lists| :: lists[i].node.Element?
  {
    forall i | 0 <= i < |lists| && ValidateList(lists[i]).Some? :: exists j | 0 <= j < |es| :: es[j].index == i + 1
  }

  /** Every flagged candidate has an entry. */
  lemma {:induction false} ListEntriesComplete(lists: seq<Located>, serialize: Serializer)
    requires forall i | 0 <= i < |lists| :: lists[i].node.Element?
    ensures Covers(lists, ListEntries(lists, serialize))
  {
    if lists != [] {
      var init := lists[..|lists| - 1];
      ListEntriesComplete(init, serialize);
      var es := ListEntries(lists, serialize);
      var before := ListEntries(init, serialize);
      assert es[..|before|] == before;
      forall i | 0 <= i < |lists| && ValidateList(lists[i]).Some?
        ensures exists j | 0 <= j < |es| :: es[j].index == i + 1
      {
        if i < |init| {
          assert init[i] == lists[i];
          var j :| 0 <= j < |before| && before[j].index == i + 1;
          assert es[j] == before[j];
        } else {
          var last := lists[|lists| - 1];
          assert es == before + [Entry(|lists|, serialize(last.node), ValidateList(last).value, ListCode, None)];
          assert es[|before|].index == i + 1;
        }
      }
    }
  }

  /** Without candidates the validator reports Not Applicable with confidence 100, and only then. */
  lemma ListNotApplicable(doc: seq<Node>, serialize: Serializer)
    ensures ListReport(doc, serialize).status == NotApplicable <==> !HasElement(doc, ListTags)
    ensures !HasElement(doc, ListTags) ==> ListReport(doc, serialize) == Outcome(NotApplicable, [], 100.0)
  {
    FindAllEmpty(doc, [], ListTags);
  }

  /** With candidates, the result is Malformed exactly when some candidate is flagged, and Passed otherwise. */
  lemma ListStatus(doc: seq<Node>, serialize: Serializer)
    requires HasElement(doc, ListTags)
    ensures var lists := FindInDocument(doc, ListTags);
      && (ListReport(doc, serialize).status == Malformed <==> exists i | 0 <= i < |lists| :: ValidateList(lists[i]).Some?)
      && (ListReport(doc, serialize).status == Passed <==> forall i | 0 <= i < |lists| :: ValidateList(lists[i]).None?)
  {
    FindAllEmpty(doc, [], ListTags);
    var lists := FindInDocument(doc, ListTags);
    var es := ListEntries(lists, serialize);
    ListEntriesSound(lists, serialize);
    ListEntriesComplete(lists, serialize);
    if es != [] {
      assert EntryOf(lists, serialize, es[0]);
    }
    assert es != [] <==> exists i | 0 <= i < |lists| :: ValidateList(lists[i]).Some?;
  }

  /**
   * With candidates, the confidence lies in [45, 95] and is 95 exactly for a
   * passing document, and every entry carries it.
   */
  lemma ListScore(doc: seq<Node>, serialize: Serializer)
    requires HasElement(doc, ListTags)
    ensures var r := ListReport(doc, serialize);
      && 45.0 <= r.confidence <= 95.0
      && (r.confidence == 95.0 <==> r.status == Passed)
      && forall j | 0 <= j < |r.details| :: r.details[j].confidence == Some(r.confidence)
  {
    FindAllEmpty(doc, [], ListTags);
    ListEntriesSound(FindInDocument(doc, ListTags), serialize);
  }
}
