/**
 * Success Criterion 1.3.1, table markup: `test_table_markup` runs three
 * checks on every `<table>` (header cells, rows, an ARIA role or summary),
 * records each table that fails any of them with one joined message and a
 * score of its own, and scores the run by the share of failing tables.
 *
 * A table's own score divides its issues by the three checks, the run's score
 * divides the failing tables by all tables (test_table_markup.py:70-93, 125, 131).
 */
module Tables {
  import opened Wrappers
  import opened Dom
  import PyStr
  import opened Verdict

  const TableTags: set<string> := {"table"}

  /** The number of checks each table goes through, the denominator of its own score. */
  const ChecksPerTable := 3

  /** The three checks, in the order `test_table_markup` runs them. */
  datatype Check = MissingHeaders | MissingRows | MissingRole

  /** The message a failed check returns. */
  function Message(c: Check): string
  {
    match c
    case MissingHeaders => "Table is missing headers (th elements)."
    case MissingRows => "Table is missing rows (tr elements)."
    case MissingRole => "Table is missing an ARIA role for accessibility."
  }

  function Rank(c: Check): nat
  {
    match c
    case MissingHeaders => 0
    case MissingRows => 1
    case MissingRole => 2
  }

  /** One entry of `details`: "Table Index", "Table HTML", "Issue" and "Confidence Percentage". */
  datatype Entry = Entry(index: nat, html: string, issue: string, confidence: real)

  /** `validate_headers`: flags a table with no `<th>` below it. */
  function ValidateHeaders(table: Located): (r: Option<Check>)
    requires table.node.Element?
    ensures r.Some? <==> !HasElement(table.node.children, {"th"})
    ensures r.Some? ==> r.value == MissingHeaders
  {
    FindAllEmpty(table.node.children, table.above + [table.node.name], {"th"});
    if FindBelow(table, {"th"}) == [] then Some(MissingHeaders) else None
  }

  /** `validate_rows`: flags a table with no `<tr>` below it. */
  function ValidateRows(table: Located): (r: Option<Check>)
    requires table.node.Element?
    ensures r.Some? <==> !HasElement(table.node.children, {"tr"})
    ensures r.Some? ==> r.value == MissingRows
  {
    FindAllEmpty(table.node.children, table.above + [table.node.name], {"tr"});
    if FindBelow(table, {"tr"}) == [] then Some(MissingRows) else None
  }

  /**
   * `validate_aria_role`: flags a table whose `role` is missing or empty and
   * that has no `summary` attribute at all; `summary=""` counts as present.
   */
  function ValidateAriaRole(table: Located): (r: Option<Check>)
    requires table.node.Element?
    ensures r.Some? <==> (!("role" in table.node.attrs) || table.node.attrs["role"] == "") && "summary" !in table.node.attrs
    ensures r.Some? ==> r.value == MissingRole
  {
    if !Truthy(table.node, "role") && Get(table.node, "summary").None? then Some(MissingRole) else None
  }

  /** `table_issues`: the messages of the checks that fail, in the order headers, rows, role. */
  function TableIssues(table: Located): (r: seq<Check>)
    requires table.node.Element?
    ensures |r| <= ChecksPerTable
  {
    Collect3(ValidateHeaders(table), ValidateRows(table), ValidateAriaRole(table))
  }

  /** Each check appears in `table_issues` exactly when it fails, and the checks keep their order. */
  lemma TableIssuesExactly(table: Located)
    requires table.node.Element?
    ensures var r := TableIssues(table);
      && (MissingHeaders in r <==> !HasElement(table.node.children, {"th"}))
      && (MissingRows in r <==> !HasElement(table.node.children, {"tr"}))
      && (MissingRole in r <==> !Truthy(table.node, "role") && "summary" !in table.node.attrs)
      && (forall j, k | 0 <= j < k < |r| :: Rank(r[j]) < Rank(r[k]))
  {
  }

  /** The messages of `checks`, in order. */
  function Messages(checks: seq<Check>): seq<string>
  {
    seq(|checks|, i requires 0 <= i < |checks| => Message(checks[i]))
  }

  /** `calculate_table_confidence`: `max(95 - (issues / checks) * 50, 0)`. */
  function TableConfidence(issues: nat, checks: nat): (c: real)
    requires checks > 0
    ensures issues <= checks ==> 45.0 <= c <= 95.0 && (c == 95.0 <==> issues == 0)
  {
    ShareScore(95.0, issues, checks)
  }

  /** The entry for the table at 1-based position `index`: present exactly when the table fails a check. */
  function TableEntry(index: nat, table: Located, serialize: Serializer): (r: Option<Entry>)
    requires table.node.Element?
    ensures r.Some? <==> TableIssues(table) != []
    ensures r.Some? ==> r.value.index == index && r.value.html == serialize(table.node)
    ensures r.Some? ==>
              && r.value.issue == PyStr.Join(" ", Messages(TableIssues(table)))
              && r.value.confidence == TableConfidence(|TableIssues(table)|, ChecksPerTable)
  {
    var tableIssues := TableIssues(table);
    if tableIssues != [] then
      Some(Entry(index, serialize(table.node), PyStr.Join(" ", Messages(tableIssues)), TableConfidence(|tableIssues|, ChecksPerTable)))
    else None
  }

  /** Each table's entry, if any, in document order. */
  function TableOptions(tables: seq<Located>, serialize: Serializer): (r: seq<Option<Entry>>)
    requires forall i | 0 <= i < |tables| :: tables[i].node.Element?
    ensures |r| == |tables|
  {
    seq(|tables|, i => PositionEntry(tables, serialize, i))
  }

  /** The entry of the table at 0-based position `i`; none outside `tables`. */
  function PositionEntry(tables: seq<Located>, serialize: Serializer, i: int): Option<Entry>
  {
    if 0 <= i < |tables| && tables[i].node.Element? then TableEntry(i + 1, tables[i], serialize) else None
  }

  /** The option at position `i` is the entry of the table there. */
  lemma OptionAt(tables: seq<Located>, serialize: Serializer, i: nat)
    requires forall i | 0 <= i < |tables| :: tables[i].node.Element?
    requires i < |tables|
    ensures TableOptions(tables, serialize)[i] == TableEntry(i + 1, tables[i], serialize)
  {
  }

  /** The `issues` list the loop builds: each failing table's entry, in document order. */
  function Entries(tables: seq<Located>, serialize: Serializer): seq<Entry>
    requires forall i | 0 <= i < |tables| :: tables[i].node.Element?
  {
    Kept(TableOptions(tables, serialize))
  }

  /** The result of `test_table_markup` on a document. */
  function TableReport(doc: seq<Node>, serialize: Serializer): Outcome<Entry>
  {
    var tables := FindInDocument(doc, TableTags);
    if tables == [] then Outcome(NotApplicable, [], 100.0)
    else
      var entries := Entries(tables, serialize);
      Outcome(if entries != [] then Malformed else Passed, entries, TableConfidence(|entries|, |tables|))
  }

  /** `test_table_markup` */
  method TestTableMarkup(doc: seq<Node>, serialize: Serializer) returns (r: Outcome<Entry>)
    ensures r == TableReport(doc, serialize)
  {
    var tables := FindInDocument(doc, TableTags);
    if tables == [] {
      return Outcome(NotApplicable, [], 100.0);
    }
    ghost var opts := TableOptions(tables, serialize);
    var issues: seq<Entry> := [];
    for index := 0 to |tables|
      invariant issues == Kept(opts[..index])
    {
      KeptSnoc(opts, index);
      var table := tables[index];
      var tableIssues := TableIssues(table);
      if tableIssues != [] {
        issues := issues + [Entry(index + 1, serialize(table.node), PyStr.Join(" ", Messages(tableIssues)),
                                  TableConfidence(|tableIssues|, ChecksPerTable))];
      }
    }
    assert opts[..|tables|] == opts;
    assert issues == Entries(tables, serialize);
    var overallConfidence := TableConfidence(|issues|, |tables|);
    r := Outcome(if issues != [] then Malformed else Passed, issues, overallConfidence);
  }

  /** `e` is the entry of the table it names by 1-based position. */
  predicate EntryOf(tables: seq<Located>, serialize: Serializer, e: Entry)
    requires forall i | 0 <= i < |tables| :: tables[i].node.Element?
  {
    1 <= e.index <= |tables| && TableEntry(e.index, tables[e.index - 1], serialize) == Some(e)
  }

  /** The j-th recorded entry is the entry of the table at the j-th kept position. */
  lemma EntryAt(tables: seq<Located>, serialize: Serializer, j: nat)
    requires forall i | 0 <= i < |tables| :: tables[i].node.Element?
    requires j < |Entries(tables, serialize)|
    ensures var opts := TableOptions(tables, serialize);
      && j < |KeptAt(opts)|
      && Entries(tables, serialize)[j].index == KeptAt(opts)[j] + 1
      && EntryOf(tables, serialize, Entries(tables, serialize)[j])
  {
    var opts := TableOptions(tables, serialize);
    KeptExactly(opts);
    var i := KeptAt(opts)[j];
    var e := Entries(tables, serialize)[j];
    OptionAt(tables, serialize, i);
    assert TableEntry(i + 1, tables[i], serialize) == Some(e);
    assert e.index - 1 == i;
  }

  /** Every recorded entry is the entry of the table it names, and the entries follow document order. */
  lemma TableEntriesSound(tables: seq<Located>, serialize: Serializer)
    requires forall i | 0 <= i < |tables| :: tables[i].node.Element?
    ensures var es := Entries(tables, serialize);
      && (forall j | 0 <= j < |es| :: EntryOf(tables, serialize, es[j]))
      && (forall j, k | 0 <= j < k < |es| :: es[j].index < es[k].index)
  {
    var es := Entries(tables, serialize);
    KeptExactly(TableOptions(tables, serialize));
    forall j | 0 <= j < |es| ensures EntryOf(tables, serialize, es[j]) {
      EntryAt(tables, serialize, j);
    }
    forall j, k | 0 <= j < k < |es| ensures es[j].index < es[k].index {
      EntryAt(tables, serialize, j);
      EntryAt(tables, serialize, k);
    }
  }

  /** Every table that fails a check is named by some entry of `es`. */
  predicate Covers(tables: seq<Located>, es: seq<Entry>)
    requires forall i | 0 <= i < |tables| :: tables[i].node.Element?
  {
    forall i | 0 <= i < |tables| && TableIssues(tables[i]) != [] :: exists j | 0 <= j < |es| :: es[j].index == i + 1
  }

  /** Every failing table has an entry. */
  lemma TableEntriesComplete(tables: seq<Located>, serialize: Serializer)
    requires forall i | 0 <= i < |tables| :: tables[i].node.Element?
    ensures Covers(tables, Entries(tables, serialize))
  {
    var opts := TableOptions(tables, serialize);
    KeptExactly(opts);
    var es := Entries(tables, serialize);
    var at := KeptAt(opts);
    forall i | 0 <= i < |tables| && TableIssues(tables[i]) != []
      ensures exists j | 0 <= j < |es| :: es[j].index == i + 1
    {
      OptionAt(tables, serialize, i);
      var j :| 0 <= j < |at| && at[j] == i;
      assert opts[at[j]] == Some(es[j]);
    }
  }

  /** There are no entries exactly when no table fails a check. */
  lemma TableEntriesEmpty(tables: seq<Located>, serialize: Serializer)
    requires forall i | 0 <= i < |tables| :: tables[i].node.Element?
    ensures Entries(tables, serialize) == [] <==> forall i | 0 <= i < |tables| :: TableIssues(tables[i]) == []
  {
    var opts := TableOptions(tables, serialize);
    KeptEmpty(opts);
    forall i | 0 <= i < |tables| ensures opts[i].Some? == (TableIssues(tables[i]) != []) {
      OptionAt(tables, serialize, i);
    }
  }

  /** A recorded table scores in [45, 95): it failed between one and three checks. */
  lemma EntryScore(index: nat, table: Located, serialize: Serializer)
    requires table.node.Element? && TableEntry(index, table, serialize).Some?
    ensures 45.0 <= TableEntry(index, table, serialize).value.confidence < 95.0
  {
  }

  /** Without tables the validator reports Not Applicable with confidence 100, and only then. */
  lemma TableNotApplicable(doc: seq<Node>, serialize: Serializer)
    ensures TableReport(doc, serialize).status == NotApplicable <==> !HasElement(doc, TableTags)
    ensures !HasElement(doc, TableTags) ==> TableReport(doc, serialize) == Outcome(NotApplicable, [], 100.0)
  {
    FindAllEmpty(doc, [], TableTags);
  }

  /** With tables, the result is Malformed exactly when some table fails a check, and Passed otherwise. */
  lemma TableStatus(doc: seq<Node>, serialize: Serializer)
    requires HasElement(doc, TableTags)
    ensures var tables := FindInDocument(doc, TableTags);
      && (TableReport(doc, serialize).status == Malformed <==> exists i | 0 <= i < |tables| :: TableIssues(tables[i]) != [])
      && (TableReport(doc, serialize).status == Passed <==> forall i | 0 <= i < |tables| :: TableIssues(tables[i]) == [])
  {
    FindAllEmpty(doc, [], TableTags);
    TableEntriesEmpty(FindInDocument(doc, TableTags), serialize);
  }

  /** With tables, the overall confidence lies in [45, 95] and is 95 exactly for a passing document. */
  lemma TableScore(doc: seq<Node>, serialize: Serializer)
    requires HasElement(doc, TableTags)
    ensures 45.0 <= TableReport(doc, serialize).confidence <= 95.0
    ensures TableReport(doc, serialize).confidence == 95.0 <==> TableReport(doc, serialize).status == Passed
  {
    FindAllEmpty(doc, [], TableTags);
    KeptExactly(TableOptions(FindInDocument(doc, TableTags), serialize));
  }
}
