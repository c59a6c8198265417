/**
 * Success Criterion 1.3.1, quotation markup: `test_blockquote_markup` asks
 * every `<blockquote>` for a source (a `cite` attribute or a `<footer>`)
 * and for an ARIA label reference, records each blockquote that lacks
 * either with a score of its own, and scores the run by the mean of those
 * scores.
 *
 * A blockquote's score is 95 less 20 for the source message and 15 for the
 * ARIA message, with no term for the number of checks (test_blockquote_markup.py:67-76).
 *
 * As written, the scoring helper calls `.get` on the plain message strings,
 * so any blockquote with an issue raises AttributeError; `ReportAsWritten`
 * models that, and the rest of the module models the evidently intended
 * scoring of the `{"issue": message}` records.
 */
module Blockquotes {
  import opened Wrappers
  import opened Dom
  import PyStr
  import opened Verdict

  const BlockquoteTags: set<string> := {"blockquote"}
  const Baseline := 95.0
  const CitePhrase := "missing a cite"
  const AriaPhrase := "missing an aria"

  /** The two checks, in the order the validator runs them. */
  datatype Check = MissingSource | MissingAria

  /**
   * The message a failed check returns, written in pieces around the phrase
   * the scoring looks for so that the penalty proofs can read them.
   */
  function Message(c: Check): string
  {
    match c
    case MissingSource => "Blockquote is " + (CitePhrase + " attribute or <footer> for source attribution.")
    case MissingAria => "Blockquote is " + (AriaPhrase + ("-labelledby or aria-" + ("describedby for better " + "accessibility.")))
  }

  /** The messages of `checks`, in order. */
  function Messages(checks: seq<Check>): seq<string>
  {
    seq(|checks|, i requires 0 <= i < |checks| => Message(checks[i]))
  }

  /**
   * One entry of `details`: "blockquote_index", "blockquote_html", "issues"
   * (each message wrapped as `{"issue": message}`) and "confidence_percentage".
   */
  datatype Entry = Entry(index: nat, html: string, issues: seq<string>, confidence: real)

  /** `validate_blockquote`: flags a blockquote with neither a non-empty `cite` nor a `<footer>` below it. */
  function ValidateSource(bq: Located): (r: Option<Check>)
    requires bq.node.Element?
    ensures r.Some? <==> !Truthy(bq.node, "cite") && !HasElement(bq.node.children, {"footer"})
    ensures r.Some? ==> r.value == MissingSource
  {
    FindAllEmpty(bq.node.children, bq.above + [bq.node.name], {"footer"});
    if !Truthy(bq.node, "cite") && FindBelow(bq, {"footer"}) == [] then Some(MissingSource) else None
  }

  /** `validate_aria`: flags a blockquote with neither a non-empty `aria-labelledby` nor `aria-describedby`. */
  function ValidateAria(bq: Located): (r: Option<Check>)
    requires bq.node.Element?
    ensures r.Some? <==> !Truthy(bq.node, "aria-labelledby") && !Truthy(bq.node, "aria-describedby")
    ensures r.Some? ==> r.value == MissingAria
  {
    if !Truthy(bq.node, "aria-labelledby") && !Truthy(bq.node, "aria-describedby") then Some(MissingAria) else None
  }

  /** `blockquote_issues`: the failing checks, source first. */
  function BlockquoteIssues(bq: Located): (r: seq<Check>)
    requires bq.node.Element?
    ensures |r| <= 2
  {
    Collect2(ValidateSource(bq), ValidateAria(bq))
  }

  /** Each check appears exactly when it fails, the source check before the ARIA one. */
  lemma BlockquoteIssuesExactly(bq: Located)
    requires bq.node.Element?
    ensures var r := BlockquoteIssues(bq);
      && (MissingSource in r <==> !Truthy(bq.node, "cite") && !HasElement(bq.node.children, {"footer"}))
      && (MissingAria in r <==> !Truthy(bq.node, "aria-labelledby") && !Truthy(bq.node, "aria-describedby"))
      && (|r| == 2 ==> r == [MissingSource, MissingAria])
  {
  }

  // ---------------------------------------------------------------------
  // The code as written

  /**
   * `calculate_confidence` as written, on the list of message strings: the
   * first iteration calls `.get` on a `str`, so any issue raises
   * AttributeError and only an empty list scores the baseline.
   */
  function ConfidenceAsWritten(issues: seq<string>): (r: Result<real, Exception>)
    ensures r.Success? <==> issues == []
    ensures r.Success? ==> r.value == Baseline
  {
    if issues == [] then Success(Baseline) else Failure(AttributeError)
  }

  /**
   * `test_blockquote_markup` as written: every blockquote is scored before
   * it is recorded, so the first one with an issue ends the run with
   * AttributeError; a run without issues passes with confidence 100.
   */
  function ReportAsWritten(doc: seq<Node>, serialize: Serializer): (r: Result<Outcome<Entry>, Exception>)
    ensures var bqs := FindInDocument(doc, BlockquoteTags);
      r.Failure? <==> exists i | 0 <= i < |bqs| :: BlockquoteIssues(bqs[i]) != []
    ensures r.Failure? ==> r.error == AttributeError
    ensures r.Success? ==> r.value.details == [] && r.value.confidence == 100.0 && r.value.status != Malformed
  {
    var bqs := FindInDocument(doc, BlockquoteTags);
    if bqs == [] then Success(Outcome(NotApplicable, [], 100.0))
    else if exists i | 0 <= i < |bqs| :: ConfidenceAsWritten(Messages(BlockquoteIssues(bqs[i]))).Failure? then
      Failure(AttributeError)
    else Success(Outcome(Passed, [], 100.0))
  }

  // ---------------------------------------------------------------------
  // The evidently intended scoring

  /**
   * The penalty for one `{"issue": message}` record: 20 when its lower case
   * contains "missing a cite", else 15 when it contains "missing an aria",
   * else nothing.
   */
  function Penalty(issue: string): (p: real)
    ensures p == 0.0 || p == 15.0 || p == 20.0
  {
    var lowered := PyStr.Lower(issue);
    if PyStr.Contains(lowered, CitePhrase) then 20.0
    else if PyStr.Contains(lowered, AriaPhrase) then 15.0
    else 0.0
  }

  /** The ARIA message leaves out the cite phrase: its 'm's all belong to "missing aria". */
  lemma AriaLacksCite()
    ensures !PyStr.Contains(PyStr.Lower(Message(MissingAria)), CitePhrase)
  {
    assert PyStr.CapitalOf('m', 'M');
    assert PyStr.Avoids("Blockquote is ", 0, 'm', 'M');
    assert PyStr.Avoids(AriaPhrase, 1, 'm', 'M') && PyStr.LowerChar(AriaPhrase[9]) != CitePhrase[9];
    assert PyStr.Avoids("-labelledby or aria-", 0, 'm', 'M');
    assert PyStr.Avoids("describedby for better ", 0, 'm', 'M');
    assert PyStr.Avoids("accessibility.", 0, 'm', 'M');
    var tail3 := "describedby for better " + "accessibility.";
    var tail2 := "-labelledby or aria-" + tail3;
    PyStr.LowerSkip("Blockquote is ", AriaPhrase + tail2, CitePhrase, 'M');
    PyStr.LowerFalseStart(AriaPhrase, tail2, CitePhrase, 9, 'M');
    PyStr.LowerSkip("-labelledby or aria-", tail3, CitePhrase, 'M');
    PyStr.LowerSkip("describedby for better ", "accessibility.", CitePhrase, 'M');
    PyStr.LowerMissing("accessibility.", CitePhrase, 0, 'M');
  }

  /** The ARIA message names the ARIA phrase. */
  lemma AriaNamesAria(x: string, y: string)
    ensures PyStr.Contains(PyStr.Lower(x + (AriaPhrase + y)), AriaPhrase)
  {
    PyStr.LowerFound(x, AriaPhrase, y);
  }

  /** The ARIA message names the ARIA phrase and not the cite phrase. */
  lemma AriaMessageReads()
    ensures !PyStr.Contains(PyStr.Lower(Message(MissingAria)), CitePhrase)
    ensures PyStr.Contains(PyStr.Lower(Message(MissingAria)), AriaPhrase)
  {
    AriaLacksCite();
    AriaNamesAria("Blockquote is ", "-labelledby or aria-" + ("describedby for better " + "accessibility."));
  }

  /** A message with the cite phrase written into it names that phrase. */
  lemma CiteFound(x: string, y: string)
    ensures PyStr.Contains(PyStr.Lower(x + (CitePhrase + y)), CitePhrase)
  {
    PyStr.LowerFound(x, CitePhrase, y);
  }

  /** The source message costs 20 points, the ARIA message 15. */
  lemma MessagePenalty(c: Check)
    ensures Penalty(Message(c)) == (if c == MissingSource then 20.0 else 15.0)
  {
    if c == MissingSource {
      CiteFound("Blockquote is ", " attribute or <footer> for source attribution.");
    } else {
      AriaMessageReads();
    }
  }

  /** The penalties of `issues`, added up. */
  function TotalPenalty(issues: seq<string>): real
  {
    if issues == [] then 0.0 else TotalPenalty(issues[..|issues| - 1]) + Penalty(issues[|issues| - 1])
  }

  /** Every record costs at most 20 points, so `issues` cost between 0 and 20 points each. */
  lemma {:induction false} TotalPenaltyBounds(issues: seq<string>)
    ensures 0.0 <= TotalPenalty(issues) <= 20.0 * |issues| as real
  {
    if issues != [] {
      TotalPenaltyBounds(issues[..|issues| - 1]);
    }
  }

  /** `calculate_confidence` on the records: the baseline less every penalty, floored at 0. */
  function Confidence(issues: seq<string>): real
  {
    var c := Baseline - TotalPenalty(issues);
    if c >= 0.0 then c else 0.0
  }

  /**
   * A blockquote's score never exceeds the baseline, and with at most two
   * records it is at least 55, so it never reaches the floor.
   */
  lemma ConfidenceBounds(issues: seq<string>)
    ensures 0.0 <= Confidence(issues) <= Baseline
    ensures Confidence(issues) >= Baseline - 20.0 * |issues| as real
    ensures |issues| <= 2 ==> 55.0 <= Confidence(issues)
  {
    TotalPenaltyBounds(issues);
  }

  /** `calculate_confidence`, the loop over the records. */
  method CalculateConfidence(issues: seq<string>) returns (c: real)
    ensures c == Confidence(issues)
  {
    var baseline := Baseline;
    for i := 0 to |issues|
      invariant baseline == Baseline - TotalPenalty(issues[..i])
    {
      assert issues[..i + 1][..i] == issues[..i];
      var lowered := PyStr.Lower(issues[i]);
      if PyStr.Contains(lowered, CitePhrase) {
        baseline := baseline - 20.0;
      } else if PyStr.Contains(lowered, AriaPhrase) {
        baseline := baseline - 15.0;
      }
    }
    assert issues[..|issues|] == issues;
    c := if baseline >= 0.0 then baseline else 0.0;
  }

  /** The entry for the blockquote at 1-based position `index`: present exactly when it fails a check. */
  function BlockquoteEntry(index: nat, bq: Located, serialize: Serializer): (r: Option<Entry>)
    requires bq.node.Element?
    ensures r.Some? <==> BlockquoteIssues(bq) != []
    ensures r.Some? ==> r.value.index == index && r.value.html == serialize(bq.node)
    ensures r.Some? ==> r.value.issues == Messages(BlockquoteIssues(bq)) && r.value.confidence == Confidence(r.value.issues)
  {
    var checks := BlockquoteIssues(bq);
    if checks != [] then
      Some(Entry(index, serialize(bq.node), Messages(checks), Confidence(Messages(checks))))
    else None
  }

  /** Each blockquote's entry, if any, in document order. */
  function BlockquoteOptions(bqs: seq<Located>, serialize: Serializer): (r: seq<Option<Entry>>)
    requires forall i | 0 <= i < |bqs| :: bqs[i].node.Element?
    ensures |r| == |bqs|
  {
    seq(|bqs|, i => PositionEntry(bqs, serialize, i))
  }

  /** The entry of the candidate at 0-based position `i`; none outside `bqs`. */
  function PositionEntry(bqs: seq<Located>, serialize: Serializer, i: int): Option<Entry>
  {
    if 0 <= i < |bqs| && bqs[i].node.Element? then BlockquoteEntry(i + 1, bqs[i], serialize) else None
  }

  lemma OptionAt(bqs: seq<Located>, serialize: Serializer, i: nat)
    requires forall i | 0 <= i < |bqs| :: bqs[i].node.Element?
    requires i < |bqs|
    ensures BlockquoteOptions(bqs, serialize)[i] == BlockquoteEntry(i + 1, bqs[i], serialize)
  {
  }

  /** The `issues` list the loop builds: each failing blockquote's entry, in document order. */
  function Entries(bqs: seq<Located>, serialize: Serializer): seq<Entry>
    requires forall i | 0 <= i < |bqs| :: bqs[i].node.Element?
  {
    Kept(BlockquoteOptions(bqs, serialize))
  }

  /** The scores of `entries`, in order. */
  function Confidences(entries: seq<Entry>): (r: seq<real>)
    ensures |r| == |entries|
  {
    seq(|entries|, j requires 0 <= j < |entries| => entries[j].confidence)
  }

  /** The result of `test_blockquote_markup` on a document, with the intended scoring. */
  function Report(doc: seq<Node>, serialize: Serializer): Outcome<Entry>
  {
    var bqs := FindInDocument(doc, BlockquoteTags);
    if bqs == [] then Outcome(NotApplicable, [], 100.0)
    else
      var entries := Entries(bqs, serialize);
      Outcome(if entries != [] then Malformed else Passed, entries, MeanOr100(Confidences(entries)))
  }

  /** `test_blockquote_markup`, scoring the `{"issue": message}` records. */
  method TestBlockquoteMarkup(doc: seq<Node>, serialize: Serializer) returns (r: Outcome<Entry>)
    ensures r == Report(doc, serialize)
  {
    var bqs := FindInDocument(doc, BlockquoteTags);
    if bqs == [] {
      return Outcome(NotApplicable, [], 100.0);
    }
    ghost var opts := BlockquoteOptions(bqs, serialize);
    var issues: seq<Entry> := [];
    for index := 0 to |bqs|
      invariant issues == Kept(opts[..index])
    {
      KeptSnoc(opts, index);
      var bq := bqs[index];
      var html := serialize(bq.node);
      var checks := BlockquoteIssues(bq);
      var records := Messages(checks);
      var confidence := CalculateConfidence(records);
      assert opts[index] == BlockquoteEntry(index + 1, bq, serialize);
      if checks != [] {
        issues := issues + [Entry(index + 1, html, records, confidence)];
      }
    }
    assert opts[..|bqs|] == opts;
    assert issues == Entries(bqs, serialize);
    r := Outcome(if issues != [] then Malformed else Passed, issues, MeanOr100(Confidences(issues)));
  }

  /** `e` is the entry of the blockquote it names by 1-based position. */
  predicate EntryOf(bqs: seq<Located>, serialize: Serializer, e: Entry)
    requires forall i | 0 <= i < |bqs| :: bqs[i].node.Element?
  {
    1 <= e.index <= |bqs| && BlockquoteEntry(e.index, bqs[e.index - 1], serialize) == Some(e)
  }

  /** The j-th recorded entry is the entry of the blockquote at the j-th kept position. */
  lemma EntryAt(bqs: seq<Located>, serialize: Serializer, j: nat)
    requires forall i | 0 <= i < |bqs| :: bqs[i].node.Element?
    requires j < |Entries(bqs, serialize)|
    ensures var opts := BlockquoteOptions(bqs, serialize);
      && j < |KeptAt(opts)|
      && Entries(bqs, serialize)[j].index == KeptAt(opts)[j] + 1
      && EntryOf(bqs, serialize, Entries(bqs, serialize)[j])
  {
    var opts := BlockquoteOptions(bqs, serialize);
    KeptExactly(opts);
    var i := KeptAt(opts)[j];
    var e := Entries(bqs, serialize)[j];
    OptionAt(bqs, serialize, i);
    assert BlockquoteEntry(i + 1, bqs[i], serialize) == Some(e);
    assert e.index - 1 == i;
  }

  /** Every recorded entry is the entry of the blockquote it names, and the entries follow document order. */
  lemma EntriesSound(bqs: seq<Located>, serialize: Serializer)
    requires forall i | 0 <= i < |bqs| :: bqs[i].node.Element?
    ensures var es := Entries(bqs, serialize);
      && (forall j | 0 <= j < |es| :: EntryOf(bqs, serialize, es[j]))
      && (forall j, k | 0 <= j < k < |es| :: es[j].index < es[k].index)
  {
    var es := Entries(bqs, serialize);
    KeptExactly(BlockquoteOptions(bqs, serialize));
    forall j | 0 <= j < |es| ensures EntryOf(bqs, serialize, es[j]) {
      EntryAt(bqs, serialize, j);
    }
    forall j, k | 0 <= j < k < |es| ensures es[j].index < es[k].index {
      EntryAt(bqs, serialize, j);
      EntryAt(bqs, serialize, k);
    }
  }

  /** Every blockquote that fails a check is named by some entry of `es`. */
  predicate Covers(bqs: seq<Located>, es: seq<Entry>)
    requires forall i | 0 <= i < |bqs| :: bqs[i].node.Element?
  {
    forall i | 0 <= i < |bqs| && BlockquoteIssues(bqs[i]) != [] :: exists j | 0 <= j < |es| :: es[j].index == i + 1
  }

  /** Every failing blockquote has an entry. */
  lemma EntriesComplete(bqs: seq<Located>, serialize: Serializer)
    requires forall i | 0 <= i < |bqs| :: bqs[i].node.Element?
    ensures Covers(bqs, Entries(bqs, serialize))
  {
    var opts := BlockquoteOptions(bqs, serialize);
    KeptExactly(opts);
    var es := Entries(bqs, serialize);
    var at := KeptAt(opts);
    forall i | 0 <= i < |bqs| && BlockquoteIssues(bqs[i]) != []
      ensures exists j | 0 <= j < |es| :: es[j].index == i + 1
    {
      OptionAt(bqs, serialize, i);
      var j :| 0 <= j < |at| && at[j] == i;
      assert opts[at[j]] == Some(es[j]);
    }
  }

  /** There are no entries exactly when no blockquote fails a check. */
  lemma EntriesEmpty(bqs: seq<Located>, serialize: Serializer)
    requires forall i | 0 <= i < |bqs| :: bqs[i].node.Element?
    ensures Entries(bqs, serialize) == [] <==> forall i | 0 <= i < |bqs| :: BlockquoteIssues(bqs[i]) == []
  {
    var opts := BlockquoteOptions(bqs, serialize);
    KeptEmpty(opts);
    forall i | 0 <= i < |bqs| ensures opts[i].Some? == (BlockquoteIssues(bqs[i]) != []) {
      OptionAt(bqs, serialize, i);
    }
  }

  /** Without blockquotes the validator reports Not Applicable with confidence 100, and only then. */
  lemma NotApplicableWithoutBlockquotes(doc: seq<Node>, serialize: Serializer)
    ensures Report(doc, serialize).status == NotApplicable <==> !HasElement(doc, BlockquoteTags)
    ensures !HasElement(doc, BlockquoteTags) ==> Report(doc, serialize) == Outcome(NotApplicable, [], 100.0)
    ensures !HasElement(doc, BlockquoteTags) ==> ReportAsWritten(doc, serialize) == Success(Outcome(NotApplicable, [], 100.0))
  {
    FindAllEmpty(doc, [], BlockquoteTags);
  }

  /**
   * With blockquotes, the result is Malformed exactly when some blockquote
   * fails a check, and Passed, with confidence 100, otherwise.
   */
  lemma BlockquoteStatus(doc: seq<Node>, serialize: Serializer)
    requires HasElement(doc, BlockquoteTags)
    ensures var bqs := FindInDocument(doc, BlockquoteTags);
      && (Report(doc, serialize).status == Malformed <==> exists i | 0 <= i < |bqs| :: BlockquoteIssues(bqs[i]) != [])
      && (Report(doc, serialize).status == Passed <==> forall i | 0 <= i < |bqs| :: BlockquoteIssues(bqs[i]) == [])
      && (Report(doc, serialize).status == Passed ==> Report(doc, serialize).confidence == 100.0)
  {
    FindAllEmpty(doc, [], BlockquoteTags);
    EntriesEmpty(FindInDocument(doc, BlockquoteTags), serialize);
  }

  /**
   * A failing blockquote scores 75 when it lacks only a source, 80 when it
   * lacks only an ARIA reference, and 60 when it lacks both.
   */
  lemma IssuesConfidence(bq: Located)
    requires bq.node.Element? && BlockquoteIssues(bq) != []
    ensures var checks := BlockquoteIssues(bq);
      Confidence(Messages(checks)) ==
        if checks == [MissingSource] then 75.0 else if checks == [MissingAria] then 80.0 else 60.0
    ensures BlockquoteIssues(bq) in {[MissingSource], [MissingAria], [MissingSource, MissingAria]}
  {
    var checks := BlockquoteIssues(bq);
    BlockquoteIssuesExactly(bq);
    MessagePenalty(MissingSource);
    MessagePenalty(MissingAria);
    var ms := Messages(checks);
    assert TotalPenalty(ms[..0]) == 0.0;
    if |checks| == 1 {
      assert ms[..0] == [];
      assert TotalPenalty(ms) == Penalty(Message(checks[0]));
    } else {
      assert checks == [MissingSource, MissingAria];
      assert ms[..1] == [Message(MissingSource)];
      assert ms[..1][..0] == [];
      assert TotalPenalty(ms) == 35.0;
    }
  }

  /** A recorded blockquote scores 60, 75 or 80. */
  lemma EntryScore(bqs: seq<Located>, serialize: Serializer, e: Entry)
    requires forall i | 0 <= i < |bqs| :: bqs[i].node.Element?
    requires EntryOf(bqs, serialize, e)
    ensures e.confidence == 60.0 || e.confidence == 75.0 || e.confidence == 80.0
  {
    IssuesConfidence(bqs[e.index - 1]);
  }

  /** Every recorded blockquote scores between 60 and 80. */
  lemma EntriesScore(bqs: seq<Located>, serialize: Serializer)
    requires forall i | 0 <= i < |bqs| :: bqs[i].node.Element?
    ensures var es := Entries(bqs, serialize);
      forall j | 0 <= j < |es| :: 60.0 <= es[j].confidence <= 80.0
  {
    var es := Entries(bqs, serialize);
    EntriesSound(bqs, serialize);
    forall j | 0 <= j < |es| ensures 60.0 <= es[j].confidence <= 80.0 {
      EntryScore(bqs, serialize, es[j]);
    }
  }

  /** A Malformed result scores the mean of its entries' scores, so it lies in [60, 80]. */
  lemma BlockquoteScore(doc: seq<Node>, serialize: Serializer)
    requires Report(doc, serialize).status == Malformed
    ensures var r := Report(doc, serialize);
      && (forall j | 0 <= j < |r.details| :: 60.0 <= r.details[j].confidence <= 80.0)
      && 60.0 <= r.confidence <= 80.0
  {
    var bqs := FindInDocument(doc, BlockquoteTags);
    var es := Entries(bqs, serialize);
    assert Report(doc, serialize) == Outcome(Malformed, es, Mean(Confidences(es)));
    EntriesScore(bqs, serialize);
    MeanBounds(Confidences(es), 60.0, 80.0);
  }

  /**
   * The code as written and the intended scoring agree exactly when no
   * blockquote fails a check; once one does, the code as written raises
   * AttributeError where the intended scoring reports Malformed.
   */
  lemma AsWrittenRaisesOnEveryIssue(doc: seq<Node>, serialize: Serializer)
    ensures ReportAsWritten(doc, serialize).Success? <==> Report(doc, serialize).status != Malformed
    ensures ReportAsWritten(doc, serialize).Success? ==> ReportAsWritten(doc, serialize).value == Report(doc, serialize)
    ensures ReportAsWritten(doc, serialize).Failure? ==> ReportAsWritten(doc, serialize).error == AttributeError
  {
    var bqs := FindInDocument(doc, BlockquoteTags);
    if bqs != [] {
      EntriesEmpty(bqs, serialize);
      forall i | 0 <= i < |bqs|
        ensures ConfidenceAsWritten(Messages(BlockquoteIssues(bqs[i]))).Failure? <==> BlockquoteIssues(bqs[i]) != []
      {
        assert |Messages(BlockquoteIssues(bqs[i]))| == |BlockquoteIssues(bqs[i])|;
      }
      var entries := Entries(bqs, serialize);
      if entries == [] {
        assert Confidences(entries) == [];
      }
    }
  }

  /** A lone `<blockquote>` with no attributes and no content: the smallest document that shows the error. */
  const BareBlockquote := Element("blockquote", map[], [], None)

  /** On that document the code as written raises AttributeError, and the intended scoring reports Malformed. */
  lemma BareBlockquoteRaises(serialize: Serializer)
    ensures ReportAsWritten([BareBlockquote], serialize) == Failure(AttributeError)
    ensures Report([BareBlockquote], serialize).status == Malformed
  {
    var doc := [BareBlockquote];
    var located := Located(BareBlockquote, []);
    assert doc[1..] == [] && [located][1..] == [];
    assert Walk(doc, []) == [located];
    assert Select([located], BlockquoteTags) == [located] + Select([], BlockquoteTags);
    var bqs := FindInDocument(doc, BlockquoteTags);
    assert bqs == [located];
    BlockquoteIssuesExactly(bqs[0]);
    assert BlockquoteIssues(bqs[0]) != [];
    AsWrittenRaisesOnEveryIssue(doc, serialize);
    BlockquoteStatus(doc, serialize);
  }
}
