/**
 * Success Criterion 1.3.1, form markup: `test_form_markup` checks every
 * input, textarea and select of every form for a label and a name, and the
 * form itself for an ARIA label reference and for grouping; it records each
 * form with an issue together with a score of its own, and scores the run by
 * the mean of those scores.
 *
 * An input counts as labelled only through a `<label>` ancestor or a truthy
 * `aria-label` (test_form_markup.py:74-80). A form's score is 95 less 20 per
 * missing label, 15 for missing grouping and 10 for missing ARIA; the name
 * or id message costs nothing (lines 94-105).
 */
module Forms {
  import opened Wrappers
  import opened Dom
  import PyStr
  import opened Verdict

  const FormTags: set<string> := {"form"}
  const InputTags: set<string> := {"input", "textarea", "select"}
  const GroupTags: set<string> := {"fieldset", "optgroup"}
  const Baseline := 95.0
  const LabelPhrase := "missing a label"
  const GroupPhrase := "not grouped"
  const AriaPhrase := "missing an aria"

  /* The four messages, written in pieces so that the penalty proofs can read them. */
  const MissingLabelMessage := "Input element is " + (LabelPhrase + " or aria-label.")
  const MissingNameMessage := "Input ele" + ("ment is " + ("missing a na" + ("me or id " + "attribute.")))
  const MissingAriaMessage :=
    "For" + ("m is " + (AriaPhrase + ("-labelledby or aria-" + ("describedby attribute " + "for accessibility."))))
  const UngroupedMessage := "Form fields are " + (GroupPhrase + (" (use <fieldset> or " + ("<optgroup> where " + "appropriate).")))

  /**
   * One record of a form's `form_issues`: "form_index", "input_index" and
   * "input_html" (`None` where the code writes "N/A", for the form-level
   * records) and "issue".
   */
  datatype Record = Record(formIndex: nat, inputIndex: Option<nat>, inputHtml: Option<string>, issue: string)

  /** One entry of `details`: "form_index", "issues" and "confidence_percentage". */
  datatype Entry = Entry(index: nat, issues: seq<Record>, confidence: real)

  /** The stripped value of an attribute, "" when it is absent: `inp.get(key, '').strip()`. */
  function Stripped(n: Node, key: string): string
    requires n.Element?
  {
    PyStr.Strip(GetOr(n, key, ""))
  }

  /**
   * `validate_input_field`: an input with neither a `<label>` ancestor nor a
   * non-empty `aria-label` lacks a label; a labelled one whose `name` and
   * `id` are both blank lacks a name; every input type is checked.
   */
  function ValidateInput(inp: Located): (r: Option<string>)
    requires inp.node.Element?
    ensures r == Some(MissingLabelMessage) <==> "label" !in inp.above && !Truthy(inp.node, "aria-label")
    ensures r == Some(MissingNameMessage) <==>
              ("label" in inp.above || Truthy(inp.node, "aria-label"))
              && Stripped(inp.node, "name") == "" && Stripped(inp.node, "id") == ""
    ensures r.None? <==>
              ("label" in inp.above || Truthy(inp.node, "aria-label"))
              && (Stripped(inp.node, "name") != "" || Stripped(inp.node, "id") != "")
  {
    if !("label" in inp.above || Truthy(inp.node, "aria-label")) then Some(MissingLabelMessage)
    else if Stripped(inp.node, "name") == "" && Stripped(inp.node, "id") == "" then Some(MissingNameMessage)
    else None
  }

  /** `validate_aria`: flags a form with neither a non-empty `aria-labelledby` nor `aria-describedby`. */
  function ValidateAria(form: Located): (r: Option<string>)
    requires form.node.Element?
    ensures r.Some? <==> !Truthy(form.node, "aria-labelledby") && !Truthy(form.node, "aria-describedby")
    ensures r.Some? ==> r.value == MissingAriaMessage
  {
    if !Truthy(form.node, "aria-labelledby") && !Truthy(form.node, "aria-describedby") then Some(MissingAriaMessage) else None
  }

  /** `validate_form_grouping`: flags a form with neither a `<fieldset>` nor an `<optgroup>` below it. */
  function ValidateGrouping(form: Located): (r: Option<string>)
    requires form.node.Element?
    ensures r.Some? <==> !HasElement(form.node.children, {"fieldset"}) && !HasElement(form.node.children, {"optgroup"})
    ensures r.Some? ==> r.value == UngroupedMessage
  {
    FindAllEmpty(form.node.children, form.above + [form.node.name], {"fieldset"});
    FindAllEmpty(form.node.children, form.above + [form.node.name], {"optgroup"});
    if FindBelow(form, {"fieldset"}) == [] && FindBelow(form, {"optgroup"}) == [] then Some(UngroupedMessage) else None
  }

  // ---------------------------------------------------------------------
  // The input records of one form

  /** The record for the input at 0-based position `i` of the form at 1-based position `formIndex`, if it fails. */
  function InputRecord(formIndex: nat, inputs: seq<Located>, serialize: Serializer, i: int): Option<Record>
  {
    if 0 <= i < |inputs| && inputs[i].node.Element? then
      match ValidateInput(inputs[i])
      case Some(m) => Some(Record(formIndex, Some(i + 1), Some(serialize(inputs[i].node)), m))
      case None => None
    else None
  }

  /** Each input's record, if any, in document order. */
  function InputOptions(formIndex: nat, inputs: seq<Located>, serialize: Serializer): (r: seq<Option<Record>>)
    ensures |r| == |inputs|
  {
    seq(|inputs|, i => InputRecord(formIndex, inputs, serialize, i))
  }

  /** The comprehension over `enumerate(inputs)`: a record for each failing input, in order. */
  function InputRecords(formIndex: nat, inputs: seq<Located>, serialize: Serializer): seq<Record>
  {
    Kept(InputOptions(formIndex, inputs, serialize))
  }

  /** `r` records the failing input it names by 1-based position, with its message and serialisation. */
  predicate InputRecordOf(formIndex: nat, inputs: seq<Located>, serialize: Serializer, r: Record)
    requires forall i | 0 <= i < |inputs| :: inputs[i].node.Element?
  {
    && r.formIndex == formIndex
    && r.inputIndex.Some? && 1 <= r.inputIndex.value <= |inputs|
    && ValidateInput(inputs[r.inputIndex.value - 1]) == Some(r.issue)
    && r.inputHtml == Some(serialize(inputs[r.inputIndex.value - 1].node))
  }

  /**
   * Every input record names a failing input of the form, with its message,
   * and the records follow the inputs' order.
   */
  lemma InputRecordsSound(formIndex: nat, inputs: seq<Located>, serialize: Serializer)
    requires forall i | 0 <= i < |inputs| :: inputs[i].node.Element?
    ensures var rs := InputRecords(formIndex, inputs, serialize);
      && |rs| <= |inputs|
      && (forall j | 0 <= j < |rs| :: InputRecordOf(formIndex, inputs, serialize, rs[j]))
      && (forall j, k | 0 <= j < k < |rs| :: rs[j].inputIndex.value < rs[k].inputIndex.value)
  {
    var opts := InputOptions(formIndex, inputs, serialize);
    var rs := InputRecords(formIndex, inputs, serialize);
    KeptExactly(opts);
    var at := KeptAt(opts);
    forall j | 0 <= j < |rs| ensures InputRecordOf(formIndex, inputs, serialize, rs[j]) && rs[j].inputIndex == Some(at[j] + 1) {
      assert opts[at[j]] == Some(rs[j]);
    }
  }

  /** Every failing input has a record. */
  lemma InputRecordsComplete(formIndex: nat, inputs: seq<Located>, serialize: Serializer)
    requires forall i | 0 <= i < |inputs| :: inputs[i].node.Element?
    ensures var rs := InputRecords(formIndex, inputs, serialize);
      forall i | 0 <= i < |inputs| && ValidateInput(inputs[i]).Some? ::
        exists j | 0 <= j < |rs| :: rs[j].inputIndex == Some(i + 1)
  {
    var opts := InputOptions(formIndex, inputs, serialize);
    var rs := InputRecords(formIndex, inputs, serialize);
    KeptExactly(opts);
    var at := KeptAt(opts);
    forall i | 0 <= i < |inputs| && ValidateInput(inputs[i]).Some?
      ensures exists j | 0 <= j < |rs| :: rs[j].inputIndex == Some(i + 1)
    {
      assert opts[i].Some?;
      var j :| 0 <= j < |at| && at[j] == i;
      assert opts[at[j]] == Some(rs[j]);
    }
  }

  /** No input record exactly when every input has a label and a name or id. */
  lemma InputRecordsEmpty(formIndex: nat, inputs: seq<Located>, serialize: Serializer)
    requires forall i | 0 <= i < |inputs| :: inputs[i].node.Element?
    ensures InputRecords(formIndex, inputs, serialize) == [] <==> forall i | 0 <= i < |inputs| :: ValidateInput(inputs[i]).None?
  {
    var opts := InputOptions(formIndex, inputs, serialize);
    KeptEmpty(opts);
    assert forall i | 0 <= i < |inputs| :: opts[i].Some? == ValidateInput(inputs[i]).Some?;
  }

  // ---------------------------------------------------------------------
  // One form

  /** The inputs of a form: its input, textarea and select descendants, in document order. */
  function Inputs(form: Located): (r: seq<Located>)
    requires form.node.Element?
    ensures forall i | 0 <= i < |r| :: r[i].node.Element?
  {
    FindBelow(form, InputTags)
  }

  /** A form-level record: no input index and no input html. */
  function FormLevel(formIndex: nat, issue: Option<string>): Option<Record>
  {
    match issue
    case Some(m) => Some(Record(formIndex, None, None, m))
    case None => None
  }

  /** The form-level records of a form: ARIA first, then grouping. */
  function FormLevelRecords(formIndex: nat, form: Located): seq<Record>
    requires form.node.Element?
  {
    Collect2(FormLevel(formIndex, ValidateAria(form)), FormLevel(formIndex, ValidateGrouping(form)))
  }

  /** `form_issues` for the form at 1-based position `formIndex`: the input records, then ARIA, then grouping. */
  function FormRecords(formIndex: nat, form: Located, serialize: Serializer): seq<Record>
    requires form.node.Element?
  {
    InputRecords(formIndex, Inputs(form), serialize) + FormLevelRecords(formIndex, form)
  }

  /**
   * The form-level records carry no input index and no html; the ARIA record
   * is there exactly when the ARIA check fails and the grouping record
   * exactly when the grouping check fails, ARIA first.
   */
  lemma FormLevelShape(formIndex: nat, form: Located)
    requires form.node.Element?
    ensures var tail := FormLevelRecords(formIndex, form);
      && |tail| <= 2
      && (forall j | 0 <= j < |tail| :: tail[j].formIndex == formIndex && tail[j].inputIndex.None? && tail[j].inputHtml.None?)
      && (Record(formIndex, None, None, MissingAriaMessage) in tail <==> ValidateAria(form).Some?)
      && (Record(formIndex, None, None, UngroupedMessage) in tail <==> ValidateGrouping(form).Some?)
      && (|tail| == 2 ==> tail[0].issue == MissingAriaMessage)
  {
    assert MissingAriaMessage != UngroupedMessage by {
      assert |MissingAriaMessage| != |UngroupedMessage|;
    }
  }

  /** A form's records start with its input records, each of which carries an input index. */
  lemma FormRecordsShape(formIndex: nat, form: Located, serialize: Serializer)
    requires form.node.Element?
    ensures var rs := FormRecords(formIndex, form, serialize);
      var ins := InputRecords(formIndex, Inputs(form), serialize);
      && rs[..|ins|] == ins
      && rs[|ins|..] == FormLevelRecords(formIndex, form)
      && (forall j | 0 <= j < |ins| :: ins[j].inputIndex.Some?)
  {
    InputRecordsSound(formIndex, Inputs(form), serialize);
  }

  /**
   * The penalty for one record: matched on its lower-cased "issue", 20 when
   * it contains "missing a label", else 15 when it contains "not grouped",
   * else 10 when it contains "missing an aria", else nothing.
   */
  function Penalty(issue: string): (p: real)
    ensures p == 0.0 || p == 10.0 || p == 15.0 || p == 20.0
  {
    var lowered := PyStr.Lower(issue);
    if PyStr.Contains(lowered, LabelPhrase) then 20.0
    else if PyStr.Contains(lowered, GroupPhrase) then 15.0
    else if PyStr.Contains(lowered, AriaPhrase) then 10.0
    else 0.0
  }

  /** The name message names none of the three phrases. */
  lemma NameMessageReads()
    ensures !PyStr.Contains(PyStr.Lower(MissingNameMessage), LabelPhrase)
    ensures !PyStr.Contains(PyStr.Lower(MissingNameMessage), GroupPhrase)
    ensures !PyStr.Contains(PyStr.Lower(MissingNameMessage), AriaPhrase)
  {
    NameMessageLacksLabel();
    NameMessageLacksGroup();
    NameMessageLacksAria();
  }

  /** Its only 'l' sits too early for "missing a label", whose first 'l' is its eleventh letter. */
  lemma NameMessageLacksLabel()
    ensures !PyStr.Contains(PyStr.Lower(MissingNameMessage), LabelPhrase)
  {
    assert PyStr.CapitalOf('l', 'L') && LabelPhrase[10] == 'l';
    assert PyStr.Avoids("Input ele", 9, 'l', 'L');
    assert PyStr.Avoids("ment is ", 0, 'l', 'L');
    assert PyStr.Avoids("missing a na", 0, 'l', 'L');
    assert PyStr.Avoids("me or id ", 0, 'l', 'L');
    assert PyStr.Avoids("attribute.", 0, 'l', 'L');
    PyStr.AvoidsJoin("me or id ", "attribute.", 0, 'l', 'L');
    PyStr.AvoidsJoin("missing a na", "me or id " + "attribute.", 0, 'l', 'L');
    PyStr.AvoidsJoin("ment is ", "missing a na" + ("me or id " + "attribute."), 0, 'l', 'L');
    PyStr.AvoidsJoin("Input ele", "ment is " + ("missing a na" + ("me or id " + "attribute.")), 9, 'l', 'L');
    PyStr.LowerMissing(MissingNameMessage, LabelPhrase, 10, 'L');
  }

  /** Its only 'p' sits too early for "not grouped", whose 'p' is its ninth letter. */
  lemma NameMessageLacksGroup()
    ensures !PyStr.Contains(PyStr.Lower(MissingNameMessage), GroupPhrase)
  {
    assert PyStr.CapitalOf('p', 'P') && GroupPhrase[8] == 'p';
    assert PyStr.Avoids("Input ele", 8, 'p', 'P');
    assert PyStr.Avoids("ment is ", 0, 'p', 'P');
    assert PyStr.Avoids("missing a na", 0, 'p', 'P');
    assert PyStr.Avoids("me or id ", 0, 'p', 'P');
    assert PyStr.Avoids("attribute.", 0, 'p', 'P');
    PyStr.AvoidsJoin("me or id ", "attribute.", 0, 'p', 'P');
    PyStr.AvoidsJoin("missing a na", "me or id " + "attribute.", 0, 'p', 'P');
    PyStr.AvoidsJoin("ment is ", "missing a na" + ("me or id " + "attribute."), 0, 'p', 'P');
    PyStr.AvoidsJoin("Input ele", "ment is " + ("missing a na" + ("me or id " + "attribute.")), 8, 'p', 'P');
    PyStr.LowerMissing(MissingNameMessage, GroupPhrase, 8, 'P');
  }

  /** Every 'm' of it starts something other than "missing an aria". */
  lemma NameMessageLacksAria()
    ensures !PyStr.Contains(PyStr.Lower(MissingNameMessage), AriaPhrase)
  {
    assert PyStr.CapitalOf('m', 'M');
    assert PyStr.Avoids("Input ele", 0, 'm', 'M');
    assert PyStr.Avoids("ment is ", 1, 'm', 'M') && PyStr.LowerChar("ment is "[1]) != AriaPhrase[1];
    assert PyStr.Avoids("missing a na", 1, 'm', 'M') && PyStr.LowerChar("missing a na"[9]) != AriaPhrase[9];
    assert PyStr.Avoids("me or id ", 1, 'm', 'M') && PyStr.LowerChar("me or id "[1]) != AriaPhrase[1];
    assert PyStr.Avoids("attribute.", 0, 'm', 'M');
    PyStr.LowerSkip("Input ele", "ment is " + ("missing a na" + ("me or id " + "attribute.")), AriaPhrase, 'M');
    PyStr.LowerFalseStart("ment is ", "missing a na" + ("me or id " + "attribute."), AriaPhrase, 1, 'M');
    PyStr.LowerFalseStart("missing a na", "me or id " + "attribute.", AriaPhrase, 9, 'M');
    PyStr.LowerFalseStart("me or id ", "attribute.", AriaPhrase, 1, 'M');
    PyStr.LowerMissing("attribute.", AriaPhrase, 0, 'M');
  }

  /** A message with "missing a label" written into it names that phrase. */
  lemma LabelFound(x: string, y: string)
    ensures PyStr.Contains(PyStr.Lower(x + (LabelPhrase + y)), LabelPhrase)
  {
    PyStr.LowerFound(x, LabelPhrase, y);
  }

  /** A message with "missing an aria" written into it names that phrase. */
  lemma AriaFound(x: string, y: string)
    ensures PyStr.Contains(PyStr.Lower(x + (AriaPhrase + y)), AriaPhrase)
  {
    PyStr.LowerFound(x, AriaPhrase, y);
  }

  /** A message with "not grouped" written into it names that phrase. */
  lemma GroupFound(x: string, y: string)
    ensures PyStr.Contains(PyStr.Lower(x + (GroupPhrase + y)), GroupPhrase)
  {
    PyStr.LowerFound(x, GroupPhrase, y);
  }

  /** The form's ARIA message names "missing an aria" and neither of the other two phrases. */
  lemma AriaMessageReads()
    ensures !PyStr.Contains(PyStr.Lower(MissingAriaMessage), LabelPhrase)
    ensures !PyStr.Contains(PyStr.Lower(MissingAriaMessage), GroupPhrase)
    ensures PyStr.Contains(PyStr.Lower(MissingAriaMessage), AriaPhrase)
  {
    AriaMessageLacksLabel();
    AriaMessageLacksGroup();
    var tail := "-labelledby or aria-" + ("describedby attribute " + "for accessibility.");
    AriaFound("m is ", tail);
    PyStr.LowerGrow("For", "m is " + (AriaPhrase + tail), AriaPhrase);
  }

  /** Its 'm's start "m is " and "missing an", which depart from "missing a label". */
  lemma AriaMessageLacksLabel()
    ensures !PyStr.Contains(PyStr.Lower(MissingAriaMessage), LabelPhrase)
  {
    assert PyStr.CapitalOf('m', 'M');
    assert PyStr.Avoids("For", 0, 'm', 'M');
    assert PyStr.Avoids("m is ", 1, 'm', 'M') && PyStr.LowerChar("m is "[1]) != LabelPhrase[1];
    assert PyStr.Avoids(AriaPhrase, 1, 'm', 'M') && PyStr.LowerChar(AriaPhrase[9]) != LabelPhrase[9];
    assert PyStr.Avoids("-labelledby or aria-", 0, 'm', 'M');
    assert PyStr.Avoids("describedby attribute ", 0, 'm', 'M');
    assert PyStr.Avoids("for accessibility.", 0, 'm', 'M');
    var tail3 := "describedby attribute " + "for accessibility.";
    var tail2 := "-labelledby or aria-" + tail3;
    PyStr.LowerSkip("For", "m is " + (AriaPhrase + tail2), LabelPhrase, 'M');
    PyStr.LowerFalseStart("m is ", AriaPhrase + tail2, LabelPhrase, 1, 'M');
    PyStr.LowerFalseStart(AriaPhrase, tail2, LabelPhrase, 9, 'M');
    PyStr.LowerSkip("-labelledby or aria-", tail3, LabelPhrase, 'M');
    PyStr.LowerSkip("describedby attribute ", "for accessibility.", LabelPhrase, 'M');
    PyStr.LowerMissing("for accessibility.", LabelPhrase, 0, 'M');
  }

  /** It has no 'p' at all. */
  lemma AriaMessageLacksGroup()
    ensures !PyStr.Contains(PyStr.Lower(MissingAriaMessage), GroupPhrase)
  {
    assert PyStr.CapitalOf('p', 'P') && GroupPhrase[8] == 'p';
    assert PyStr.Avoids("For", 0, 'p', 'P');
    assert PyStr.Avoids("m is ", 0, 'p', 'P');
    assert PyStr.Avoids(AriaPhrase, 0, 'p', 'P');
    assert PyStr.Avoids("-labelledby or aria-", 0, 'p', 'P');
    assert PyStr.Avoids("describedby attribute ", 0, 'p', 'P');
    assert PyStr.Avoids("for accessibility.", 0, 'p', 'P');
    var tail3 := "describedby attribute " + "for accessibility.";
    var tail2 := "-labelledby or aria-" + tail3;
    PyStr.AvoidsJoin("describedby attribute ", "for accessibility.", 0, 'p', 'P');
    PyStr.AvoidsJoin("-labelledby or aria-", tail3, 0, 'p', 'P');
    PyStr.AvoidsJoin(AriaPhrase, tail2, 0, 'p', 'P');
    PyStr.AvoidsJoin("m is ", AriaPhrase + tail2, 0, 'p', 'P');
    PyStr.AvoidsJoin("For", "m is " + (AriaPhrase + tail2), 0, 'p', 'P');
    PyStr.LowerMissing(MissingAriaMessage, GroupPhrase, 8, 'P');
  }

  /** The grouping message names "not grouped" and, having no 'b', not "missing a label". */
  lemma UngroupedMessageReads()
    ensures !PyStr.Contains(PyStr.Lower(UngroupedMessage), LabelPhrase)
    ensures PyStr.Contains(PyStr.Lower(UngroupedMessage), GroupPhrase)
  {
    assert PyStr.CapitalOf('b', 'B') && LabelPhrase[12] == 'b';
    assert PyStr.Avoids("Form fields are ", 0, 'b', 'B');
    assert PyStr.Avoids(GroupPhrase, 0, 'b', 'B');
    assert PyStr.Avoids(" (use <fieldset> or ", 0, 'b', 'B');
    assert PyStr.Avoids("<optgroup> where ", 0, 'b', 'B');
    assert PyStr.Avoids("appropriate).", 0, 'b', 'B');
    var tail := " (use <fieldset> or " + ("<optgroup> where " + "appropriate).");
    PyStr.AvoidsJoin("<optgroup> where ", "appropriate).", 0, 'b', 'B');
    PyStr.AvoidsJoin(" (use <fieldset> or ", "<optgroup> where " + "appropriate).", 0, 'b', 'B');
    PyStr.AvoidsJoin(GroupPhrase, tail, 0, 'b', 'B');
    PyStr.AvoidsJoin("Form fields are ", GroupPhrase + tail, 0, 'b', 'B');
    PyStr.LowerMissing(UngroupedMessage, LabelPhrase, 12, 'B');
    GroupFound("Form fields are ", tail);
  }

  /**
   * What each message costs: 20 for the label message, nothing for the
   * name message, 10 for the form's ARIA message and 15 for the grouping
   * message.
   */
  lemma MessagePenalties()
    ensures Penalty(MissingLabelMessage) == 20.0
    ensures Penalty(MissingNameMessage) == 0.0
    ensures Penalty(MissingAriaMessage) == 10.0
    ensures Penalty(UngroupedMessage) == 15.0
  {
    LabelFound("Input element is ", " or aria-label.");
    NameMessageReads();
    AriaMessageReads();
    UngroupedMessageReads();
  }

  /** The penalties of `records`, added up. */
  function TotalPenalty(records: seq<Record>): real
  {
    if records == [] then 0.0 else TotalPenalty(records[..|records| - 1]) + Penalty(records[|records| - 1].issue)
  }

  /** Every record costs between 0 and 20 points. */
  lemma {:induction false} TotalPenaltyBounds(records: seq<Record>)
    ensures 0.0 <= TotalPenalty(records) <= 20.0 * |records| as real
  {
    if records != [] {
      TotalPenaltyBounds(records[..|records| - 1]);
    }
  }

  /** `calculate_confidence`: the baseline less every penalty, floored at 0. */
  function Confidence(records: seq<Record>): real
  {
    var c := Baseline - TotalPenalty(records);
    if c >= 0.0 then c else 0.0
  }

  /** A form's score lies in [0, 95], and is at least 95 less 20 points per record. */
  lemma ConfidenceBounds(records: seq<Record>)
    ensures 0.0 <= Confidence(records) <= Baseline
    ensures Confidence(records) >= Baseline - 20.0 * |records| as real
  {
    TotalPenaltyBounds(records);
  }

  /** The penalties of two runs of records add up. */
  lemma {:induction false} TotalPenaltyAppend(a: seq<Record>, b: seq<Record>)
    ensures TotalPenalty(a + b) == TotalPenalty(a) + TotalPenalty(b)
    decreases |b|
  {
    if b == [] {
      assert a + b == a;
    } else {
      var init := b[..|b| - 1];
      TotalPenaltyAppend(a, init);
      assert (a + b)[..|a + b| - 1] == a + init;
    }
  }

  /** The input has a `<label>` ancestor or a non-empty `aria-label`. */
  predicate Labelled(inp: Located)
    requires inp.node.Element?
  {
    "label" in inp.above || Truthy(inp.node, "aria-label")
  }

  /** The number of inputs without a label among the first `n`. */
  function Unlabelled(inputs: seq<Located>, n: nat): nat
    requires forall i | 0 <= i < |inputs| :: inputs[i].node.Element?
    requires n <= |inputs|
  {
    if n == 0 then 0
    else Unlabelled(inputs, n - 1) + LabelMissing(inputs[n - 1])
  }

  /** 1 for an input without a label, 0 for one with. */
  function LabelMissing(inp: Located): (r: nat)
    requires inp.node.Element?
    ensures r <= 1
  {
    if Labelled(inp) then 0 else 1
  }

  /** Twenty points per unlabelled input add up. */
  lemma ScaleSum(u: nat, d: nat)
    ensures 20.0 * (u + d) as real == 20.0 * u as real + 20.0 * d as real
  {
  }

  /** An input's record costs 20 points when it lacks a label and nothing when it lacks a name. */
  lemma InputIssuePenalty(inp: Located)
    requires inp.node.Element? && ValidateInput(inp).Some?
    ensures Penalty(ValidateInput(inp).value) == if ValidateInput(inp) == Some(MissingLabelMessage) then 20.0 else 0.0
  {
    MessagePenalties();
  }

  /** A single record costs its own penalty. */
  lemma TotalPenaltyOne(r: Record)
    ensures TotalPenalty([r]) == Penalty(r.issue)
  {
    assert [r][..0] == [];
  }

  /** The record of the input at `i`, if any, costs 20 points when that input lacks a label and nothing otherwise. */
  lemma InputStepPenalty(formIndex: nat, inputs: seq<Located>, serialize: Serializer, i: nat)
    requires forall i | 0 <= i < |inputs| :: inputs[i].node.Element?
    requires i < |inputs|
    ensures TotalPenalty(Present(InputOptions(formIndex, inputs, serialize)[i]))
         == 20.0 * LabelMissing(inputs[i]) as real
  {
    var o := InputOptions(formIndex, inputs, serialize)[i];
    assert o == InputRecord(formIndex, inputs, serialize, i);
    if o.Some? {
      assert o.value.issue == ValidateInput(inputs[i]).value;
      InputIssuePenalty(inputs[i]);
      TotalPenaltyOne(o.value);
    } else {
      assert ValidateInput(inputs[i]).None?;
    }
  }

  /**
   * The entries kept from the first `n` options cost 20 points per
   * unlabelled input among the first `n`, when each option costs 20 points
   * exactly when its input lacks a label.
   */
  lemma {:induction false} KeptPenaltyPrefix(opts: seq<Option<Record>>, inputs: seq<Located>, n: nat)
    requires forall i | 0 <= i < |inputs| :: inputs[i].node.Element?
    requires |opts| == |inputs| && n <= |inputs|
    requires forall i | 0 <= i < |opts| :: TotalPenalty(Present(opts[i])) == 20.0 * LabelMissing(inputs[i]) as real
    ensures TotalPenalty(Kept(opts[..n])) == 20.0 * Unlabelled(inputs, n) as real
  {
    if n == 0 {
      assert opts[..0] == [];
    } else {
      KeptPenaltyPrefix(opts, inputs, n - 1);
      KeptSnoc(opts, n - 1);
      TotalPenaltyAppend(Kept(opts[..n - 1]), Present(opts[n - 1]));
      ScaleSum(Unlabelled(inputs, n - 1), LabelMissing(inputs[n - 1]));
    }
  }

  /** A form's input records cost 20 points per input without a label; a missing name or id costs nothing. */
  lemma InputPenalty(formIndex: nat, inputs: seq<Located>, serialize: Serializer)
    requires forall i | 0 <= i < |inputs| :: inputs[i].node.Element?
    ensures TotalPenalty(InputRecords(formIndex, inputs, serialize)) == 20.0 * Unlabelled(inputs, |inputs|) as real
  {
    var opts := InputOptions(formIndex, inputs, serialize);
    forall i: nat | i < |inputs| {
      InputStepPenalty(formIndex, inputs, serialize, i);
    }
    KeptPenaltyPrefix(opts, inputs, |inputs|);
    assert opts[..|inputs|] == opts;
  }

  /** The penalty of at most two records, ARIA then grouping. */
  lemma PairPenalty(formIndex: nat, aria: Option<string>, grouping: Option<string>)
    requires aria.Some? ==> aria.value == MissingAriaMessage
    requires grouping.Some? ==> grouping.value == UngroupedMessage
    ensures TotalPenalty(Collect2(FormLevel(formIndex, aria), FormLevel(formIndex, grouping))) ==
      (if aria.Some? then 10.0 else 0.0) + (if grouping.Some? then 15.0 else 0.0)
  {
    MessagePenalties();
    var a := Present(FormLevel(formIndex, aria));
    var g := Present(FormLevel(formIndex, grouping));
    assert Collect2(FormLevel(formIndex, aria), FormLevel(formIndex, grouping)) == a + g;
    TotalPenaltyAppend(a, g);
    assert TotalPenalty(a) == if aria.Some? then 10.0 else 0.0 by {
      if aria.Some? {
        assert a[..0] == [];
      }
    }
    assert TotalPenalty(g) == if grouping.Some? then 15.0 else 0.0 by {
      if grouping.Some? {
        assert g[..0] == [];
      }
    }
  }

  /** The form-level records cost 10 points for the ARIA record and 15 for the grouping record. */
  lemma FormLevelPenalty(formIndex: nat, form: Located)
    requires form.node.Element?
    ensures TotalPenalty(FormLevelRecords(formIndex, form)) ==
      (if ValidateAria(form).Some? then 10.0 else 0.0) + (if ValidateGrouping(form).Some? then 15.0 else 0.0)
  {
    PairPenalty(formIndex, ValidateAria(form), ValidateGrouping(form));
  }

  /**
   * A form's score: 95 less 20 points per input without a label, 10 when
   * the form has no ARIA label reference and 15 when it is not grouped,
   * floored at 0.
   */
  lemma FormConfidence(formIndex: nat, form: Located, serialize: Serializer)
    requires form.node.Element?
    ensures var c := Baseline - 20.0 * Unlabelled(Inputs(form), |Inputs(form)|) as real
        - (if ValidateAria(form).Some? then 10.0 else 0.0)
        - (if ValidateGrouping(form).Some? then 15.0 else 0.0);
      Confidence(FormRecords(formIndex, form, serialize)) == if c >= 0.0 then c else 0.0
  {
    TotalPenaltyAppend(InputRecords(formIndex, Inputs(form), serialize), FormLevelRecords(formIndex, form));
    InputPenalty(formIndex, Inputs(form), serialize);
    FormLevelPenalty(formIndex, form);
  }

  /** `calculate_confidence`, the loop over the records; `total_checks` is passed but never read. */
  method CalculateConfidence(records: seq<Record>, totalChecks: nat) returns (c: real)
    ensures c == Confidence(records)
  {
    var baseline := Baseline;
    for i := 0 to |records|
      invariant baseline == Baseline - TotalPenalty(records[..i])
    {
      assert records[..i + 1][..i] == records[..i];
      var issue := PyStr.Lower(records[i].issue);
      if PyStr.Contains(issue, LabelPhrase) {
        baseline := baseline - 20.0;
      } else if PyStr.Contains(issue, GroupPhrase) {
        baseline := baseline - 15.0;
      } else if PyStr.Contains(issue, AriaPhrase) {
        baseline := baseline - 10.0;
      }
    }
    assert records[..|records|] == records;
    c := if baseline >= 0.0 then baseline else 0.0;
  }

  /** The entry for the form at 1-based position `index`: present exactly when it has a record. */
  function FormEntry(index: nat, form: Located, serialize: Serializer): (r: Option<Entry>)
    requires form.node.Element?
    ensures r.Some? <==> FormRecords(index, form, serialize) != []
    ensures r.Some? ==> r.value.index == index
    ensures r.Some? ==> r.value.issues == FormRecords(index, form, serialize) && r.value.confidence == Confidence(r.value.issues)
  {
    var records := FormRecords(index, form, serialize);
    if records != [] then Some(Entry(index, records, Confidence(records))) else None
  }

  /**
   * A form has no record exactly when every input has a label and a name or
   * id, the form has an ARIA label reference, and its fields are grouped.
   */
  lemma FormPasses(index: nat, form: Located, serialize: Serializer)
    requires form.node.Element?
    ensures FormRecords(index, form, serialize) == [] <==>
      && (forall i | 0 <= i < |Inputs(form)| :: ValidateInput(Inputs(form)[i]).None?)
      && ValidateAria(form).None?
      && ValidateGrouping(form).None?
  {
    InputRecordsEmpty(index, Inputs(form), serialize);
  }

  // ---------------------------------------------------------------------
  // The whole document

  /** Each form's entry, if any, in document order. */
  function FormOptions(forms: seq<Located>, serialize: Serializer): (r: seq<Option<Entry>>)
    ensures |r| == |forms|
  {
    seq(|forms|, i => PositionEntry(forms, serialize, i))
  }

  /** The entry of the form at 0-based position `i`; none outside `forms`. */
  function PositionEntry(forms: seq<Located>, serialize: Serializer, i: int): Option<Entry>
  {
    if 0 <= i < |forms| && forms[i].node.Element? then FormEntry(i + 1, forms[i], serialize) else None
  }

  lemma OptionAt(forms: seq<Located>, serialize: Serializer, i: nat)
    requires forall i | 0 <= i < |forms| :: forms[i].node.Element?
    requires i < |forms|
    ensures FormOptions(forms, serialize)[i] == FormEntry(i + 1, forms[i], serialize)
  {
  }

  /** The `issues` list the loop builds: each form with a record, in document order. */
  function Entries(forms: seq<Located>, serialize: Serializer): seq<Entry>
  {
    Kept(FormOptions(forms, serialize))
  }

  /** The scores of `entries`, in order. */
  function Confidences(entries: seq<Entry>): (r: seq<real>)
    ensures |r| == |entries|
  {
    seq(|entries|, j requires 0 <= j < |entries| => entries[j].confidence)
  }

  /** The result of `test_form_markup` on a document. */
  function Report(doc: seq<Node>, serialize: Serializer): Outcome<Entry>
  {
    var forms := FindInDocument(doc, FormTags);
    if forms == [] then Outcome(NotApplicable, [], 100.0)
    else
      var entries := Entries(forms, serialize);
      Outcome(if entries != [] then Malformed else Passed, entries, MeanOr100(Confidences(entries)))
  }

  /** The body of the loop over the forms: one form's `form_issues` and its score. */
  method CheckForm(formIndex: nat, form: Located, serialize: Serializer) returns (formIssues: seq<Record>, confidence: real)
    requires form.node.Element?
    ensures formIssues == FormRecords(formIndex, form, serialize)
    ensures confidence == Confidence(formIssues)
  {
    var inputs := Inputs(form);
    var ariaIssue := ValidateAria(form);
    var groupingIssue := ValidateGrouping(form);
    formIssues := InputRecords(formIndex, inputs, serialize);
    if ariaIssue.Some? {
      formIssues := formIssues + [Record(formIndex, None, None, ariaIssue.value)];
    }
    if groupingIssue.Some? {
      formIssues := formIssues + [Record(formIndex, None, None, groupingIssue.value)];
    }
    var totalChecks := |inputs| + (if groupingIssue.Some? then 1 else 0) + (if ariaIssue.Some? then 1 else 0);
    confidence := CalculateConfidence(formIssues, totalChecks);
  }

  /** `test_form_markup` */
  method TestFormMarkup(doc: seq<Node>, serialize: Serializer) returns (r: Outcome<Entry>)
    ensures r == Report(doc, serialize)
  {
    var forms := FindInDocument(doc, FormTags);
    if forms == [] {
      return Outcome(NotApplicable, [], 100.0);
    }
    ghost var opts := FormOptions(forms, serialize);
    var issues: seq<Entry> := [];
    for formIndex := 0 to |forms|
      invariant issues == Kept(opts[..formIndex])
    {
      KeptSnoc(opts, formIndex);
      var formIssues, confidence := CheckForm(formIndex + 1, forms[formIndex], serialize);
      assert opts[formIndex] == FormEntry(formIndex + 1, forms[formIndex], serialize);
      if formIssues != [] {
        issues := issues + [Entry(formIndex + 1, formIssues, confidence)];
      }
    }
    assert opts[..|forms|] == opts;
    assert issues == Entries(forms, serialize);
    r := Outcome(if issues != [] then Malformed else Passed, issues, MeanOr100(Confidences(issues)));
  }

  /** `e` is the entry of the form it names by 1-based position. */
  predicate EntryOf(forms: seq<Located>, serialize: Serializer, e: Entry)
    requires forall i | 0 <= i < |forms| :: forms[i].node.Element?
  {
    1 <= e.index <= |forms| && FormEntry(e.index, forms[e.index - 1], serialize) == Some(e)
  }

  /** The j-th recorded entry is the entry of the form at the j-th kept position. */
  lemma EntryAt(forms: seq<Located>, serialize: Serializer, j: nat)
    requires forall i | 0 <= i < |forms| :: forms[i].node.Element?
    requires j < |Entries(forms, serialize)|
    ensures var opts := FormOptions(forms, serialize);
      && j < |KeptAt(opts)|
      && Entries(forms, serialize)[j].index == KeptAt(opts)[j] + 1
      && EntryOf(forms, serialize, Entries(forms, serialize)[j])
  {
    var opts := FormOptions(forms, serialize);
    KeptExactly(opts);
    var i := KeptAt(opts)[j];
    var e := Entries(forms, serialize)[j];
    OptionAt(forms, serialize, i);
    assert FormEntry(i + 1, forms[i], serialize) == Some(e);
    assert e.index - 1 == i;
  }

  /** Every recorded entry is the entry of the form it names, and the entries follow document order. */
  lemma EntriesSound(forms: seq<Located>, serialize: Serializer)
    requires forall i | 0 <= i < |forms| :: forms[i].node.Element?
    ensures var es := Entries(forms, serialize);
      && (forall j | 0 <= j < |es| :: EntryOf(forms, serialize, es[j]))
      && (forall j, k | 0 <= j < k < |es| :: es[j].index < es[k].index)
  {
    var es := Entries(forms, serialize);
    KeptExactly(FormOptions(forms, serialize));
    forall j | 0 <= j < |es| ensures EntryOf(forms, serialize, es[j]) {
      EntryAt(forms, serialize, j);
    }
    forall j, k | 0 <= j < k < |es| ensures es[j].index < es[k].index {
      EntryAt(forms, serialize, j);
      EntryAt(forms, serialize, k);
    }
  }

  /** Every form with a record is named by some entry of `es`. */
  predicate Covers(forms: seq<Located>, serialize: Serializer, es: seq<Entry>)
    requires forall i | 0 <= i < |forms| :: forms[i].node.Element?
  {
    forall i | 0 <= i < |forms| && FormRecords(i + 1, forms[i], serialize) != [] :: exists j | 0 <= j < |es| :: es[j].index == i + 1
  }

  /** Every form with a record has an entry. */
  lemma EntriesComplete(forms: seq<Located>, serialize: Serializer)
    requires forall i | 0 <= i < |forms| :: forms[i].node.Element?
    ensures Covers(forms, serialize, Entries(forms, serialize))
  {
    var opts := FormOptions(forms, serialize);
    KeptExactly(opts);
    var es := Entries(forms, serialize);
    var at := KeptAt(opts);
    forall i | 0 <= i < |forms| && FormRecords(i + 1, forms[i], serialize) != []
      ensures exists j | 0 <= j < |es| :: es[j].index == i + 1
    {
      OptionAt(forms, serialize, i);
      var j :| 0 <= j < |at| && at[j] == i;
      assert opts[at[j]] == Some(es[j]);
    }
  }

  /** There are no entries exactly when no form has a record. */
  lemma EntriesEmpty(forms: seq<Located>, serialize: Serializer)
    requires forall i | 0 <= i < |forms| :: forms[i].node.Element?
    ensures Entries(forms, serialize) == [] <==> forall i | 0 <= i < |forms| :: FormRecords(i + 1, forms[i], serialize) == []
  {
    var opts := FormOptions(forms, serialize);
    KeptEmpty(opts);
    forall i | 0 <= i < |forms| ensures opts[i].Some? == (FormRecords(i + 1, forms[i], serialize) != []) {
      OptionAt(forms, serialize, i);
    }
  }

  /** Without forms the validator reports Not Applicable with confidence 100, and only then. */
  lemma NotApplicableWithoutForms(doc: seq<Node>, serialize: Serializer)
    ensures Report(doc, serialize).status == NotApplicable <==> !HasElement(doc, FormTags)
    ensures !HasElement(doc, FormTags) ==> Report(doc, serialize) == Outcome(NotApplicable, [], 100.0)
  {
    FindAllEmpty(doc, [], FormTags);
  }

  /**
   * With forms, the result is Malformed exactly when some form has a record,
   * and Passed, with confidence 100, otherwise.
   */
  lemma FormStatus(doc: seq<Node>, serialize: Serializer)
    requires HasElement(doc, FormTags)
    ensures var forms := FindInDocument(doc, FormTags);
      && (Report(doc, serialize).status == Malformed <==> exists i | 0 <= i < |forms| :: FormRecords(i + 1, forms[i], serialize) != [])
      && (Report(doc, serialize).status == Passed <==> forall i | 0 <= i < |forms| :: FormRecords(i + 1, forms[i], serialize) == [])
      && (Report(doc, serialize).status == Passed ==> Report(doc, serialize).confidence == 100.0)
  {
    FindAllEmpty(doc, [], FormTags);
    EntriesEmpty(FindInDocument(doc, FormTags), serialize);
  }

  /** A recorded form scores in [0, 95]. */
  lemma EntryScore(forms: seq<Located>, serialize: Serializer, e: Entry)
    requires forall i | 0 <= i < |forms| :: forms[i].node.Element?
    requires EntryOf(forms, serialize, e)
    ensures 0.0 <= e.confidence <= Baseline
  {
    ConfidenceBounds(e.issues);
  }

  /** Every recorded form scores in [0, 95]. */
  lemma EntriesScore(forms: seq<Located>, serialize: Serializer)
    requires forall i | 0 <= i < |forms| :: forms[i].node.Element?
    ensures var es := Entries(forms, serialize);
      forall j | 0 <= j < |es| :: 0.0 <= es[j].confidence <= Baseline
  {
    var es := Entries(forms, serialize);
    EntriesSound(forms, serialize);
    forall j | 0 <= j < |es| ensures 0.0 <= es[j].confidence <= Baseline {
      EntryScore(forms, serialize, es[j]);
    }
  }

  /** A Malformed result scores the mean of its entries' scores, each in [0, 95]. */
  lemma FormScore(doc: seq<Node>, serialize: Serializer)
    requires Report(doc, serialize).status == Malformed
    ensures var r := Report(doc, serialize);
      && (forall j | 0 <= j < |r.details| :: 0.0 <= r.details[j].confidence <= Baseline)
      && 0.0 <= r.confidence <= Baseline
  {
    var forms := FindInDocument(doc, FormTags);
    var es := Entries(forms, serialize);
    assert Report(doc, serialize) == Outcome(Malformed, es, Mean(Confidences(es)));
    EntriesScore(forms, serialize);
    MeanBounds(Confidences(es), 0.0, Baseline);
  }
}
