/**
 * Success Criterion 1.3.1 (a), heading markup: `check_heading_markup` walks
 * the h1-h6, div and span elements in document order, keeps the level of
 * the last heading and the texts already seen, and files at most one issue
 * per heading, the first of six ordered rules that applies.
 *
 * The score takes 15, 10 or 5 points for the phrases "multiple <h1>",
 * "missing aria-level" and "skipped heading levels". The invalid aria-level
 * message quotes the attribute and names none of them, so it costs nothing
 * unless the quoted value itself contains one (test_heading_markup.py:95-165).
 */
module Headings {
  import opened Wrappers
  import opened Dom
  import PyStr
  import opened Verdict

  const HeadingTags: set<string> := {"h1", "h2", "h3", "h4", "h5", "h6"}
  const CandidateTags: set<string> := {"h1", "h2", "h3", "h4", "h5", "h6", "div", "span"}

  const RepetitiveMessage := "Repetitive heading detected."
  const MissingLevelMessage := "Missing aria-level" + " on role='heading'."
  const EmptyAriaMessage := "Heading with role='heading' " + "is empty or not descriptive."
  const FirstHeadingMessage := "The first heading should " + "be <h1> or aria-level='1'."
  const UnexpectedMessage := "An unexpected error occurred."

  /** The phrases `calculate_heading_confidence` looks for in a lower-cased message. */
  const MultipleH1Phrase := "multiple <h1>"
  const MissingLevelPhrase := "missing aria-level"
  const SkippedPhrase := "skipped heading levels"

  function InvalidLevelMessage(ariaLevel: string): string
  {
    "Invalid aria-level '" + ariaLevel + "'. Must be between 1 and 6."
  }

  /** How an f-string prints `current_level`, which may be `None`. */
  function LevelText(level: Option<int>): string
  {
    match level
    case Some(v) => PyStr.IntToString(v)
    case None => "None"
  }

  function SkipMessage(prev: int, current: Option<int>): string
  {
    "Skipped heading levels" + (" fro" + ("m <h" + SkipTail(prev, current)))
  }

  /** One entry of `details`: an issue filed by `add_issue`, or the note left when an exception escaped. */
  datatype Detail =
    | Issue(line: Option<nat>, tag: string, text: string, issue: string, code: string)
    | Unexpected(issue: string, code: string)

  datatype Report = Report(status: Status, details: seq<Detail>, confidence: real, issueCount: nat)

  /** The cases of the `match` statement. */
  datatype Rule = Repetitive | MissingAriaLevel | InvalidAriaLevel | EmptyAriaHeading | SkippedLevel | FirstNotH1

  /** The dictionary the `match` statement inspects, once every entry has been evaluated. */
  datatype Facts = Facts(
    repetitive: bool, aria: bool, missingLevel: bool, invalidLevel: bool,
    empty: bool, skip: bool, firstInvalid: bool)

  /** The loop's variables between two candidates: `prev_level`, `seen_texts` and `issues`. */
  datatype Scan = Scan(prevLevel: int, seen: set<string>, issues: seq<Detail>)

  function Role(n: Node): string
    requires n.Element?
  {
    GetOr(n, "role", "")
  }

  function AriaLevel(n: Node): string
    requires n.Element?
  {
    GetOr(n, "aria-level", "")
  }

  predicate IsAriaHeading(n: Node)
    requires n.Element?
  {
    Role(n) == "heading"
  }

  /** The candidates the loop does not skip: semantic headings and `role="heading"` elements. */
  predicate IsHeading(n: Node)
    requires n.Element?
  {
    n.name in HeadingTags || IsAriaHeading(n)
  }

  /** `current_level`: `int(aria_level)` for an ARIA heading (`None` when it raises), else the tag's digit. */
  function Level(n: Node): (r: Option<int>)
    requires n.Element? && IsHeading(n)
    ensures !IsAriaHeading(n) ==> r.Some? && 1 <= r.value <= 6 && n.name == "h" + [('0' as int + r.value) as char]
    ensures IsAriaHeading(n) ==> r == PyStr.ParseInt(AriaLevel(n))
  {
    if IsAriaHeading(n) then PyStr.ParseInt(AriaLevel(n))
    else Some(n.name[1] as int - '0' as int)
  }

  /**
   * The `invalid_aria_level` entry. It calls `int(aria_level)` whenever
   * `isdigit()` holds, and that raises `ValueError` on digits such as
   * superscripts, which `isdigit()` accepts and `int()` does not.
   */
  function InvalidLevel(n: Node): (r: Result<bool, Exception>)
    requires n.Element? && IsHeading(n)
    ensures r.Failure? <==> IsAriaHeading(n) && PyStr.IsDigit(AriaLevel(n)) && Level(n).None?
    ensures r.Success? ==>
              (r.value <==> IsAriaHeading(n) && (!PyStr.IsDigit(AriaLevel(n)) || !(1 <= Level(n).value <= 6)))
  {
    if !IsAriaHeading(n) then Success(false)
    else if !PyStr.IsDigit(AriaLevel(n)) then Success(true)
    else match Level(n)
      case None => Failure(ValueError)
      case Some(v) => Success(!(1 <= v <= 6))
  }

  /** Evaluates the `match` subject for heading `n`, given the loop's state. */
  function EvalFacts(prevLevel: int, seen: set<string>, n: Node): Result<Facts, Exception>
    requires n.Element? && IsHeading(n)
  {
    var text := GetText(n);
    var current := Level(n);
    match InvalidLevel(n)
    case Failure(e) => Failure(e)
    case Success(invalid) =>
      Success(Facts(
        repetitive := text in seen,
        aria := IsAriaHeading(n),
        missingLevel := IsAriaHeading(n) && AriaLevel(n) == "",
        invalidLevel := invalid,
        empty := PyStr.Strip(text) == "",
        skip := prevLevel != 0 && current.Some? && current.value != 0 && current.value > prevLevel + 1,
        firstInvalid := prevLevel == 0 && current != Some(1)))
  }

  /** The pattern of one `case`. */
  predicate Matches(rule: Rule, f: Facts)
  {
    match rule
    case Repetitive => f.repetitive
    case MissingAriaLevel => f.aria && f.missingLevel
    case InvalidAriaLevel => f.aria && f.invalidLevel
    case EmptyAriaHeading => f.aria && f.empty
    case SkippedLevel => f.skip
    case FirstNotH1 => f.firstInvalid
  }

  /** The position of a `case` in the `match` statement. */
  function Rank(rule: Rule): nat
  {
    match rule
    case Repetitive => 0
    case MissingAriaLevel => 1
    case InvalidAriaLevel => 2
    case EmptyAriaHeading => 3
    case SkippedLevel => 4
    case FirstNotH1 => 5
  }

  /** The case the `match` statement runs: the first, in source order, whose pattern holds. */
  function FirstMatch(f: Facts): (r: Option<Rule>)
    ensures r.Some? ==> Matches(r.value, f) && forall q: Rule | Rank(q) < Rank(r.value) :: !Matches(q, f)
    ensures r.None? ==> forall q: Rule :: !Matches(q, f)
  {
    if f.repetitive then Some(Repetitive)
    else if f.aria && f.missingLevel then Some(MissingAriaLevel)
    else if f.aria && f.invalidLevel then Some(InvalidAriaLevel)
    else if f.aria && f.empty then Some(EmptyAriaHeading)
    else if f.skip then Some(SkippedLevel)
    else if f.firstInvalid then Some(FirstNotH1)
    else None
  }

  /** The entry `add_issue` files for heading `n` under `rule`. */
  function RuleDetail(rule: Rule, n: Node, prevLevel: int): (d: Detail)
    requires n.Element? && IsHeading(n)
    ensures d.Issue? && d.line == n.sourceline && d.tag == n.name && d.text == GetText(n)
    ensures d.code == (match rule
                       case MissingAriaLevel => "ARIA12"
                       case InvalidAriaLevel => "ARIA12"
                       case EmptyAriaHeading => "2.4.6"
                       case _ => "1.3.1 (a)")
    ensures d.issue == (match rule
                        case Repetitive => RepetitiveMessage
                        case MissingAriaLevel => MissingLevelMessage
                        case InvalidAriaLevel => InvalidLevelMessage(AriaLevel(n))
                        case EmptyAriaHeading => EmptyAriaMessage
                        case SkippedLevel => SkipMessage(prevLevel, Level(n))
                        case FirstNotH1 => FirstHeadingMessage)
  {
    var message := match rule
      case Repetitive => RepetitiveMessage
      case MissingAriaLevel => MissingLevelMessage
      case InvalidAriaLevel => InvalidLevelMessage(AriaLevel(n))
      case EmptyAriaHeading => EmptyAriaMessage
      case SkippedLevel => SkipMessage(prevLevel, Level(n))
      case FirstNotH1 => FirstHeadingMessage;
    var code := match rule
      case MissingAriaLevel => "ARIA12"
      case InvalidAriaLevel => "ARIA12"
      case EmptyAriaHeading => "2.4.6"
      case _ => "1.3.1 (a)";
    Issue(n.sourceline, n.name, PyStr.Strip(GetText(n)), message, code)
  }

  /** The issues one heading adds: none, or the entry of the first rule that applies. */
  function Filed(f: Facts, n: Node, prevLevel: int): (r: seq<Detail>)
    requires n.Element? && IsHeading(n)
    ensures |r| <= 1
  {
    match FirstMatch(f)
    case None => []
    case Some(rule) => [RuleDetail(rule, n, prevLevel)]
  }

  /**
   * One pass of the loop body on candidate `n`. A candidate that is not a
   * heading leaves the state as it was; a heading files at most one issue,
   * moves `prev_level` to its level when that level is non-zero and known,
   * and adds its text to the seen texts.
   */
  function Step(st: Scan, n: Node): (r: Result<Scan, Exception>)
    requires n.Element?
    ensures !IsHeading(n) ==> r == Success(st)
    ensures r.Success? ==> |st.issues| <= |r.value.issues| <= |st.issues| + 1
    ensures r.Success? ==> r.value.issues[..|st.issues|] == st.issues
    ensures r.Success? && IsHeading(n) ==>
              r.value.seen == st.seen + {GetText(n)} &&
              r.value.prevLevel == (if Level(n).Some? && Level(n).value != 0 then Level(n).value else st.prevLevel)
  {
    if !IsHeading(n) then Success(st)
    else match EvalFacts(st.prevLevel, st.seen, n)
      case Failure(e) => Failure(e)
      case Success(f) =>
        var current := Level(n);
        var prevLevel := if current.Some? && current.value != 0 then current.value else st.prevLevel;
        Success(Scan(prevLevel, st.seen + {GetText(n)}, st.issues + Filed(f, n, st.prevLevel)))
  }

  /** The loop run over the candidates `cands`, from the initial state; a failure is the exception that escaped. */
  function ScanAll(cands: seq<Located>): Result<Scan, Exception>
    requires forall i | 0 <= i < |cands| :: cands[i].node.Element?
  {
    if cands == [] then Success(Scan(0, {}, []))
    else match ScanAll(cands[..|cands| - 1])
      case Failure(e) => Failure(e)
      case Success(st) => Step(st, cands[|cands| - 1].node)
  }

  /** The weight `calculate_heading_confidence` takes off for an entry with this message. */
  function MessagePenalty(issue: string): (p: real)
    ensures p == 0.0 || p == 5.0 || p == 10.0 || p == 15.0
  {
    var message := PyStr.Lower(issue);
    if PyStr.Contains(message, MultipleH1Phrase) then 15.0
    else if PyStr.Contains(message, MissingLevelPhrase) then 10.0
    else if PyStr.Contains(message, SkippedPhrase) then 5.0
    else 0.0
  }

  /** The weight `calculate_heading_confidence` takes off for one entry. */
  function Penalty(d: Detail): real
  {
    MessagePenalty(d.issue)
  }

  /**
   * What each rule's message costs: 10 for a missing aria-level, 5 for
   * skipped levels, and nothing for the others. No rule writes "multiple
   * <h1>", so the 15-point branch is reached only through the aria-level
   * text an invalid-level message quotes.
   */
  function RuleWeight(rule: Rule): real
  {
    match rule
    case MissingAriaLevel => 10.0
    case SkippedLevel => 5.0
    case _ => 0.0
  }

  /** "Repetitive heading detected." holds no 'u', 'm' or 's'. */
  lemma RepetitiveCosts()
    ensures MessagePenalty(RepetitiveMessage) == 0.0
  {
    assert PyStr.Avoids(RepetitiveMessage, 0, 'u', 'U');
    assert PyStr.Avoids(RepetitiveMessage, 0, 'm', 'M');
    assert PyStr.Avoids(RepetitiveMessage, 0, 's', 'S');
    PyStr.LowerMissing(RepetitiveMessage, MultipleH1Phrase, 1, 'U');
    PyStr.LowerMissing(RepetitiveMessage, MissingLevelPhrase, 0, 'M');
    PyStr.LowerMissing(RepetitiveMessage, SkippedPhrase, 0, 'S');
  }

  /** The missing-level message names "missing aria-level" and holds no 'u'. */
  lemma MissingLevelCosts()
    ensures MessagePenalty(MissingLevelMessage) == 10.0
  {
    assert PyStr.Avoids(MissingLevelMessage, 0, 'u', 'U');
    assert forall i | 0 <= i < |MissingLevelPhrase| :: PyStr.LowerChar("Missing aria-level"[i]) == MissingLevelPhrase[i];
    PyStr.LowerMissing(MissingLevelMessage, MultipleH1Phrase, 1, 'U');
    PyStr.LowerFoundAt("", "Missing aria-level", MissingLevelPhrase, " on role='heading'.");
    assert "" + MissingLevelMessage == MissingLevelMessage;
  }

  /**
   * The empty-heading message holds no 'u', and its one 'l' sits too early
   * to be the 'l' at index 17 of "missing aria-level" or at index 16 of
   * "skipped heading levels".
   */
  lemma EmptyAriaCosts()
    ensures MessagePenalty(EmptyAriaMessage) == 0.0
  {
    var x, y := "Heading with role='heading' ", "is empty or not descriptive.";
    assert PyStr.Avoids(x, 0, 'u', 'U') && PyStr.Avoids(y, 0, 'u', 'U');
    assert PyStr.Avoids(x, 16, 'l', 'L') && PyStr.Avoids(y, 0, 'l', 'L');
    assert MissingLevelPhrase[17] == 'l' && SkippedPhrase[16] == 'l';
    PyStr.AvoidsJoin(x, y, 0, 'u', 'U');
    PyStr.AvoidsJoin(x, y, 16, 'l', 'L');
    PyStr.LowerMissing(EmptyAriaMessage, MultipleH1Phrase, 1, 'U');
    PyStr.LowerMissing(EmptyAriaMessage, MissingLevelPhrase, 17, 'L');
    PyStr.LowerMissing(EmptyAriaMessage, SkippedPhrase, 16, 'L');
  }

  /** The first-heading message holds no 'm'. */
  lemma FirstHeadingAvoidsM()
    ensures PyStr.Avoids(FirstHeadingMessage, 0, 'm', 'M')
  {
    var x, y := "The first heading should ", "be <h1> or aria-level='1'.";
    assert PyStr.Avoids(x, 0, 'm', 'M') && PyStr.Avoids(y, 0, 'm', 'M');
    PyStr.AvoidsJoin(x, y, 0, 'm', 'M');
  }

  /** The first-heading message holds no 'p'. */
  lemma FirstHeadingAvoidsP()
    ensures PyStr.Avoids(FirstHeadingMessage, 0, 'p', 'P')
  {
    var x, y := "The first heading should ", "be <h1> or aria-level='1'.";
    assert PyStr.Avoids(x, 0, 'p', 'P') && PyStr.Avoids(y, 0, 'p', 'P');
    PyStr.AvoidsJoin(x, y, 0, 'p', 'P');
  }

  /** Without an 'm' and a 'p', the first-heading message names none of the three phrases. */
  lemma FirstHeadingCosts()
    ensures MessagePenalty(FirstHeadingMessage) == 0.0
  {
    FirstHeadingAvoidsM();
    FirstHeadingAvoidsP();
    assert PyStr.CapitalOf('m', 'M') && PyStr.CapitalOf('p', 'P');
    PyStr.LowerMissing(FirstHeadingMessage, MultipleH1Phrase, 0, 'M');
    PyStr.LowerMissing(FirstHeadingMessage, MissingLevelPhrase, 0, 'M');
    PyStr.LowerMissing(FirstHeadingMessage, SkippedPhrase, 3, 'P');
  }

  /** What follows "from <h" in a skip message: the two levels and the text between them. */
  function SkipTail(prev: int, current: Option<int>): string
  {
    PyStr.IntToString(prev) + ("> to <h" + (LevelText(current) + ">."))
  }

  /** The tail of a skip message holds no 'u' and no 'm'. */
  lemma SkipTailAvoids(prev: int, current: Option<int>, c: char, C: char)
    requires (c == 'u' && C == 'U') || (c == 'm' && C == 'M')
    ensures PyStr.Avoids(SkipTail(prev, current), 0, c, C)
  {
    var level := LevelText(current);
    assert PyStr.Avoids(">.", 0, c, C);
    assert PyStr.Avoids("> to <h", 0, c, C);
    assert PyStr.Avoids("None", 0, c, C);
    if current.Some? {
      PyStr.IntToStringAvoids(current.value, c, C);
    }
    PyStr.IntToStringAvoids(prev, c, C);
    PyStr.AvoidsJoin(level, ">.", 0, c, C);
    PyStr.AvoidsJoin("> to <h", level + ">.", 0, c, C);
    PyStr.AvoidsJoin(PyStr.IntToString(prev), "> to <h" + (level + ">."), 0, c, C);
  }

  /** A skip message holds no 'u'. */
  lemma SkipAvoidsU(prev: int, current: Option<int>)
    ensures PyStr.Avoids(SkipMessage(prev, current), 0, 'u', 'U')
  {
    assert PyStr.Avoids("Skipped heading levels", 0, 'u', 'U');
    assert PyStr.Avoids(" fro", 0, 'u', 'U');
    assert PyStr.Avoids("m <h", 0, 'u', 'U');
    var tail := SkipTail(prev, current);
    SkipTailAvoids(prev, current, 'u', 'U');
    PyStr.AvoidsJoin("m <h", tail, 0, 'u', 'U');
    PyStr.AvoidsJoin(" fro", "m <h" + tail, 0, 'u', 'U');
    PyStr.AvoidsJoin("Skipped heading levels", " fro" + ("m <h" + tail), 0, 'u', 'U');
  }

  /** A skip message holds no 'u', so it leaves out "multiple <h1>". */
  lemma SkipLacksMultiple(prev: int, current: Option<int>)
    ensures !PyStr.Contains(PyStr.Lower(SkipMessage(prev, current)), MultipleH1Phrase)
  {
    SkipAvoidsU(prev, current);
    assert PyStr.CapitalOf('u', 'U') && MultipleH1Phrase[1] == 'u';
    PyStr.LowerMissing(SkipMessage(prev, current), MultipleH1Phrase, 1, 'U');
  }

  /** From the 'm' of "from" on, a skip message holds no other 'm', and a space follows that 'm'. */
  lemma SkipFromM(prev: int, current: Option<int>)
    ensures var rest := "m <h" + SkipTail(prev, current);
      PyStr.Avoids(rest, 1, 'm', 'M') && |rest| > 1 && PyStr.LowerChar(rest[1]) != MissingLevelPhrase[1]
  {
    assert PyStr.Avoids("m <h", 1, 'm', 'M');
    var tail := SkipTail(prev, current);
    SkipTailAvoids(prev, current, 'm', 'M');
    PyStr.AvoidsJoin("m <h", tail, 1, 'm', 'M');
    assert ("m <h" + tail)[1] == ' ';
  }

  /** The one 'm' of a skip message, in "from", is followed by a space, not the 'i' of "missing". */
  lemma SkipLacksMissing(prev: int, current: Option<int>)
    ensures !PyStr.Contains(PyStr.Lower(SkipMessage(prev, current)), MissingLevelPhrase)
  {
    assert PyStr.Avoids("Skipped heading levels", 0, 'm', 'M');
    assert PyStr.Avoids(" fro", 0, 'm', 'M');
    assert PyStr.CapitalOf('m', 'M') && MissingLevelPhrase[0] == 'm';
    var rest := "m <h" + SkipTail(prev, current);
    SkipFromM(prev, current);
    PyStr.LowerSkip("Skipped heading levels", " fro" + rest, MissingLevelPhrase, 'M');
    PyStr.LowerSkip(" fro", rest, MissingLevelPhrase, 'M');
    PyStr.LowerFalseStart(rest, [], MissingLevelPhrase, 1, 'M');
    PyStr.LowerMissing([], MissingLevelPhrase, 0, 'M');
    assert rest + [] == rest;
  }

  /** A skip message opens with "Skipped heading levels". */
  lemma SkipNamesSkipped(prev: int, current: Option<int>)
    ensures PyStr.Contains(PyStr.Lower(SkipMessage(prev, current)), SkippedPhrase)
  {
    SkippedFound(" fro" + ("m <h" + SkipTail(prev, current)));
  }

  /** "Skipped heading levels" lowers to the phrase, whatever follows it. */
  lemma SkippedFound(y: string)
    ensures PyStr.Contains(PyStr.Lower("Skipped heading levels" + y), SkippedPhrase)
  {
    var s := "Skipped heading levels";
    assert |s| == |SkippedPhrase|;
    forall i | 0 <= i < |SkippedPhrase| ensures PyStr.LowerChar(s[i]) == SkippedPhrase[i] {
      if i == 0 {
        assert s[0] == 'S';
      } else {
        assert s[i] == SkippedPhrase[i];
      }
    }
    PyStr.LowerFoundAt("", s, SkippedPhrase, y);
    assert "" + (s + y) == s + y;
  }

  /** A skip message costs 5 points, whatever the two levels. */
  lemma SkipCosts(prev: int, current: Option<int>)
    ensures MessagePenalty(SkipMessage(prev, current)) == 5.0
  {
    SkipLacksMultiple(prev, current);
    SkipLacksMissing(prev, current);
    SkipNamesSkipped(prev, current);
  }

  /**
   * The entry each rule files costs that rule's weight, whatever the
   * heading; an invalid aria-level costs what the quoted value makes it.
   */
  lemma RulePenalty(rule: Rule, n: Node, prevLevel: int)
    requires n.Element? && IsHeading(n)
    ensures Penalty(RuleDetail(rule, n, prevLevel)) == (if rule == InvalidAriaLevel then MessagePenalty(InvalidLevelMessage(AriaLevel(n))) else RuleWeight(rule))
  {
    match rule
    case Repetitive => RepetitiveCosts();
    case MissingAriaLevel => MissingLevelCosts();
    case InvalidAriaLevel =>
    case EmptyAriaHeading => EmptyAriaCosts();
    case SkippedLevel => SkipCosts(prevLevel, Level(n));
    case FirstNotH1 => FirstHeadingCosts();
  }

  function TotalPenalty(issues: seq<Detail>): (p: real)
    ensures 0.0 <= p <= 15.0 * |issues| as real
  {
    if issues == [] then 0.0 else TotalPenalty(issues[..|issues| - 1]) + Penalty(issues[|issues| - 1])
  }

  /**
   * `calculate_heading_confidence`: 95 less the penalties, scaled by the
   * share of candidates without an issue, floored at 0.
   */
  function HeadingConfidence(issues: seq<Detail>, total: nat): real
  {
    Discounted(95.0 - TotalPenalty(issues), |issues|, total)
  }

  /** With no more issues than candidates the heading confidence lies in [0, 95]. */
  lemma HeadingConfidenceBounds(issues: seq<Detail>, total: nat)
    requires |issues| <= total
    ensures 0.0 <= HeadingConfidence(issues, total) <= 95.0
  {
    DiscountedBounds(95.0 - TotalPenalty(issues), |issues|, total, 95.0);
  }

  /** The result of `check_heading_markup` on a document. */
  function HeadingReport(doc: seq<Node>): Report
  {
    var headings := FindInDocument(doc, CandidateTags);
    if headings == [] then Report(NotApplicable, [], 100.0, 0)
    else match ScanAll(headings)
      case Failure(_) => Report(Error, [Unexpected(UnexpectedMessage, "1.3.1 (a)")], 50.0, 1)
      case Success(st) =>
        Report(if st.issues != [] then Malformed else Passed, st.issues,
               HeadingConfidence(st.issues, |headings|), |st.issues|)
  }

  /** `calculate_heading_confidence` */
  method CalculateHeadingConfidence(issues: seq<Detail>, total: nat) returns (c: real)
    ensures c == HeadingConfidence(issues, total)
  {
    var baseline := 95.0;
    for i := 0 to |issues|
      invariant baseline == 95.0 - TotalPenalty(issues[..i])
    {
      assert issues[..i + 1][..i] == issues[..i];
      var message := PyStr.Lower(issues[i].issue);
      if PyStr.Contains(message, MultipleH1Phrase) {
        baseline := baseline - 15.0;
      } else if PyStr.Contains(message, MissingLevelPhrase) {
        baseline := baseline - 10.0;
      } else if PyStr.Contains(message, SkippedPhrase) {
        baseline := baseline - 5.0;
      }
    }
    assert issues[..|issues|] == issues;
    c := Discounted(baseline, |issues|, total);
  }

  /** The loop over one more candidate is one more `Step`. */
  lemma ScanAllSnoc(cands: seq<Located>, i: nat, st: Scan)
    requires forall k | 0 <= k < |cands| :: cands[k].node.Element?
    requires i < |cands| && ScanAll(cands[..i]) == Success(st)
    ensures ScanAll(cands[..i + 1]) == Step(st, cands[i].node)
  {
    assert cands[..i + 1][..i] == cands[..i];
  }

  /** The state after a heading whose `match` subject evaluated to `f`. */
  lemma StepOfHeading(st: Scan, n: Node, f: Facts)
    requires n.Element? && IsHeading(n)
    requires EvalFacts(st.prevLevel, st.seen, n) == Success(f)
    ensures Step(st, n) == Success(Scan(
              if Level(n).Some? && Level(n).value != 0 then Level(n).value else st.prevLevel,
              st.seen + {GetText(n)},
              st.issues + Filed(f, n, st.prevLevel)))
  {
  }

  /** Once the loop has raised, running it over more candidates still ends in that exception. */
  lemma {:induction false} FailureEscapes(cands: seq<Located>, i: nat)
    requires forall k | 0 <= k < |cands| :: cands[k].node.Element?
    requires i <= |cands| && ScanAll(cands[..i]).Failure?
    ensures ScanAll(cands).Failure?
    decreases |cands| - i
  {
    if i < |cands| {
      assert cands[..i + 1][..i] == cands[..i];
      FailureEscapes(cands, i + 1);
    } else {
      assert cands[..i] == cands;
    }
  }

  /** `check_heading_markup` */
  method CheckHeadingMarkup(doc: seq<Node>) returns (r: Report)
    ensures r == HeadingReport(doc)
  {
    var headings := FindInDocument(doc, CandidateTags);
    if headings == [] {
      return Report(NotApplicable, [], 100.0, 0);
    }
    var issues: seq<Detail> := [];
    var prevLevel := 0;
    var seenTexts: set<string> := {};
    for i := 0 to |headings|
      invariant ScanAll(headings[..i]) == Success(Scan(prevLevel, seenTexts, issues))
    {
      ScanAllSnoc(headings, i, Scan(prevLevel, seenTexts, issues));
      var heading := headings[i].node;
      var headingText := GetText(heading);
      if heading.name !in HeadingTags && !IsAriaHeading(heading) {
        continue;
      }
      var currentLevel := Level(heading);
      var facts := EvalFacts(prevLevel, seenTexts, heading);
      if facts.Failure? {
        FailureEscapes(headings, i + 1);
        return Report(Error, [Unexpected(UnexpectedMessage, "1.3.1 (a)")], 50.0, 1);
      }
      StepOfHeading(Scan(prevLevel, seenTexts, issues), heading, facts.value);
      ghost var issuesBefore := issues;
      match FirstMatch(facts.value) {
        case Some(rule) =>
          issues := issues + [RuleDetail(rule, heading, prevLevel)];
        case None =>
      }
      assert issues == issuesBefore + Filed(facts.value, heading, prevLevel);
      if currentLevel.Some? && currentLevel.value != 0 {
        prevLevel := currentLevel.value;
      }
      seenTexts := seenTexts + {headingText};
    }
    assert headings[..|headings|] == headings;
    var confidence := CalculateHeadingConfidence(issues, |headings|);
    r := Report(if issues != [] then Malformed else Passed, issues, confidence, |issues|);
  }

  /** Without candidates the validator reports Not Applicable, and only then. */
  lemma NotApplicableWithoutCandidates(doc: seq<Node>)
    ensures HeadingReport(doc).status == NotApplicable <==> !HasElement(doc, CandidateTags)
    ensures HeadingReport(doc).status == NotApplicable ==> HeadingReport(doc) == Report(NotApplicable, [], 100.0, 0)
  {
    FindAllEmpty(doc, [], CandidateTags);
  }

  /** The loop files at most one issue per candidate. */
  lemma {:induction false} AtMostOneIssueEach(cands: seq<Located>)
    requires forall k | 0 <= k < |cands| :: cands[k].node.Element?
    ensures ScanAll(cands).Success? ==> |ScanAll(cands).value.issues| <= |cands|
  {
    if cands != [] {
      AtMostOneIssueEach(cands[..|cands| - 1]);
    }
  }

  /**
   * The issue candidate `n` files when the loop reaches it in state `st`:
   * the detail of the first rule whose pattern holds for its facts, and
   * nothing for a candidate that is not a heading or that no rule matches.
   */
  function Filing(st: Scan, n: Node): Option<Detail>
    requires n.Element?
  {
    if !IsHeading(n) then None
    else match EvalFacts(st.prevLevel, st.seen, n)
      case Failure(_) => None
      case Success(f) =>
        match FirstMatch(f)
        case None => None
        case Some(rule) => Some(RuleDetail(rule, n, st.prevLevel))
  }

  /** A step that does not raise appends the candidate's filing, if any, to the issues. */
  lemma StepFiling(st: Scan, n: Node)
    requires n.Element? && Step(st, n).Success?
    ensures Step(st, n).value.issues == st.issues + Present(Filing(st, n))
  {
    if IsHeading(n) {
      var f := EvalFacts(st.prevLevel, st.seen, n).value;
      assert Filing(st, n) == (match FirstMatch(f) case None => None case Some(rule) => Some(RuleDetail(rule, n, st.prevLevel)));
    }
  }

  /** The loop's state just before each candidate, in order. */
  function States(cands: seq<Located>): (r: seq<Scan>)
    requires forall i | 0 <= i < |cands| :: cands[i].node.Element?
    requires ScanAll(cands).Success?
    ensures |r| == |cands|
  {
    if cands == [] then []
    else
      var init := cands[..|cands| - 1];
      States(init) + [ScanAll(init).value]
  }

  /** The state before candidate `i` is the one the loop reaches over the candidates before it. */
  lemma {:induction false} StatesAt(cands: seq<Located>, i: nat)
    requires forall k | 0 <= k < |cands| :: cands[k].node.Element?
    requires ScanAll(cands).Success? && i < |cands|
    ensures ScanAll(cands[..i]) == Success(States(cands)[i])
  {
    var init := cands[..|cands| - 1];
    if i < |cands| - 1 {
      StatesAt(init, i);
      assert init[..i] == cands[..i];
    }
  }

  /** What each candidate files, in order, given the state the loop reached before it. */
  function Filings(cands: seq<Located>): (r: seq<Option<Detail>>)
    requires forall i | 0 <= i < |cands| :: cands[i].node.Element?
    requires ScanAll(cands).Success?
    ensures |r| == |cands|
  {
    var states := States(cands);
    seq(|cands|, i requires 0 <= i < |cands| => Filing(states[i], cands[i].node))
  }

  /** The loop's issues are the candidates' filings, in candidate order. */
  lemma {:induction false} ScanIssues(cands: seq<Located>)
    requires forall i | 0 <= i < |cands| :: cands[i].node.Element?
    requires ScanAll(cands).Success?
    ensures ScanAll(cands).value.issues == Kept(Filings(cands))
  {
    if cands != [] {
      var n := |cands| - 1;
      var init := cands[..n];
      ScanIssues(init);
      StepFiling(ScanAll(init).value, cands[n].node);
      KeptLast(Filings(cands));
      assert States(cands)[..n] == States(init);
      forall k | 0 <= k < n ensures Filings(cands)[k] == Filings(init)[k] {
        assert States(cands)[k] == States(init)[k];
      }
      assert Filings(cands)[..n] == Filings(init);
    }
  }

  /** Candidate `i` files `d`, given the state the loop reached over the candidates before it. */
  predicate FiledAt(cands: seq<Located>, i: nat, d: Detail)
    requires forall k | 0 <= k < |cands| :: cands[k].node.Element?
    requires ScanAll(cands).Success? && i < |cands|
  {
    Filing(States(cands)[i], cands[i].node) == Some(d)
  }

  /**
   * Every issue of a finished scan is the detail that the first matching rule
   * files for some heading, given the state the loop reached before it, and
   * the issues follow candidate order.
   */
  lemma IssuesSound(cands: seq<Located>)
    requires forall k | 0 <= k < |cands| :: cands[k].node.Element?
    requires ScanAll(cands).Success?
    ensures var issues := ScanAll(cands).value.issues;
      var at := KeptAt(Filings(cands));
      && |at| == |issues|
      && (forall j | 0 <= j < |at| :: at[j] < |cands| && IsHeading(cands[at[j]].node) && FiledAt(cands, at[j], issues[j]))
      && (forall j, k | 0 <= j < k < |at| :: at[j] < at[k])
  {
    var opts := Filings(cands);
    ScanIssues(cands);
    KeptExactly(opts);
    var at := KeptAt(opts);
  }

  /** Every heading that some rule matches, in the state the loop reached before it, files exactly one issue. */
  lemma IssuesComplete(cands: seq<Located>)
    requires forall k | 0 <= k < |cands| :: cands[k].node.Element?
    requires ScanAll(cands).Success?
    ensures var issues := ScanAll(cands).value.issues;
      var at := KeptAt(Filings(cands));
      forall i, d | 0 <= i < |cands| && FiledAt(cands, i, d) ::
        exists j | 0 <= j < |at| && j < |issues| :: at[j] == i && issues[j] == d
  {
    var opts := Filings(cands);
    ScanIssues(cands);
    KeptExactly(opts);
    var at := KeptAt(opts);
    forall i, d | 0 <= i < |cands| && FiledAt(cands, i, d)
      ensures exists j | 0 <= j < |at| && j < |ScanAll(cands).value.issues| :: at[j] == i && ScanAll(cands).value.issues[j] == d
    {
      assert opts[i] == Filing(States(cands)[i], cands[i].node) == Some(d);
      assert i in at;
      var j :| 0 <= j < |at| && at[j] == i;
      assert opts[at[j]] == Some(ScanAll(cands).value.issues[j]);
    }
  }

  /** A finished scan files some issue exactly when some candidate files one. */
  lemma ScanFilesIssue(cands: seq<Located>)
    requires forall k | 0 <= k < |cands| :: cands[k].node.Element?
    requires ScanAll(cands).Success?
    ensures ScanAll(cands).value.issues != [] <==>
              exists i | 0 <= i < |cands| :: Filing(States(cands)[i], cands[i].node).Some?
  {
    var opts := Filings(cands);
    ScanIssues(cands);
    KeptEmpty(opts);
    forall i | 0 <= i < |cands| ensures opts[i] == Filing(States(cands)[i], cands[i].node) {
    }
  }

  /**
   * A run that finishes is Malformed exactly when some heading files an
   * issue, and Passed exactly when none does.
   */
  lemma HeadingStatus(doc: seq<Node>)
    requires HasElement(doc, CandidateTags)
    ensures var cands := FindInDocument(doc, CandidateTags);
      ScanAll(cands).Success? ==>
        && (HeadingReport(doc).status == Malformed <==>
              exists i | 0 <= i < |cands| :: Filing(States(cands)[i], cands[i].node).Some?)
        && (HeadingReport(doc).status == Passed <==>
              forall i | 0 <= i < |cands| :: Filing(States(cands)[i], cands[i].node).None?)
  {
    FindAllEmpty(doc, [], CandidateTags);
    var cands := FindInDocument(doc, CandidateTags);
    if ScanAll(cands).Success? {
      ScanFilesIssue(cands);
      assert HeadingReport(doc).details == ScanAll(cands).value.issues;
    }
  }


  /**
   * The shape of the result: `issue_count` is the number of details; a run
   * that finished is Malformed exactly when it filed an issue, and scores in
   * [0, 95]; an escaped exception leaves one note and confidence 50.
   */
  lemma ReportShape(doc: seq<Node>)
    ensures HeadingReport(doc).issueCount == |HeadingReport(doc).details|
    ensures HeadingReport(doc).status == Passed || HeadingReport(doc).status == Malformed ==>
              (HeadingReport(doc).status == Malformed <==> HeadingReport(doc).details != []) &&
              0.0 <= HeadingReport(doc).confidence <= 95.0
    ensures HeadingReport(doc).status == Error ==>
              HeadingReport(doc).confidence == 50.0 &&
              HeadingReport(doc).details == [Unexpected(UnexpectedMessage, "1.3.1 (a)")]
  {
    var headings := FindInDocument(doc, CandidateTags);
    if headings != [] && ScanAll(headings).Success? {
      AtMostOneIssueEach(headings);
      HeadingConfidenceBounds(ScanAll(headings).value.issues, |headings|);
    }
  }

  /**
   * `int(aria_level)` inside the `match` subject raises exactly when the
   * level passes `isdigit()` but holds a digit that is not decimal.
   */
  lemma InvalidLevelRaises(n: Node)
    requires n.Element? && IsAriaHeading(n) && PyStr.IsDigit(AriaLevel(n))
    ensures InvalidLevel(n).Failure? <==>
              exists i | 0 <= i < |AriaLevel(n)| :: PyStr.DecimalValue(AriaLevel(n)[i]).None?
  {
    PyStr.ParseIntOfDigits(AriaLevel(n));
  }

  /**
   * For an h1-h6 element without `role="heading"` whose text is new, only the
   * two hierarchy rules can fire: a skip when a level is already known and
   * this one is more than one deeper, otherwise the first-heading rule while
   * no level is known and this one is not 1.
   */
  lemma SemanticHeadingStep(st: Scan, n: Node)
    requires n.Element? && n.name in HeadingTags && !IsAriaHeading(n) && GetText(n) !in st.seen
    ensures Step(st, n) ==
              Success(Scan(Level(n).value, st.seen + {GetText(n)}, st.issues +
                (if st.prevLevel != 0 && Level(n).value > st.prevLevel + 1 then [RuleDetail(SkippedLevel, n, st.prevLevel)]
                 else if st.prevLevel == 0 && Level(n).value != 1 then [RuleDetail(FirstNotH1, n, st.prevLevel)]
                 else [])))
  {
    var lv := Level(n).value;
    assert InvalidLevel(n) == Success(false);
    var f := Facts(false, false, false, false, PyStr.Strip(GetText(n)) == "",
                   st.prevLevel != 0 && lv > st.prevLevel + 1, st.prevLevel == 0 && lv != 1);
    assert EvalFacts(st.prevLevel, st.seen, n) == Success(f);
    assert FirstMatch(f) == (if f.skip then Some(SkippedLevel) else if f.firstInvalid then Some(FirstNotH1) else None);
  }

  /** `<div role="heading" aria-level="²">T</div>`: `int("²")` raises, and the validator reports Error. */
  lemma SuperscriptLevelExample()
    ensures HeadingReport([Element("div", map["role" := "heading", "aria-level" := "\U{B2}"], [Text("T")], Some(1))]).status
         == Error
  {
    var d := Element("div", map["role" := "heading", "aria-level" := "\U{B2}"], [Text("T")], Some(1));
    WalkFlat([d], []);
    assert Walk([d], []) == [Located(d, [])];
    assert [Located(d, [])][1..] == [];
    assert Select([Located(d, [])], CandidateTags) == [Located(d, [])];
    var headings := FindInDocument([d], CandidateTags);
    assert headings == [Located(d, [])];
    assert headings[..0] == [];
    assert AriaLevel(d) == "\U{B2}";
    assert PyStr.IsDigit(AriaLevel(d));
    InvalidLevelRaises(d);
    assert PyStr.DecimalValue(AriaLevel(d)[0]).None?;
  }

  /**
   * One skip issue among two headings, as in `<h1>x</h1><h3>y</h3>`: the
   * skip message costs 5, and one issue among two headings halves the rest,
   * so the run scores (95 - 5) / 2.
   */
  lemma OneSkipAmongTwoScore(d: Detail, prev: int, current: Option<int>)
    requires d.issue == SkipMessage(prev, current)
    ensures HeadingConfidence([d], 2) == 45.0
  {
    SkipCosts(prev, current);
    assert Penalty(d) == 5.0;
    assert [d][..0] == [];
    assert TotalPenalty([d]) == 5.0;
    assert HeadingConfidence([d], 2) == Discounted(90.0, 1, 2);
  }
}
