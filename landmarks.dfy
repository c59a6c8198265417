/**
 * Success Criterion 1.3.1 (e), landmark markup: `test_landmark_markup`
 * checks every header, nav, main, footer, section, aside, article, form and
 * hgroup element for text and for the content its tag calls for, records
 * each landmark with an issue together with a score of its own, and scores
 * the run by the mean of those scores.
 *
 * The empty check looks only at the stripped text (test_landmark_markup.py:101-105).
 * The `nav` and `header` cases test the serialisation for the substrings "href"
 * and "h1" (lines 114-119). A landmark's score is 95 less its penalties,
 * multiplied by `1 - k/n` for its k messages and n landmarks (lines 139-149).
 */
module Landmarks {
  import opened Wrappers
  import opened Dom
  import PyStr
  import opened Verdict

  const LandmarkTags: set<string> := {"header", "nav", "main", "footer", "section", "aside", "article", "form", "hgroup"}
  const InputTags: set<string> := {"input", "textarea", "select"}
  const Baseline := 95.0
  const EmptyPhrase := "empty"
  const ContainPhrase := "should contain"

  /** The empty-landmark check and the outcomes of the content check, one per case of its `match`. */
  datatype Check =
    | Empty
    | NavLinks
    | MainContent
    | HeaderH1
    | FooterInfo
    | AsideContent
    | SectionContent
    | ArticleContent
    | FormInputs
    | FormLabels

  /**
   * The message a failed check returns, written in pieces so that the
   * penalty proofs can read them.
   */
  function Message(c: Check): string
  {
    match c
    case Empty => "Landmark element is " + (EmptyPhrase + " or has no meaningful content.")
    case NavLinks => "Landmark <nav> " + (ContainPhrase + " navigation links.")
    case MainContent => "Landmark <main> " + (ContainPhrase + (" th" + ("e primary cont" + ("ent of th" + ("e pag" + "e.")))))
    case HeaderH1 => "Landmark <header> " + ("should include" + " an <h1> element.")
    case FooterInfo => "Landmark <footer> " + (ContainPhrase + " footer information.")
    case AsideContent => "Landmark <a" + ("side> " + ("should have " + "meaningful content."))
    case SectionContent => "Landmark <" + ("section> " + ("should have a " + ("meaningful amount " + "of content.")))
    case ArticleContent => "Landmark <article> " + (ContainPhrase + (" self-contained " + "detailed content."))
    case FormInputs => "Landmark <form> " + ("should include " + ("input element" + "s."))
    case FormLabels => "Landmark <form> should have " + ("labeled inputs using " + ("<label> elements or " + "aria-label attributes."))
  }

  /** The messages of `checks`, in order. */
  function Messages(checks: seq<Check>): seq<string>
  {
    seq(|checks|, i requires 0 <= i < |checks| => Message(checks[i]))
  }

  /** One entry of `details`: "landmark_index", "landmark_tag", "landmark_html", "issues", "confidence_percentage". */
  datatype Entry = Entry(index: nat, tag: string, html: string, issues: seq<string>, confidence: real)

  /** The number of words of the landmark's stripped text. */
  function Words(lm: Located): nat
    requires lm.node.Element?
  {
    PyStr.WordCount(GetText(lm.node))
  }

  /** `check_empty_landmark` on `get_text(strip=True)`: flags a landmark without any text. */
  function CheckEmpty(lm: Located): (r: Option<Check>)
    requires lm.node.Element?
    ensures r.Some? <==> GetText(lm.node) == ""
    ensures r.Some? ==> r.value == Empty
  {
    if PyStr.Strip(GetText(lm.node)) == "" then Some(Empty) else None
  }

  /** `any(inp.get('aria-label') for inp in inputs)`: some input carries a non-empty `aria-label`. */
  predicate AnyAriaLabel(inputs: seq<Located>)
  {
    inputs != [] && ((inputs[0].node.Element? && Truthy(inputs[0].node, "aria-label")) || AnyAriaLabel(inputs[1..]))
  }

  /** The landmark tags that have a case of their own in `check_landmark_content`. */
  datatype Kind = Nav | Main | Header | Footer | Aside | Section | Article | Form | Other

  /** The case a tag selects; hgroup, like any tag without a case, selects `case _`. */
  function KindOf(tag: string): (k: Kind)
    ensures k == Nav <==> tag == "nav"
    ensures k == Main <==> tag == "main"
    ensures k == Header <==> tag == "header"
    ensures k == Footer <==> tag == "footer"
    ensures k == Aside <==> tag == "aside"
    ensures k == Section <==> tag == "section"
    ensures k == Article <==> tag == "article"
    ensures k == Form <==> tag == "form"
  {
    if tag == "nav" then Nav
    else if tag == "main" then Main
    else if tag == "header" then Header
    else if tag == "footer" then Footer
    else if tag == "aside" then Aside
    else if tag == "section" then Section
    else if tag == "article" then Article
    else if tag == "form" then Form
    else Other
  }

  /**
   * The two form cases of `check_landmark_content`: a form without any
   * input, textarea or select below it, else one with neither a `<label>`
   * nor an input carrying an `aria-label`.
   */
  function CheckForm(lm: Located): (r: Option<Check>)
    requires lm.node.Element?
    ensures r == Some(FormInputs) <==> !HasElement(lm.node.children, InputTags)
    ensures r == Some(FormLabels) <==>
              && HasElement(lm.node.children, InputTags)
              && !HasElement(lm.node.children, {"label"})
              && !AnyAriaLabel(FindBelow(lm, InputTags))
    ensures r.None? || r == Some(FormInputs) || r == Some(FormLabels)
  {
    FindAllEmpty(lm.node.children, lm.above + [lm.node.name], InputTags);
    FindAllEmpty(lm.node.children, lm.above + [lm.node.name], {"label"});
    var inputs := FindBelow(lm, InputTags);
    if inputs == [] then Some(FormInputs)
    else if FindBelow(lm, {"label"}) == [] && !AnyAriaLabel(inputs) then Some(FormLabels)
    else None
  }

  /**
   * `check_landmark_content`: the guarded cases of the `match` on the tag.
   * Each tag but form has one case, so a failed guard falls through to
   * `case _`; a form whose first guard fails is tried against the second.
   */
  function CheckContent(lm: Located, serialize: Serializer): (r: Option<Check>)
    requires lm.node.Element?
    ensures r.Some? ==> r.value != Empty
    ensures KindOf(lm.node.name) == Other ==> r.None?
  {
    var html := serialize(lm.node);
    match KindOf(lm.node.name)
    case Nav => if !PyStr.Contains(html, "href") then Some(NavLinks) else None
    case Main => if Words(lm) < 20 then Some(MainContent) else None
    case Header => if !PyStr.Contains(html, "h1") then Some(HeaderH1) else None
    case Footer => if Words(lm) < 5 then Some(FooterInfo) else None
    case Aside => if Words(lm) < 10 then Some(AsideContent) else None
    case Section => if Words(lm) < 10 then Some(SectionContent) else None
    case Article => if Words(lm) < 50 then Some(ArticleContent) else None
    case Form => CheckForm(lm)
    case Other => None
  }

  /**
   * Each tag has its own condition, and the content check flags a landmark
   * exactly when that condition holds; only a form gets the form messages.
   */
  lemma CheckContentExactly(lm: Located, serialize: Serializer)
    requires lm.node.Element?
    ensures var r := CheckContent(lm, serialize);
      var tag := lm.node.name;
      var html := serialize(lm.node);
      && (r == Some(NavLinks) <==> tag == "nav" && !PyStr.Contains(html, "href"))
      && (r == Some(MainContent) <==> tag == "main" && Words(lm) < 20)
      && (r == Some(HeaderH1) <==> tag == "header" && !PyStr.Contains(html, "h1"))
      && (r == Some(FooterInfo) <==> tag == "footer" && Words(lm) < 5)
      && (r == Some(AsideContent) <==> tag == "aside" && Words(lm) < 10)
      && (r == Some(SectionContent) <==> tag == "section" && Words(lm) < 10)
      && (r == Some(ArticleContent) <==> tag == "article" && Words(lm) < 50)
      && (tag == "form" ==> r == CheckForm(lm))
      && (r == Some(FormInputs) || r == Some(FormLabels) ==> tag == "form")
  {
    var r := CheckContent(lm, serialize);
    if KindOf(lm.node.name) != Form {
      assert r != Some(FormInputs) && r != Some(FormLabels);
    }
  }

  /** `landmark_issues`: the failing checks, the empty check first. */
  function LandmarkIssues(lm: Located, serialize: Serializer): (r: seq<Check>)
    requires lm.node.Element?
    ensures |r| <= 2
  {
    Collect2(CheckEmpty(lm), CheckContent(lm, serialize))
  }

  /**
   * The empty check is listed exactly when the landmark has no text, the
   * content check's outcome exactly when it fails, and the empty check
   * always comes first.
   */
  lemma LandmarkIssuesExactly(lm: Located, serialize: Serializer)
    requires lm.node.Element?
    ensures var r := LandmarkIssues(lm, serialize);
      && (Empty in r <==> GetText(lm.node) == "")
      && (forall c | c != Empty :: c in r <==> CheckContent(lm, serialize) == Some(c))
      && (|r| == 2 ==> r[0] == Empty)
  {
  }

  /**
   * The penalty for one message: 20 when its lower case contains "empty",
   * else 10 when it contains "should contain", else nothing.
   */
  function Penalty(issue: string): (p: real)
    ensures p == 0.0 || p == 10.0 || p == 20.0
  {
    var lowered := PyStr.Lower(issue);
    if PyStr.Contains(lowered, EmptyPhrase) then 20.0
    else if PyStr.Contains(lowered, ContainPhrase) then 10.0
    else 0.0
  }

  /**
   * What each message costs: 20 for the empty message, 10 for the four
   * messages that say "should contain", and nothing for the header, aside,
   * section and form messages, which say "should include" or "should have".
   */
  function Weight(c: Check): real
  {
    match c
    case Empty => 20.0
    case NavLinks | MainContent | FooterInfo | ArticleContent => 10.0
    case _ => 0.0
  }

  /** Three pieces none of which holds a 'y' leave out "empty". */
  lemma NoEmpty3(a: string, b: string, c: string)
    requires PyStr.Avoids(a, 0, 'y', 'Y') && PyStr.Avoids(b, 0, 'y', 'Y') && PyStr.Avoids(c, 0, 'y', 'Y')
    ensures !PyStr.Contains(PyStr.Lower(a + (b + c)), EmptyPhrase)
  {
    PyStr.AvoidsJoin(b, c, 0, 'y', 'Y');
    PyStr.AvoidsJoin(a, b + c, 0, 'y', 'Y');
    PyStr.LowerMissing(a + (b + c), EmptyPhrase, 4, 'Y');
  }

  /** Four pieces none of which holds a 'y' leave out "empty". */
  lemma NoEmpty4(a: string, b: string, c: string, d: string)
    requires PyStr.Avoids(a, 0, 'y', 'Y') && PyStr.Avoids(b, 0, 'y', 'Y')
    requires PyStr.Avoids(c, 0, 'y', 'Y') && PyStr.Avoids(d, 0, 'y', 'Y')
    ensures !PyStr.Contains(PyStr.Lower(a + (b + (c + d))), EmptyPhrase)
  {
    PyStr.AvoidsJoin(c, d, 0, 'y', 'Y');
    PyStr.AvoidsJoin(b, c + d, 0, 'y', 'Y');
    PyStr.AvoidsJoin(a, b + (c + d), 0, 'y', 'Y');
    PyStr.LowerMissing(a + (b + (c + d)), EmptyPhrase, 4, 'Y');
  }

  /** The nav message leaves out "empty": it has no 'y'. */
  lemma NavLacksEmpty()
    ensures !PyStr.Contains(PyStr.Lower(Message(NavLinks)), EmptyPhrase)
  {
    assert PyStr.Avoids("Landmark <nav> ", 0, 'y', 'Y');
    assert PyStr.Avoids(ContainPhrase, 0, 'y', 'Y');
    assert PyStr.Avoids(" navigation links.", 0, 'y', 'Y');
    NoEmpty3("Landmark <nav> ", ContainPhrase, " navigation links.");
  }

  /** The main message leaves out "empty": each of its 'e's starts something else. */
  lemma MainLacksEmpty()
    ensures !PyStr.Contains(PyStr.Lower(Message(MainContent)), EmptyPhrase)
  {
    assert PyStr.CapitalOf('e', 'E');
    assert PyStr.Avoids("Landmark <main> ", 0, 'e', 'E');
    assert PyStr.Avoids(ContainPhrase, 0, 'e', 'E');
    assert PyStr.Avoids(" th", 0, 'e', 'E');
    assert PyStr.Avoids("e primary cont", 1, 'e', 'E') && PyStr.LowerChar("e primary cont"[1]) != EmptyPhrase[1];
    assert PyStr.Avoids("ent of th", 1, 'e', 'E') && PyStr.LowerChar("ent of th"[1]) != EmptyPhrase[1];
    assert PyStr.Avoids("e pag", 1, 'e', 'E') && PyStr.LowerChar("e pag"[1]) != EmptyPhrase[1];
    assert PyStr.CapitalOf('m', 'M') && PyStr.Avoids("e.", 1, 'm', 'M');
    var t4 := "e pag" + "e.";
    var t3 := "ent of th" + t4;
    var t2 := "e primary cont" + t3;
    var t1 := " th" + t2;
    PyStr.LowerSkip("Landmark <main> ", ContainPhrase + t1, EmptyPhrase, 'E');
    PyStr.LowerSkip(ContainPhrase, t1, EmptyPhrase, 'E');
    PyStr.LowerSkip(" th", t2, EmptyPhrase, 'E');
    PyStr.LowerFalseStart("e primary cont", t3, EmptyPhrase, 1, 'E');
    PyStr.LowerFalseStart("ent of th", t4, EmptyPhrase, 1, 'E');
    PyStr.LowerFalseStart("e pag", "e.", EmptyPhrase, 1, 'E');
    PyStr.LowerMissing("e.", EmptyPhrase, 1, 'M');
  }

  /** The header message leaves out "empty": it has no 'y'. */
  lemma HeaderLacksEmpty()
    ensures !PyStr.Contains(PyStr.Lower(Message(HeaderH1)), EmptyPhrase)
  {
    assert PyStr.Avoids("Landmark <header> ", 0, 'y', 'Y');
    assert PyStr.Avoids("should include", 0, 'y', 'Y');
    assert PyStr.Avoids(" an <h1> element.", 0, 'y', 'Y');
    NoEmpty3("Landmark <header> ", "should include", " an <h1> element.");
  }

  /** The header message says "should include", not "should contain". */
  lemma HeaderLacksContain()
    ensures !PyStr.Contains(PyStr.Lower(Message(HeaderH1)), ContainPhrase)
  {
    assert PyStr.CapitalOf('s', 'S');
    assert PyStr.Avoids("Landmark <header> ", 0, 's', 'S');
    assert PyStr.Avoids("should include", 1, 's', 'S') && PyStr.LowerChar("should include"[7]) != ContainPhrase[7];
    assert PyStr.Avoids(" an <h1> element.", 0, 's', 'S');
    PyStr.LowerSkip("Landmark <header> ", "should include" + " an <h1> element.", ContainPhrase, 'S');
    PyStr.LowerFalseStart("should include", " an <h1> element.", ContainPhrase, 7, 'S');
    PyStr.LowerMissing(" an <h1> element.", ContainPhrase, 0, 'S');
  }

  /** The footer message leaves out "empty": it has no 'y'. */
  lemma FooterLacksEmpty()
    ensures !PyStr.Contains(PyStr.Lower(Message(FooterInfo)), EmptyPhrase)
  {
    assert PyStr.Avoids("Landmark <footer> ", 0, 'y', 'Y');
    assert PyStr.Avoids(ContainPhrase, 0, 'y', 'Y');
    assert PyStr.Avoids(" footer information.", 0, 'y', 'Y');
    NoEmpty3("Landmark <footer> ", ContainPhrase, " footer information.");
  }

  /** The aside message leaves out "empty": it has no 'y'. */
  lemma AsideLacksEmpty()
    ensures !PyStr.Contains(PyStr.Lower(Message(AsideContent)), EmptyPhrase)
  {
    assert PyStr.Avoids("Landmark <a", 0, 'y', 'Y');
    assert PyStr.Avoids("side> ", 0, 'y', 'Y');
    assert PyStr.Avoids("should have ", 0, 'y', 'Y');
    assert PyStr.Avoids("meaningful content.", 0, 'y', 'Y');
    NoEmpty4("Landmark <a", "side> ", "should have ", "meaningful content.");
  }

  /** The aside message says "should have", not "should contain". */
  lemma AsideLacksContain()
    ensures !PyStr.Contains(PyStr.Lower(Message(AsideContent)), ContainPhrase)
  {
    assert PyStr.CapitalOf('s', 'S');
    assert PyStr.Avoids("Landmark <a", 0, 's', 'S');
    assert PyStr.Avoids("side> ", 1, 's', 'S') && PyStr.LowerChar("side> "[1]) != ContainPhrase[1];
    assert PyStr.Avoids("should have ", 1, 's', 'S') && PyStr.LowerChar("should have "[7]) != ContainPhrase[7];
    assert PyStr.Avoids("meaningful content.", 0, 's', 'S');
    var t2 := "should have " + "meaningful content.";
    PyStr.LowerSkip("Landmark <a", "side> " + t2, ContainPhrase, 'S');
    PyStr.LowerFalseStart("side> ", t2, ContainPhrase, 1, 'S');
    PyStr.LowerFalseStart("should have ", "meaningful content.", ContainPhrase, 7, 'S');
    PyStr.LowerMissing("meaningful content.", ContainPhrase, 0, 'S');
  }

  /** The section message leaves out "empty": it has no 'y'. */
  lemma SectionLacksEmpty()
    ensures !PyStr.Contains(PyStr.Lower(Message(SectionContent)), EmptyPhrase)
  {
    assert PyStr.Avoids("Landmark <", 0, 'y', 'Y');
    assert PyStr.Avoids("section> ", 0, 'y', 'Y');
    assert PyStr.Avoids("should have a ", 0, 'y', 'Y');
    assert PyStr.Avoids("meaningful amount ", 0, 'y', 'Y');
    assert PyStr.Avoids("of content.", 0, 'y', 'Y');
    PyStr.AvoidsJoin("meaningful amount ", "of content.", 0, 'y', 'Y');
    NoEmpty4("Landmark <", "section> ", "should have a ", "meaningful amount " + "of content.");
  }

  /** The section message says "should have", not "should contain". */
  lemma SectionLacksContain()
    ensures !PyStr.Contains(PyStr.Lower(Message(SectionContent)), ContainPhrase)
  {
    assert PyStr.CapitalOf('s', 'S');
    assert PyStr.Avoids("Landmark <", 0, 's', 'S');
    assert PyStr.Avoids("section> ", 1, 's', 'S') && PyStr.LowerChar("section> "[1]) != ContainPhrase[1];
    assert PyStr.Avoids("should have a ", 1, 's', 'S') && PyStr.LowerChar("should have a "[7]) != ContainPhrase[7];
    assert PyStr.Avoids("meaningful amount ", 0, 's', 'S');
    assert PyStr.Avoids("of content.", 0, 's', 'S');
    var t3 := "meaningful amount " + "of content.";
    var t2 := "should have a " + t3;
    PyStr.LowerSkip("Landmark <", "section> " + t2, ContainPhrase, 'S');
    PyStr.LowerFalseStart("section> ", t2, ContainPhrase, 1, 'S');
    PyStr.LowerFalseStart("should have a ", t3, ContainPhrase, 7, 'S');
    PyStr.LowerSkip("meaningful amount ", "of content.", ContainPhrase, 'S');
    PyStr.LowerMissing("of content.", ContainPhrase, 0, 'S');
  }

  /** The article message leaves out "empty": it has no 'y'. */
  lemma ArticleLacksEmpty()
    ensures !PyStr.Contains(PyStr.Lower(Message(ArticleContent)), EmptyPhrase)
  {
    assert PyStr.Avoids("Landmark <article> ", 0, 'y', 'Y');
    assert PyStr.Avoids(ContainPhrase, 0, 'y', 'Y');
    assert PyStr.Avoids(" self-contained ", 0, 'y', 'Y');
    assert PyStr.Avoids("detailed content.", 0, 'y', 'Y');
    NoEmpty4("Landmark <article> ", ContainPhrase, " self-contained ", "detailed content.");
  }

  /** The message for a form without inputs leaves out "empty": it has no 'y'. */
  lemma FormInputsLacksEmpty()
    ensures !PyStr.Contains(PyStr.Lower(Message(FormInputs)), EmptyPhrase)
  {
    assert PyStr.Avoids("Landmark <form> ", 0, 'y', 'Y');
    assert PyStr.Avoids("should include ", 0, 'y', 'Y');
    assert PyStr.Avoids("input element", 0, 'y', 'Y');
    assert PyStr.Avoids("s.", 0, 'y', 'Y');
    NoEmpty4("Landmark <form> ", "should include ", "input element", "s.");
  }

  /** The message for a form without inputs says "should include", not "should contain". */
  lemma FormInputsLacksContain()
    ensures !PyStr.Contains(PyStr.Lower(Message(FormInputs)), ContainPhrase)
  {
    assert PyStr.CapitalOf('s', 'S') && PyStr.CapitalOf('h', 'H');
    assert PyStr.Avoids("Landmark <form> ", 0, 's', 'S');
    assert PyStr.Avoids("should include ", 1, 's', 'S') && PyStr.LowerChar("should include "[7]) != ContainPhrase[7];
    assert PyStr.Avoids("input element", 0, 's', 'S');
    assert PyStr.Avoids("s.", 1, 'h', 'H');
    var t2 := "input element" + "s.";
    PyStr.LowerSkip("Landmark <form> ", "should include " + t2, ContainPhrase, 'S');
    PyStr.LowerFalseStart("should include ", t2, ContainPhrase, 7, 'S');
    PyStr.LowerSkip("input element", "s.", ContainPhrase, 'S');
    PyStr.LowerMissing("s.", ContainPhrase, 1, 'H');
  }

  /** The message for a form without labels leaves out "empty": it has no 'y'. */
  lemma FormLabelsLacksEmpty()
    ensures !PyStr.Contains(PyStr.Lower(Message(FormLabels)), EmptyPhrase)
  {
    assert PyStr.Avoids("Landmark <form> should have ", 0, 'y', 'Y');
    assert PyStr.Avoids("labeled inputs using ", 0, 'y', 'Y');
    assert PyStr.Avoids("<label> elements or ", 0, 'y', 'Y');
    assert PyStr.Avoids("aria-label attributes.", 0, 'y', 'Y');
    NoEmpty4("Landmark <form> should have ", "labeled inputs using ", "<label> elements or ", "aria-label attributes.");
  }

  /** The message for a form without labels leaves out "should contain": it has no 'c'. */
  lemma FormLabelsLacksContain()
    ensures !PyStr.Contains(PyStr.Lower(Message(FormLabels)), ContainPhrase)
  {
    assert PyStr.CapitalOf('c', 'C') && ContainPhrase[7] == 'c';
    assert PyStr.Avoids("Landmark <form> should have ", 0, 'c', 'C');
    assert PyStr.Avoids("labeled inputs using ", 0, 'c', 'C');
    assert PyStr.Avoids("<label> elements or ", 0, 'c', 'C');
    assert PyStr.Avoids("aria-label attributes.", 0, 'c', 'C');
    var t3 := "<label> elements or " + "aria-label attributes.";
    var t2 := "labeled inputs using " + t3;
    PyStr.AvoidsJoin("<label> elements or ", "aria-label attributes.", 0, 'c', 'C');
    PyStr.AvoidsJoin("labeled inputs using ", t3, 0, 'c', 'C');
    PyStr.AvoidsJoin("Landmark <form> should have ", t2, 0, 'c', 'C');
    PyStr.LowerMissing(Message(FormLabels), ContainPhrase, 7, 'C');
  }

  /** Any message with "empty" in the middle names it. */
  lemma EmptyFound(x: string, y: string)
    ensures PyStr.Contains(PyStr.Lower(x + (EmptyPhrase + y)), EmptyPhrase)
  {
    PyStr.LowerFound(x, EmptyPhrase, y);
  }

  /** Any message with "should contain" in the middle names it. */
  lemma ContainFound(x: string, y: string)
    ensures PyStr.Contains(PyStr.Lower(x + (ContainPhrase + y)), ContainPhrase)
  {
    PyStr.LowerFound(x, ContainPhrase, y);
  }

  /** The Empty message costs 20 points. */
  lemma EmptyPenalty()
    ensures Penalty(Message(Empty)) == 20.0
  {
    EmptyFound("Landmark element is ", " or has no meaningful content.");
  }

  /** The NavLinks message costs 10 points. */
  lemma NavPenalty()
    ensures Penalty(Message(NavLinks)) == 10.0
  {
    NavLacksEmpty();
    ContainFound("Landmark <nav> ", " navigation links.");
  }

  /** The MainContent message costs 10 points. */
  lemma MainPenalty()
    ensures Penalty(Message(MainContent)) == 10.0
  {
    MainLacksEmpty();
    ContainFound("Landmark <main> ", " th" + ("e primary cont" + ("ent of th" + ("e pag" + "e."))));
  }

  /** The HeaderH1 message costs 0 points. */
  lemma HeaderPenalty()
    ensures Penalty(Message(HeaderH1)) == 0.0
  {
    HeaderLacksEmpty();
    HeaderLacksContain();
  }

  /** The FooterInfo message costs 10 points. */
  lemma FooterPenalty()
    ensures Penalty(Message(FooterInfo)) == 10.0
  {
    FooterLacksEmpty();
    ContainFound("Landmark <footer> ", " footer information.");
  }

  /** The AsideContent message costs 0 points. */
  lemma AsidePenalty()
    ensures Penalty(Message(AsideContent)) == 0.0
  {
    AsideLacksEmpty();
    AsideLacksContain();
  }

  /** The SectionContent message costs 0 points. */
  lemma SectionPenalty()
    ensures Penalty(Message(SectionContent)) == 0.0
  {
    SectionLacksEmpty();
    SectionLacksContain();
  }

  /** The ArticleContent message costs 10 points. */
  lemma ArticlePenalty()
    ensures Penalty(Message(ArticleContent)) == 10.0
  {
    ArticleLacksEmpty();
    ContainFound("Landmark <article> ", " self-contained " + "detailed content.");
  }

  /** The FormInputs message costs 0 points. */
  lemma FormInputsPenalty()
    ensures Penalty(Message(FormInputs)) == 0.0
  {
    FormInputsLacksEmpty();
    FormInputsLacksContain();
  }

  /** The FormLabels message costs 0 points. */
  lemma FormLabelsPenalty()
    ensures Penalty(Message(FormLabels)) == 0.0
  {
    FormLabelsLacksEmpty();
    FormLabelsLacksContain();
  }

  /** Every message costs its weight. */
  lemma MessagePenalty(c: Check)
    ensures Penalty(Message(c)) == Weight(c)
  {
    match c
    case Empty => EmptyPenalty();
    case NavLinks => NavPenalty();
    case MainContent => MainPenalty();
    case HeaderH1 => HeaderPenalty();
    case FooterInfo => FooterPenalty();
    case AsideContent => AsidePenalty();
    case SectionContent => SectionPenalty();
    case ArticleContent => ArticlePenalty();
    case FormInputs => FormInputsPenalty();
    case FormLabels => FormLabelsPenalty();
  }

  /** The penalties of `issues`, added up. */
  function TotalPenalty(issues: seq<string>): real
  {
    if issues == [] then 0.0 else TotalPenalty(issues[..|issues| - 1]) + Penalty(issues[|issues| - 1])
  }

  /** Every message costs at most 20 points. */
  lemma {:induction false} TotalPenaltyBounds(issues: seq<string>)
    ensures 0.0 <= TotalPenalty(issues) <= 20.0 * |issues| as real
  {
    if issues != [] {
      TotalPenaltyBounds(issues[..|issues| - 1]);
    }
  }

  /**
   * `calculate_landmark_confidence`: the baseline less every penalty, scaled
   * by the share of landmarks that the landmark's issue count leaves over,
   * floored at 0.
   */
  function Confidence(issues: seq<string>, total: nat): real
  {
    Discounted(Baseline - TotalPenalty(issues), |issues|, total)
  }

  /** A landmark has at most two issues, so its baseline before scaling lies in [55, 95]. */
  lemma BaselineBounds(issues: seq<string>)
    requires |issues| <= 2
    ensures 55.0 <= Baseline - TotalPenalty(issues) <= Baseline
  {
    TotalPenaltyBounds(issues);
  }

  /**
   * A landmark's score lies in [0, 95]. It is positive when the landmark has
   * fewer issues than the document has landmarks, and it is 0 as soon as it
   * has at least as many issues as there are landmarks: a lone landmark
   * with any issue scores 0.
   */
  lemma ConfidenceBounds(issues: seq<string>, total: nat)
    requires |issues| <= 2
    ensures 0.0 <= Confidence(issues, total) <= Baseline
    ensures |issues| < total ==> Confidence(issues, total) > 0.0
    ensures 0 < total <= |issues| ==> Confidence(issues, total) == 0.0
  {
    var b := Baseline - TotalPenalty(issues);
    var k := |issues|;
    BaselineBounds(issues);
    DiscountedOfNonNegative(b, k, total);
    if 0 < total {
      ScaledSign(b, k, total);
    }
  }

  /** What an optional check costs: its weight if it failed, nothing if it passed. */
  function OptionalWeight(o: Option<Check>): real
  {
    match o
    case Some(c) => Weight(c)
    case None => 0.0
  }

  /** One message costs its own penalty. */
  lemma TotalPenaltyOne(a: string)
    ensures TotalPenalty([a]) == Penalty(a)
  {
    assert [a][..0] == [];
  }

  /** Two messages cost their penalties added up. */
  lemma TotalPenaltyTwo(a: string, b: string)
    ensures TotalPenalty([a, b]) == Penalty(a) + Penalty(b)
  {
    assert [a, b][..1] == [a];
    TotalPenaltyOne(a);
  }

  /** The messages of the checks that failed, among two, cost the weights of those two checks added up. */
  lemma PairPenalty(first: Option<Check>, second: Option<Check>)
    ensures TotalPenalty(Messages(Collect2(first, second))) == OptionalWeight(first) + OptionalWeight(second)
  {
    var ms := Messages(Collect2(first, second));
    if first.Some? && second.Some? {
      assert ms == [Message(first.value), Message(second.value)];
      TotalPenaltyTwo(Message(first.value), Message(second.value));
      MessagePenalty(first.value);
      MessagePenalty(second.value);
    } else if first.Some? {
      assert ms == [Message(first.value)];
      TotalPenaltyOne(Message(first.value));
      MessagePenalty(first.value);
    } else if second.Some? {
      assert ms == [Message(second.value)];
      TotalPenaltyOne(Message(second.value));
      MessagePenalty(second.value);
    } else {
      assert ms == [];
    }
  }

  /**
   * A landmark's baseline before scaling: 95, less 20 when it has no text,
   * less 10 when it fails the nav, main, footer or article content check;
   * the header, aside, section and form messages cost nothing.
   */
  lemma IssuesBaseline(lm: Located, serialize: Serializer)
    requires lm.node.Element?
    ensures Baseline - TotalPenalty(Messages(LandmarkIssues(lm, serialize)))
         == Baseline - (if GetText(lm.node) == "" then 20.0 else 0.0) - OptionalWeight(CheckContent(lm, serialize))
  {
    PairPenalty(CheckEmpty(lm), CheckContent(lm, serialize));
  }

  /** One or two messages whose penalties leave `b` of the baseline score `b` discounted, which lies in [0, 95]. */
  lemma ConfidenceOf(issues: seq<string>, total: nat, b: real)
    requires |issues| <= 2
    requires Baseline - TotalPenalty(issues) == b
    ensures 0.0 <= Confidence(issues, total) <= Baseline
    ensures |issues| < total ==> Confidence(issues, total) > 0.0
    ensures 0 < total <= |issues| ==> Confidence(issues, total) == 0.0
    ensures Confidence(issues, total) == Discounted(b, |issues|, total)
  {
    ConfidenceBounds(issues, total);
  }

  /** Scaling a positive baseline by `1 - k / total` keeps it positive below `total` and floors it at `total` or more. */
  lemma ScaledSign(b: real, k: nat, total: nat)
    requires 0.0 < b && 0 < total
    ensures k < total ==> Discounted(b, k, total) > 0.0
    ensures total <= k ==> Discounted(b, k, total) == 0.0
  {
    var q := k as real / total as real;
    assert q * total as real == k as real;
    if k < total {
      assert q < 1.0;
      assert b * (1.0 - q) > 0.0;
    } else {
      assert q >= 1.0;
      assert b * (1.0 - q) <= 0.0;
    }
  }

  /** `calculate_landmark_confidence`, the loop over the messages followed by the scaling. */
  method CalculateLandmarkConfidence(issues: seq<string>, total: nat) returns (c: real)
    ensures c == Confidence(issues, total)
  {
    var baseline := Baseline;
    for i := 0 to |issues|
      invariant baseline == Baseline - TotalPenalty(issues[..i])
    {
      assert issues[..i + 1][..i] == issues[..i];
      var lowered := PyStr.Lower(issues[i]);
      if PyStr.Contains(lowered, EmptyPhrase) {
        baseline := baseline - 20.0;
      } else if PyStr.Contains(lowered, ContainPhrase) {
        baseline := baseline - 10.0;
      }
    }
    assert issues[..|issues|] == issues;
    if total > 0 {
      baseline := baseline * (1.0 - |issues| as real / total as real);
    }
    c := if baseline >= 0.0 then baseline else 0.0;
  }

  /** The entry for the landmark at 1-based position `index` of `total`: present exactly when it has an issue. */
  function LandmarkEntry(index: nat, lm: Located, serialize: Serializer, total: nat): (r: Option<Entry>)
    requires lm.node.Element?
    ensures r.Some? <==> LandmarkIssues(lm, serialize) != []
    ensures r.Some? ==> r.value.index == index && r.value.tag == lm.node.name && r.value.html == serialize(lm.node)
    ensures r.Some? ==> r.value.issues == Messages(LandmarkIssues(lm, serialize)) && r.value.confidence == Confidence(r.value.issues, total)
  {
    var checks := LandmarkIssues(lm, serialize);
    if checks != [] then
      Some(Entry(index, lm.node.name, serialize(lm.node), Messages(checks), Confidence(Messages(checks), total)))
    else None
  }

  /** Each landmark's entry, if any, in document order. */
  function LandmarkOptions(lms: seq<Located>, serialize: Serializer): (r: seq<Option<Entry>>)
    requires forall i | 0 <= i < |lms| :: lms[i].node.Element?
    ensures |r| == |lms|
  {
    seq(|lms|, i => PositionEntry(lms, serialize, i))
  }

  /** The entry of the candidate at 0-based position `i`; none outside `lms`. */
  function PositionEntry(lms: seq<Located>, serialize: Serializer, i: int): Option<Entry>
  {
    if 0 <= i < |lms| && lms[i].node.Element? then LandmarkEntry(i + 1, lms[i], serialize, |lms|) else None
  }

  lemma OptionAt(lms: seq<Located>, serialize: Serializer, i: nat)
    requires forall i | 0 <= i < |lms| :: lms[i].node.Element?
    requires i < |lms|
    ensures LandmarkOptions(lms, serialize)[i] == LandmarkEntry(i + 1, lms[i], serialize, |lms|)
  {
  }

  /** The `issues` list the loop builds: each landmark with an issue, in document order. */
  function Entries(lms: seq<Located>, serialize: Serializer): seq<Entry>
    requires forall i | 0 <= i < |lms| :: lms[i].node.Element?
  {
    Kept(LandmarkOptions(lms, serialize))
  }

  /** The scores of `entries`, in order. */
  function Confidences(entries: seq<Entry>): (r: seq<real>)
    ensures |r| == |entries|
  {
    seq(|entries|, j requires 0 <= j < |entries| => entries[j].confidence)
  }

  /** The result of `test_landmark_markup` on a document. */
  function Report(doc: seq<Node>, serialize: Serializer): Outcome<Entry>
  {
    var lms := FindInDocument(doc, LandmarkTags);
    if lms == [] then Outcome(NotApplicable, [], 100.0)
    else
      var entries := Entries(lms, serialize);
      Outcome(if entries != [] then Malformed else Passed, entries, MeanOr100(Confidences(entries)))
  }

  /** `test_landmark_markup` */
  method TestLandmarkMarkup(doc: seq<Node>, serialize: Serializer) returns (r: Outcome<Entry>)
    ensures r == Report(doc, serialize)
  {
    var lms := FindInDocument(doc, LandmarkTags);
    if lms == [] {
      return Outcome(NotApplicable, [], 100.0);
    }
    ghost var opts := LandmarkOptions(lms, serialize);
    var issues: seq<Entry> := [];
    for index := 0 to |lms|
      invariant issues == Kept(opts[..index])
    {
      KeptSnoc(opts, index);
      var lm := lms[index];
      var html := serialize(lm.node);
      var checks := LandmarkIssues(lm, serialize);
      var messages := Messages(checks);
      var confidence := CalculateLandmarkConfidence(messages, |lms|);
      assert opts[index] == LandmarkEntry(index + 1, lm, serialize, |lms|);
      if checks != [] {
        issues := issues + [Entry(index + 1, lm.node.name, html, messages, confidence)];
      }
    }
    assert opts[..|lms|] == opts;
    assert issues == Entries(lms, serialize);
    r := Outcome(if issues != [] then Malformed else Passed, issues, MeanOr100(Confidences(issues)));
  }

  /** `e` is the entry of the landmark it names by 1-based position. */
  predicate EntryOf(lms: seq<Located>, serialize: Serializer, e: Entry)
    requires forall i | 0 <= i < |lms| :: lms[i].node.Element?
  {
    1 <= e.index <= |lms| && LandmarkEntry(e.index, lms[e.index - 1], serialize, |lms|) == Some(e)
  }

  /** The j-th recorded entry is the entry of the landmark at the j-th kept position. */
  lemma EntryAt(lms: seq<Located>, serialize: Serializer, j: nat)
    requires forall i | 0 <= i < |lms| :: lms[i].node.Element?
    requires j < |Entries(lms, serialize)|
    ensures var opts := LandmarkOptions(lms, serialize);
      && j < |KeptAt(opts)|
      && Entries(lms, serialize)[j].index == KeptAt(opts)[j] + 1
      && EntryOf(lms, serialize, Entries(lms, serialize)[j])
  {
    var opts := LandmarkOptions(lms, serialize);
    KeptExactly(opts);
    var i := KeptAt(opts)[j];
    var e := Entries(lms, serialize)[j];
    OptionAt(lms, serialize, i);
    assert LandmarkEntry(i + 1, lms[i], serialize, |lms|) == Some(e);
    assert e.index - 1 == i;
  }

  /** Every recorded entry is the entry of the landmark it names, and the entries follow document order. */
  lemma EntriesSound(lms: seq<Located>, serialize: Serializer)
    requires forall i | 0 <= i < |lms| :: lms[i].node.Element?
    ensures var es := Entries(lms, serialize);
      && (forall j | 0 <= j < |es| :: EntryOf(lms, serialize, es[j]))
      && (forall j, k | 0 <= j < k < |es| :: es[j].index < es[k].index)
  {
    var es := Entries(lms, serialize);
    KeptExactly(LandmarkOptions(lms, serialize));
    forall j | 0 <= j < |es| ensures EntryOf(lms, serialize, es[j]) {
      EntryAt(lms, serialize, j);
    }
    forall j, k | 0 <= j < k < |es| ensures es[j].index < es[k].index {
      EntryAt(lms, serialize, j);
      EntryAt(lms, serialize, k);
    }
  }

  /** Every landmark with an issue is named by some entry of `es`. */
  predicate Covers(lms: seq<Located>, serialize: Serializer, es: seq<Entry>)
    requires forall i | 0 <= i < |lms| :: lms[i].node.Element?
  {
    forall i | 0 <= i < |lms| && LandmarkIssues(lms[i], serialize) != [] :: exists j | 0 <= j < |es| :: es[j].index == i + 1
  }

  /** Every landmark with an issue has an entry. */
  lemma EntriesComplete(lms: seq<Located>, serialize: Serializer)
    requires forall i | 0 <= i < |lms| :: lms[i].node.Element?
    ensures Covers(lms, serialize, Entries(lms, serialize))
  {
    var opts := LandmarkOptions(lms, serialize);
    KeptExactly(opts);
    var es := Entries(lms, serialize);
    var at := KeptAt(opts);
    forall i | 0 <= i < |lms| && LandmarkIssues(lms[i], serialize) != []
      ensures exists j | 0 <= j < |es| :: es[j].index == i + 1
    {
      OptionAt(lms, serialize, i);
      var j :| 0 <= j < |at| && at[j] == i;
      assert opts[at[j]] == Some(es[j]);
    }
  }

  /** There are no entries exactly when no landmark has an issue. */
  lemma EntriesEmpty(lms: seq<Located>, serialize: Serializer)
    requires forall i | 0 <= i < |lms| :: lms[i].node.Element?
    ensures Entries(lms, serialize) == [] <==> forall i | 0 <= i < |lms| :: LandmarkIssues(lms[i], serialize) == []
  {
    var opts := LandmarkOptions(lms, serialize);
    KeptEmpty(opts);
    forall i | 0 <= i < |lms| ensures opts[i].Some? == (LandmarkIssues(lms[i], serialize) != []) {
      OptionAt(lms, serialize, i);
    }
  }

  /** Without landmarks the validator reports Not Applicable with confidence 100, and only then. */
  lemma NotApplicableWithoutLandmarks(doc: seq<Node>, serialize: Serializer)
    ensures Report(doc, serialize).status == NotApplicable <==> !HasElement(doc, LandmarkTags)
    ensures !HasElement(doc, LandmarkTags) ==> Report(doc, serialize) == Outcome(NotApplicable, [], 100.0)
  {
    FindAllEmpty(doc, [], LandmarkTags);
  }

  /**
   * With landmarks, the result is Malformed exactly when some landmark has
   * an issue, and Passed, with confidence 100, otherwise.
   */
  lemma LandmarkStatus(doc: seq<Node>, serialize: Serializer)
    requires HasElement(doc, LandmarkTags)
    ensures var lms := FindInDocument(doc, LandmarkTags);
      && (Report(doc, serialize).status == Malformed <==> exists i | 0 <= i < |lms| :: LandmarkIssues(lms[i], serialize) != [])
      && (Report(doc, serialize).status == Passed <==> forall i | 0 <= i < |lms| :: LandmarkIssues(lms[i], serialize) == [])
      && (Report(doc, serialize).status == Passed ==> Report(doc, serialize).confidence == 100.0)
  {
    FindAllEmpty(doc, [], LandmarkTags);
    EntriesEmpty(FindInDocument(doc, LandmarkTags), serialize);
  }

  /**
   * A recorded landmark scores in [0, 95]; in a document with more landmarks
   * than it has issues it scores above 0, otherwise exactly 0.
   */
  lemma EntryScore(lms: seq<Located>, serialize: Serializer, e: Entry)
    requires forall i | 0 <= i < |lms| :: lms[i].node.Element?
    requires EntryOf(lms, serialize, e)
    ensures 0.0 <= e.confidence <= Baseline
    ensures |e.issues| < |lms| ==> e.confidence > 0.0
    ensures |lms| <= |e.issues| ==> e.confidence == 0.0
    ensures 1 <= |e.issues| <= 2
    ensures var lm := lms[e.index - 1];
      e.confidence == Discounted(Baseline - (if GetText(lm.node) == "" then 20.0 else 0.0) - OptionalWeight(CheckContent(lm, serialize)), |e.issues|, |lms|)
  {
    var lm := lms[e.index - 1];
    var r := LandmarkEntry(e.index, lm, serialize, |lms|);
    assert r == Some(e);
    assert e.issues == Messages(LandmarkIssues(lm, serialize));
    assert e.confidence == Confidence(e.issues, |lms|);
    var b := Baseline - (if GetText(lm.node) == "" then 20.0 else 0.0) - OptionalWeight(CheckContent(lm, serialize));
    IssuesBaseline(lm, serialize);
    ConfidenceOf(e.issues, |lms|, b);
    assert e.confidence == Discounted(b, |e.issues|, |lms|);
  }

  /** Every recorded landmark scores in [0, 95]. */
  lemma EntriesScore(lms: seq<Located>, serialize: Serializer)
    requires forall i | 0 <= i < |lms| :: lms[i].node.Element?
    ensures var es := Entries(lms, serialize);
      forall j | 0 <= j < |es| :: 0.0 <= es[j].confidence <= Baseline
  {
    var es := Entries(lms, serialize);
    EntriesSound(lms, serialize);
    forall j | 0 <= j < |es| ensures 0.0 <= es[j].confidence <= Baseline {
      EntryScore(lms, serialize, es[j]);
    }
  }

  /** A Malformed result scores the mean of its entries' scores, each in [0, 95]. */
  lemma LandmarkScore(doc: seq<Node>, serialize: Serializer)
    requires Report(doc, serialize).status == Malformed
    ensures var r := Report(doc, serialize);
      && (forall j | 0 <= j < |r.details| :: 0.0 <= r.details[j].confidence <= Baseline)
      && 0.0 <= r.confidence <= Baseline
  {
    var lms := FindInDocument(doc, LandmarkTags);
    var es := Entries(lms, serialize);
    assert Report(doc, serialize) == Outcome(Malformed, es, Mean(Confidences(es)));
    EntriesScore(lms, serialize);
    MeanBounds(Confidences(es), 0.0, Baseline);
  }

  /** In a document with a single landmark, a Malformed result always scores 0. */
  lemma LoneLandmarkScoresZero(doc: seq<Node>, serialize: Serializer)
    requires |FindInDocument(doc, LandmarkTags)| == 1
    requires Report(doc, serialize).status == Malformed
    ensures Report(doc, serialize).confidence == 0.0
  {
    var es := Entries(FindInDocument(doc, LandmarkTags), serialize);
    assert Report(doc, serialize) == Outcome(Malformed, es, Mean(Confidences(es)));
    LoneEntry(FindInDocument(doc, LandmarkTags), serialize);
    MeanBounds(Confidences(es), 0.0, 0.0);
  }

  /** With one landmark, a recorded entry is the only one and scores 0. */
  lemma LoneEntry(lms: seq<Located>, serialize: Serializer)
    requires forall i | 0 <= i < |lms| :: lms[i].node.Element?
    requires |lms| == 1 && Entries(lms, serialize) != []
    ensures |Entries(lms, serialize)| == 1 && Entries(lms, serialize)[0].confidence == 0.0
  {
    KeptExactly(LandmarkOptions(lms, serialize));
    EntryAt(lms, serialize, 0);
    EntryScore(lms, serialize, Entries(lms, serialize)[0]);
  }
}
