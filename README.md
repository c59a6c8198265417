# WCAG 1.3.1 markup validators, modelled in Dafny

This project models the rule engine of an accessibility checker for WCAG 2
Success Criterion 1.3.1, "Info and Relationships". The engine has seven
validators. Each one walks a parsed HTML document, flags the elements whose
markup breaks its rules, scores the findings, and returns a result with a
status (Not Applicable, Passed, Malformed or Error), the details and a
confidence figure. The seven validators cover headings, lists, tables,
blockquotes, landmarks, generic structural elements and forms.

The project also models three pieces of the single-URL driver:

- `group_issues`, which merges issue dictionaries that share an "Issue" text and counts them;
- the folder name built from a test name;
- the folder name built from a URL.

Modules, one per file:

- `Wrappers` (wrappers.dfy): `Option`, `Result` and the Python exceptions the
  code can raise. `Present`, `Collect2` and `Collect3` stand for the
  `[x for x in [...] if x is not None]` comprehensions.
- `PyStr` (pystr.dfy): the Python string operations the validators rely on:
  - `strip`, `split` as a word count, `lower`, the substring test `in`;
  - `replace`, `isdigit`, `int()`, `str()` of an integer.
- `Dom` (dom.dfy): the parsed document, a forest of elements and text nodes.
  - `FindAll` is `find_all`: a pre-order walk filtered by tag name. Each
    element found carries the tag names of its ancestors, which
    `find_parent('label')` needs.
  - `GetText` is `get_text(strip=True)`.
  - `Truthy` is Python truthiness of `tag.get(attr)`.
- `Verdict` (verdict.dfy) holds what the validators share:
  - the result record;
  - `Kept`, the comprehension that keeps the elements with an issue, in order;
  - the mean of a list of scores;
  - the two scaling formulas `max(b * (1 - k/n), 0)` and `max(base - 50 * k/n, 0)`;
    the lists and tables validators use base 95, the structural validator base 100.
- `Headings`, `Lists`, `Tables`, `Blockquotes`, `Landmarks`, `Structural`,
  `Forms`: one module per validator file. Each has:
  - the validation helpers, with their messages and their order;
  - the scoring function;
  - the validator's loop, as a method proved equal to a functional
    specification of the whole result;
  - lemmas about that specification:
    - every detail names an element that fails a check, in document order;
    - every failing element has a detail;
    - the status is Malformed exactly when some element fails;
    - the status is Not Applicable exactly when there is no candidate element;
    - the bounds of every score.

    For Headings an element "fails" when it files an issue given the
    state the loop reached before it (`prev_level` and the texts seen so
    far): `IssuesSound`, `IssuesComplete` and `HeadingStatus`.
- `Grouping` (grouping.dfy): `group_issues` as a loop over a `defaultdict`
  that keeps insertion order, proved equal to a functional definition. Its
  lemmas say the result has one dictionary per distinct key, in order of
  first occurrence, with a correct "Count", and that the counts add up.
- `FolderNames` (folders.dfy): the two folder-name rewrites.

Parts of the system that fall outside the core are parameters:

- The HTML parser is not modelled. Every validator takes an already parsed document.
- `str(tag)` is a parameter `serialize`, a function from a node to a string.

## Model

Paths are relative to the repository root.

| member | source | states |
|---|---|---|
| Lists.ValidateList | CURRENT_VERSION/checks/WCAG_1_3_1/test_list_markup.py:60-66 | the "no `<li>`" message exactly when no `li` descendant exists; the role message exactly when there are items, the tag is not ul/ol and `role` is falsy; None exactly otherwise |
| Lists.ListConfidence | CURRENT_VERSION/checks/WCAG_1_3_1/test_list_markup.py:69-76 | for at most `total` flagged lists the score lies in [45, 95] and is 95 exactly when nothing is flagged |
| Lists.Stamped | CURRENT_VERSION/checks/WCAG_1_3_1/test_list_markup.py:108-109 | every issue keeps its fields and gains the overall confidence |
| Lists.TestListMarkup | CURRENT_VERSION/checks/WCAG_1_3_1/test_list_markup.py:79-116 | the loop's result equals the functional report `ListReport` |
| Lists.ListEntriesSound | CURRENT_VERSION/checks/WCAG_1_3_1/test_list_markup.py:92-101 | each entry names, by 1-based index, a candidate that fails `validate_list`, with its serialisation and message; entries are in document order |
| Lists.ListEntriesComplete | CURRENT_VERSION/checks/WCAG_1_3_1/test_list_markup.py:92-101 | every candidate that fails `validate_list` has an entry |
| Lists.ListNotApplicable | CURRENT_VERSION/checks/WCAG_1_3_1/test_list_markup.py:82-87 | Not Applicable exactly when no ul/ol/div/section exists, then with no details and confidence 100 |
| Lists.ListStatus | CURRENT_VERSION/checks/WCAG_1_3_1/test_list_markup.py:112-116 | Malformed exactly when some candidate fails, Passed exactly when none does |
| Lists.ListScore | CURRENT_VERSION/checks/WCAG_1_3_1/test_list_markup.py:104-116 | the overall confidence lies in [45, 95], is 95 exactly on a pass, and every detail carries it |
| Tables.ValidateHeaders | CURRENT_VERSION/checks/WCAG_1_3_1/test_table_markup.py:70-74 | a message exactly when the table has no `th` descendant |
| Tables.ValidateRows | CURRENT_VERSION/checks/WCAG_1_3_1/test_table_markup.py:76-80 | a message exactly when the table has no `tr` descendant |
| Tables.ValidateAriaRole | CURRENT_VERSION/checks/WCAG_1_3_1/test_table_markup.py:82-86 | a message exactly when `role` is missing or empty and there is no `summary` attribute |
| Tables.TableIssuesExactly | CURRENT_VERSION/checks/WCAG_1_3_1/test_table_markup.py:110-118 | each message is present exactly when its check fails, in the order headers, rows, role |
| Tables.TableConfidence | CURRENT_VERSION/checks/WCAG_1_3_1/test_table_markup.py:89-93 | for at most `checks` issues the score lies in [45, 95] and is 95 exactly with no issue |
| Tables.TableEntry | CURRENT_VERSION/checks/WCAG_1_3_1/test_table_markup.py:120-126 | an entry exactly when some check fails, with the 1-based index, the serialisation, the failing checks' messages joined by spaces, and the table's own score over its three checks |
| Tables.TestTableMarkup | CURRENT_VERSION/checks/WCAG_1_3_1/test_table_markup.py:96-137 | the loop's result equals the functional report `TableReport` |
| Tables.EntryAt | CURRENT_VERSION/checks/WCAG_1_3_1/test_table_markup.py:109-126 | the j-th entry comes from the j-th failing table and describes it |
| Tables.TableEntriesSound | CURRENT_VERSION/checks/WCAG_1_3_1/test_table_markup.py:109-126 | each entry describes a failing table, with the joined messages and its own score; entries are in document order |
| Tables.TableEntriesComplete | CURRENT_VERSION/checks/WCAG_1_3_1/test_table_markup.py:109-126 | every failing table has an entry |
| Tables.TableEntriesEmpty | CURRENT_VERSION/checks/WCAG_1_3_1/test_table_markup.py:120 | no entries exactly when no table fails a check |
| Tables.EntryScore | CURRENT_VERSION/checks/WCAG_1_3_1/test_table_markup.py:125 | a table's own score lies in [45, 95) |
| Tables.TableNotApplicable | CURRENT_VERSION/checks/WCAG_1_3_1/test_table_markup.py:99-104 | Not Applicable exactly when no table exists, then with no details and confidence 100 |
| Tables.TableStatus | CURRENT_VERSION/checks/WCAG_1_3_1/test_table_markup.py:133-137 | Malformed exactly when some table fails a check, Passed exactly when none does |
| Tables.TableScore | CURRENT_VERSION/checks/WCAG_1_3_1/test_table_markup.py:130-137 | the overall confidence lies in [45, 95] and is 95 exactly on a pass |
| Blockquotes.ValidateSource | CURRENT_VERSION/checks/WCAG_1_3_1/test_blockquote_markup.py:54-58 | a message exactly when `cite` is falsy and no `footer` descendant exists |
| Blockquotes.ValidateAria | CURRENT_VERSION/checks/WCAG_1_3_1/test_blockquote_markup.py:60-64 | a message exactly when both `aria-labelledby` and `aria-describedby` are falsy |
| Blockquotes.BlockquoteIssuesExactly | CURRENT_VERSION/checks/WCAG_1_3_1/test_blockquote_markup.py:95-102 | each message is present exactly when its check fails; with both, source comes first |
| Blockquotes.ConfidenceAsWritten | CURRENT_VERSION/checks/WCAG_1_3_1/test_blockquote_markup.py:67-76 | as written: succeeds, with 95, exactly on an empty issue list; `.get` on a message string raises otherwise |
| Blockquotes.Penalty | CURRENT_VERSION/checks/WCAG_1_3_1/test_blockquote_markup.py:70-75 | a record costs 0, 15 or 20 points |
| Blockquotes.AriaMessageReads | CURRENT_VERSION/checks/WCAG_1_3_1/test_blockquote_markup.py:60-76 | the ARIA message, lower-cased, lacks "missing a cite" and holds "missing an aria" |
| Blockquotes.MessagePenalty | CURRENT_VERSION/checks/WCAG_1_3_1/test_blockquote_markup.py:54-76 | the source message costs 20 points and the ARIA message 15 |
| Blockquotes.TotalPenaltyBounds | CURRENT_VERSION/checks/WCAG_1_3_1/test_blockquote_markup.py:70-75 | n records cost between 0 and 20n points |
| Blockquotes.ConfidenceBounds | CURRENT_VERSION/checks/WCAG_1_3_1/test_blockquote_markup.py:67-76 | the score lies in [0, 95], at least 95 - 20n, and at least 55 for up to two records |
| Blockquotes.CalculateConfidence | CURRENT_VERSION/checks/WCAG_1_3_1/test_blockquote_markup.py:67-76 | the loop over the records computes `Confidence` |
| Blockquotes.IssuesConfidence | CURRENT_VERSION/checks/WCAG_1_3_1/test_blockquote_markup.py:95-105 | a failing blockquote scores 75 (no source), 80 (no ARIA) or 60 (both) |
| Blockquotes.BlockquoteEntry | CURRENT_VERSION/checks/WCAG_1_3_1/test_blockquote_markup.py:107-113 | an entry exactly when a check fails, with the 1-based index, the serialisation, the failing checks' messages and their score |
| Blockquotes.TestBlockquoteMarkup | CURRENT_VERSION/checks/WCAG_1_3_1/test_blockquote_markup.py:79-124 | the loop, with the intended scoring, equals the functional report `Report` |
| Blockquotes.EntryAt | CURRENT_VERSION/checks/WCAG_1_3_1/test_blockquote_markup.py:91-113 | the j-th entry comes from the j-th failing blockquote and describes it |
| Blockquotes.EntriesSound | CURRENT_VERSION/checks/WCAG_1_3_1/test_blockquote_markup.py:91-113 | each entry describes a failing blockquote; entries are in document order |
| Blockquotes.EntriesComplete | CURRENT_VERSION/checks/WCAG_1_3_1/test_blockquote_markup.py:91-113 | every failing blockquote has an entry |
| Blockquotes.EntriesEmpty | CURRENT_VERSION/checks/WCAG_1_3_1/test_blockquote_markup.py:107 | no entries exactly when no blockquote fails a check |
| Blockquotes.NotApplicableWithoutBlockquotes | CURRENT_VERSION/checks/WCAG_1_3_1/test_blockquote_markup.py:82-87 | Not Applicable exactly when no blockquote exists, with no details and confidence 100, under both scorings |
| Blockquotes.BlockquoteStatus | CURRENT_VERSION/checks/WCAG_1_3_1/test_blockquote_markup.py:118-124 | Malformed exactly when some blockquote fails, Passed exactly when none does, and then confidence 100 |
| Blockquotes.EntryScore | CURRENT_VERSION/checks/WCAG_1_3_1/test_blockquote_markup.py:104-113 | every entry's score is 60, 75 or 80 |
| Blockquotes.EntriesScore | CURRENT_VERSION/checks/WCAG_1_3_1/test_blockquote_markup.py:104-113 | every entry's score lies in [60, 80] |
| Blockquotes.BlockquoteScore | CURRENT_VERSION/checks/WCAG_1_3_1/test_blockquote_markup.py:118-124 | on a Malformed result the mean confidence lies in [60, 80] |
| Blockquotes.AsWrittenRaisesOnEveryIssue | CURRENT_VERSION/checks/WCAG_1_3_1/test_blockquote_markup.py:67-105 | as written, the run succeeds exactly when the intended result is not Malformed, and then agrees with it; otherwise it raises AttributeError |
| Blockquotes.BareBlockquoteRaises | CURRENT_VERSION/checks/WCAG_1_3_1/test_blockquote_markup.py:67-105 | a lone empty `<blockquote>` raises AttributeError as written and is Malformed as intended |
| Blockquotes.ReportAsWritten | CURRENT_VERSION/checks/WCAG_1_3_1/test_blockquote_markup.py:79-124 | as written, the run raises AttributeError exactly when some blockquote fails a check; otherwise it reports no details, confidence 100 and a status other than Malformed |
| Landmarks.CheckEmpty | CURRENT_VERSION/checks/WCAG_1_3_1/test_landmark_markup.py:101-105 | a message exactly when the stripped text is empty |
| Landmarks.KindOf | CURRENT_VERSION/checks/WCAG_1_3_1/test_landmark_markup.py:114-136 | each case of the `match` is chosen exactly for its tag |
| Landmarks.CheckForm | CURRENT_VERSION/checks/WCAG_1_3_1/test_landmark_markup.py:129-134 | the inputs message exactly when no input, textarea or select exists; the labels message exactly when inputs exist, no `label` exists and no input has a truthy `aria-label` |
| Landmarks.CheckContent | CURRENT_VERSION/checks/WCAG_1_3_1/test_landmark_markup.py:108-136 | never the empty message; None for a tag with no case |
| Landmarks.CheckContentExactly | CURRENT_VERSION/checks/WCAG_1_3_1/test_landmark_markup.py:114-136 | each message exactly when its tag and guard hold, for nav, main, header, footer, aside, section, article and form |
| Landmarks.LandmarkIssuesExactly | CURRENT_VERSION/checks/WCAG_1_3_1/test_landmark_markup.py:72-76 | the empty message is present exactly on empty text, the content message exactly when `check_landmark_content` returns it, the empty one first |
| Landmarks.Penalty | CURRENT_VERSION/checks/WCAG_1_3_1/test_landmark_markup.py:142-146 | a message costs 0, 10 or 20 points |
| Landmarks.MessagePenalty | CURRENT_VERSION/checks/WCAG_1_3_1/test_landmark_markup.py:101-146 | each message costs its weight: empty 20; nav, main, footer and article 10; the others nothing |
| Landmarks.TotalPenaltyBounds | CURRENT_VERSION/checks/WCAG_1_3_1/test_landmark_markup.py:142-146 | n messages cost between 0 and 20n points |
| Landmarks.BaselineBounds | CURRENT_VERSION/checks/WCAG_1_3_1/test_landmark_markup.py:141-146 | with at most two messages, 95 less the penalties lies in [55, 95] |
| Landmarks.ConfidenceBounds | CURRENT_VERSION/checks/WCAG_1_3_1/test_landmark_markup.py:139-149 | the score lies in [0, 95]; it is positive when fewer issues than landmarks, 0 when at least as many |
| Landmarks.PairPenalty | CURRENT_VERSION/checks/WCAG_1_3_1/test_landmark_markup.py:139-146 | the kept messages of the two checks cost the sum of their weights |
| Landmarks.IssuesBaseline | CURRENT_VERSION/checks/WCAG_1_3_1/test_landmark_markup.py:139-146 | a landmark's baseline is 95, less 20 if empty, less the content message's weight |
| Landmarks.CalculateLandmarkConfidence | CURRENT_VERSION/checks/WCAG_1_3_1/test_landmark_markup.py:139-149 | the loop over the messages computes `Confidence` |
| Landmarks.LandmarkEntry | CURRENT_VERSION/checks/WCAG_1_3_1/test_landmark_markup.py:79-86 | an entry exactly when some check fails, with the index, tag, serialisation, the failing checks' messages and their score |
| Landmarks.TestLandmarkMarkup | CURRENT_VERSION/checks/WCAG_1_3_1/test_landmark_markup.py:56-98 | the loop's result equals the functional report `Report` |
| Landmarks.EntryAt | CURRENT_VERSION/checks/WCAG_1_3_1/test_landmark_markup.py:67-86 | the j-th entry comes from the j-th failing landmark and describes it |
| Landmarks.EntriesSound | CURRENT_VERSION/checks/WCAG_1_3_1/test_landmark_markup.py:67-86 | each entry describes a failing landmark; entries are in document order |
| Landmarks.EntriesComplete | CURRENT_VERSION/checks/WCAG_1_3_1/test_landmark_markup.py:67-86 | every failing landmark has an entry |
| Landmarks.EntriesEmpty | CURRENT_VERSION/checks/WCAG_1_3_1/test_landmark_markup.py:79 | no entries exactly when no landmark fails a check |
| Landmarks.NotApplicableWithoutLandmarks | CURRENT_VERSION/checks/WCAG_1_3_1/test_landmark_markup.py:59-64 | Not Applicable exactly when none of the nine landmark tags exists, with no details and confidence 100 |
| Landmarks.LandmarkStatus | CURRENT_VERSION/checks/WCAG_1_3_1/test_landmark_markup.py:88-98 | Malformed exactly when some landmark fails, Passed exactly when none does, and then confidence 100 |
| Landmarks.EntryScore | CURRENT_VERSION/checks/WCAG_1_3_1/test_landmark_markup.py:139-149 | an entry holds one or two messages; its score lies in [0, 95], is positive exactly when it has fewer messages than there are landmarks, and equals the discounted baseline of `IssuesBaseline` |
| Landmarks.EntriesScore | CURRENT_VERSION/checks/WCAG_1_3_1/test_landmark_markup.py:77-85 | every entry's score lies in [0, 95] |
| Landmarks.LandmarkScore | CURRENT_VERSION/checks/WCAG_1_3_1/test_landmark_markup.py:88-98 | every detail's score and the mean lie in [0, 95] |
| Landmarks.LoneLandmarkScoresZero | CURRENT_VERSION/checks/WCAG_1_3_1/test_landmark_markup.py:139-149 | a document whose only landmark fails scores 0, since `1 - 1/1` is 0 |
| Structural.ValidateEmpty | CURRENT_VERSION/checks/WCAG_1_3_1/test_structural_markup.py:64-68 | a message exactly when the stripped text is empty and there is no child element |
| Structural.ValidatePurpose | CURRENT_VERSION/checks/WCAG_1_3_1/test_structural_markup.py:70-78 | the section, article and div messages exactly for their tag under 10, 50 and 5 words |
| Structural.ValidateRole | CURRENT_VERSION/checks/WCAG_1_3_1/test_structural_markup.py:80-84 | a message exactly for a div or section whose `role` is falsy |
| Structural.StructuralIssuesExactly | CURRENT_VERSION/checks/WCAG_1_3_1/test_structural_markup.py:111-119 | each message is present exactly when its check fails |
| Structural.StructuralIssuesOrdered | CURRENT_VERSION/checks/WCAG_1_3_1/test_structural_markup.py:111-119 | the messages come in the order empty, purpose, role |
| Structural.ArticleHasNoRoleIssue | CURRENT_VERSION/checks/WCAG_1_3_1/test_structural_markup.py:80-84 | an article never gets the role message, so it has at most two |
| Structural.StructuralConfidence | CURRENT_VERSION/checks/WCAG_1_3_1/test_structural_markup.py:86-92 | for at most `total` flagged elements the score lies in [50, 100] and is 100 exactly when nothing is flagged |
| Structural.StructuralEntry | CURRENT_VERSION/checks/WCAG_1_3_1/test_structural_markup.py:121-128 | an entry exactly when a check fails, with index, tag, serialisation, messages and placeholder 0 |
| Structural.TestStructuralMarkup | CURRENT_VERSION/checks/WCAG_1_3_1/test_structural_markup.py:94-142 | the loop's result equals the functional report `Report` |
| Structural.AttachConfidence | CURRENT_VERSION/checks/WCAG_1_3_1/test_structural_markup.py:133-135 | the loop stamps the overall confidence on every issue and changes nothing else |
| Structural.EntryAt | CURRENT_VERSION/checks/WCAG_1_3_1/test_structural_markup.py:106-128 | the j-th entry comes from the j-th failing element, with placeholder confidence 0 |
| Structural.EntriesSound | CURRENT_VERSION/checks/WCAG_1_3_1/test_structural_markup.py:106-128 | each entry describes a failing element; entries are in document order |
| Structural.EntriesComplete | CURRENT_VERSION/checks/WCAG_1_3_1/test_structural_markup.py:106-128 | every failing element has an entry |
| Structural.EntriesEmpty | CURRENT_VERSION/checks/WCAG_1_3_1/test_structural_markup.py:121 | no entries exactly when no element fails a check |
| Structural.NotApplicableWithoutElements | CURRENT_VERSION/checks/WCAG_1_3_1/test_structural_markup.py:97-102 | Not Applicable exactly when no article, section or div exists, with no details and confidence 100 |
| Structural.StructuralStatus | CURRENT_VERSION/checks/WCAG_1_3_1/test_structural_markup.py:137-142 | Malformed exactly when some element fails, Passed exactly when none does |
| Structural.StructuralScore | CURRENT_VERSION/checks/WCAG_1_3_1/test_structural_markup.py:130-142 | the overall confidence is the formula on the flagged count, lies in [50, 100] and is 100 exactly on a pass |
| Structural.StampedEverywhere | CURRENT_VERSION/checks/WCAG_1_3_1/test_structural_markup.py:133-135 | every detail carries the overall confidence |
| Forms.ValidateInput | CURRENT_VERSION/checks/WCAG_1_3_1/test_form_markup.py:74-80 | the label message exactly without a `label` ancestor or truthy `aria-label`; the name message exactly when labelled and both stripped `name` and `id` are empty; None exactly otherwise |
| Forms.ValidateAria | CURRENT_VERSION/checks/WCAG_1_3_1/test_form_markup.py:82-86 | a message exactly when both `aria-labelledby` and `aria-describedby` are falsy |
| Forms.ValidateGrouping | CURRENT_VERSION/checks/WCAG_1_3_1/test_form_markup.py:88-92 | a message exactly when no `fieldset` and no `optgroup` descendant exists |
| Forms.InputRecordsSound | CURRENT_VERSION/checks/WCAG_1_3_1/test_form_markup.py:132-141 | each input record names, by 1-based index, a failing input with its serialisation and message; records are in input order |
| Forms.InputRecordsComplete | CURRENT_VERSION/checks/WCAG_1_3_1/test_form_markup.py:132-141 | every failing input has a record |
| Forms.InputRecordsEmpty | CURRENT_VERSION/checks/WCAG_1_3_1/test_form_markup.py:132-141 | no input records exactly when every input passes |
| Forms.FormLevelShape | CURRENT_VERSION/checks/WCAG_1_3_1/test_form_markup.py:144-158 | at most two form-level records with "N/A" input fields; the ARIA one exactly when `validate_aria` fails, the grouping one exactly when grouping fails, ARIA first |
| Forms.FormRecordsShape | CURRENT_VERSION/checks/WCAG_1_3_1/test_form_markup.py:132-158 | a form's records are its input records followed by its form-level records |
| Forms.Penalty | CURRENT_VERSION/checks/WCAG_1_3_1/test_form_markup.py:98-105 | a record costs 0, 10, 15 or 20 points |
| Forms.MessagePenalties | CURRENT_VERSION/checks/WCAG_1_3_1/test_form_markup.py:74-106 | missing label 20, missing name 0, missing ARIA 10, ungrouped 15 |
| Forms.TotalPenaltyBounds | CURRENT_VERSION/checks/WCAG_1_3_1/test_form_markup.py:98-105 | n records cost between 0 and 20n points |
| Forms.ConfidenceBounds | CURRENT_VERSION/checks/WCAG_1_3_1/test_form_markup.py:95-106 | the score lies in [0, 95] and is at least 95 - 20n |
| Forms.InputPenalty | CURRENT_VERSION/checks/WCAG_1_3_1/test_form_markup.py:95-141 | a form's input records cost 20 points per unlabelled input |
| Forms.FormLevelPenalty | CURRENT_VERSION/checks/WCAG_1_3_1/test_form_markup.py:95-158 | the form-level records cost 10 if ARIA fails plus 15 if grouping fails |
| Forms.FormConfidence | CURRENT_VERSION/checks/WCAG_1_3_1/test_form_markup.py:95-161 | a form scores `max(95 - 20 * unlabelled - 10 * [no ARIA] - 15 * [ungrouped], 0)` |
| Forms.CalculateConfidence | CURRENT_VERSION/checks/WCAG_1_3_1/test_form_markup.py:95-106 | the loop over the records computes `Confidence` |
| Forms.FormEntry | CURRENT_VERSION/checks/WCAG_1_3_1/test_form_markup.py:163-168 | an entry exactly when the form has records, with its 1-based index, those records and their score |
| Forms.FormPasses | CURRENT_VERSION/checks/WCAG_1_3_1/test_form_markup.py:132-163 | a form has no records exactly when every input passes and both form-level checks pass |
| Forms.CheckForm | CURRENT_VERSION/checks/WCAG_1_3_1/test_form_markup.py:122-161 | one iteration of the outer loop builds the form's records and score |
| Forms.TestFormMarkup | CURRENT_VERSION/checks/WCAG_1_3_1/test_form_markup.py:109-179 | the loop's result equals the functional report `Report` |
| Forms.EntryAt | CURRENT_VERSION/checks/WCAG_1_3_1/test_form_markup.py:121-168 | the j-th entry comes from the j-th form with records and describes it |
| Forms.EntriesSound | CURRENT_VERSION/checks/WCAG_1_3_1/test_form_markup.py:121-168 | each entry describes a form with records; entries are in document order |
| Forms.EntriesComplete | CURRENT_VERSION/checks/WCAG_1_3_1/test_form_markup.py:121-168 | every form with records has an entry |
| Forms.EntriesEmpty | CURRENT_VERSION/checks/WCAG_1_3_1/test_form_markup.py:163 | no entries exactly when no form has records |
| Forms.NotApplicableWithoutForms | CURRENT_VERSION/checks/WCAG_1_3_1/test_form_markup.py:112-117 | Not Applicable exactly when no form exists, with no details and confidence 100 |
| Forms.FormStatus | CURRENT_VERSION/checks/WCAG_1_3_1/test_form_markup.py:173-179 | Malformed exactly when some form has records, Passed exactly when none does, and then confidence 100 |
| Forms.EntryScore | CURRENT_VERSION/checks/WCAG_1_3_1/test_form_markup.py:160-168 | every entry's score lies in [0, 95] |
| Forms.EntriesScore | CURRENT_VERSION/checks/WCAG_1_3_1/test_form_markup.py:160-168 | every entry's score lies in [0, 95] |
| Forms.FormScore | CURRENT_VERSION/checks/WCAG_1_3_1/test_form_markup.py:173-179 | on a Malformed result every detail's score and the mean lie in [0, 95] |
| Headings.Level | CURRENT_VERSION/checks/WCAG_1_3_1/test_heading_markup.py:59-67 | a semantic heading's level is the digit of its tag `h1`-`h6`, so between 1 and 6; an ARIA heading's level is `int(aria-level)`, None when that raises |
| Headings.InvalidLevel | CURRENT_VERSION/checks/WCAG_1_3_1/test_heading_markup.py:74 | `invalid_aria_level` raises exactly when the aria-level passes `isdigit` but `int()` rejects it; otherwise it is true exactly for an ARIA heading whose level is not digits or not in 1..6 |
| Headings.InvalidLevelRaises | CURRENT_VERSION/checks/WCAG_1_3_1/test_heading_markup.py:62-74 | for a digit string, `int()` fails exactly when some character has no decimal value |
| Headings.SuperscriptLevelExample | CURRENT_VERSION/checks/WCAG_1_3_1/test_heading_markup.py:70-152 | `aria-level="²"` makes the whole check return the Error result |
| Headings.FirstMatch | CURRENT_VERSION/checks/WCAG_1_3_1/test_heading_markup.py:70-126 | the rule chosen matches the facts and no earlier case does; None exactly when no case matches |
| Headings.RuleDetail | CURRENT_VERSION/checks/WCAG_1_3_1/test_heading_markup.py:33-126 | the detail records the heading's line, tag and text, with the message and issue code of its case: the repetition, missing-level, quoted invalid-level, empty-ARIA, skipped-level (previous and current level) or first-heading message |
| Headings.Step | CURRENT_VERSION/checks/WCAG_1_3_1/test_heading_markup.py:45-133 | a non-heading changes nothing; a heading adds at most one detail at the end, adds its text to the seen set and updates the previous level when the current one is truthy |
| Headings.SemanticHeadingStep | CURRENT_VERSION/checks/WCAG_1_3_1/test_heading_markup.py:70-133 | a new h1-h6 gets the skip detail when it jumps more than one level, else the first-heading detail when it opens with a level other than 1, else nothing |
| Headings.MessagePenalty | CURRENT_VERSION/checks/WCAG_1_3_1/test_heading_markup.py:159-165 | an issue costs 0, 5, 10 or 15 points |
| Headings.MissingLevelCosts | CURRENT_VERSION/checks/WCAG_1_3_1/test_heading_markup.py:87-163 | the missing aria-level message costs 10 |
| Headings.SkipCosts | CURRENT_VERSION/checks/WCAG_1_3_1/test_heading_markup.py:111-165 | a skipped-level message costs 5, whatever the two levels |
| Headings.RulePenalty | CURRENT_VERSION/checks/WCAG_1_3_1/test_heading_markup.py:79-165 | the missing aria-level rule costs 10, the skip rule 5, the repetitive, empty and first-heading rules nothing, and the invalid-level rule what its quoted text makes it |
| Headings.TotalPenalty | CURRENT_VERSION/checks/WCAG_1_3_1/test_heading_markup.py:159-165 | n issues cost between 0 and 15n points |
| Headings.HeadingConfidenceBounds | CURRENT_VERSION/checks/WCAG_1_3_1/test_heading_markup.py:154-168 | with at most as many issues as candidates, the score lies in [0, 95] |
| Headings.OneSkipAmongTwoScore | CURRENT_VERSION/checks/WCAG_1_3_1/test_heading_markup.py:154-168 | one skipped-level issue among two headings, as in `<h1>x</h1><h3>y</h3>`, scores (95 - 5) / 2 = 45 |
| Headings.CalculateHeadingConfidence | CURRENT_VERSION/checks/WCAG_1_3_1/test_heading_markup.py:154-168 | the loop over the issues computes `HeadingConfidence` |
| Headings.FailureEscapes | CURRENT_VERSION/checks/WCAG_1_3_1/test_heading_markup.py:17-152 | an exception on one candidate ends the whole scan |
| Headings.CheckHeadingMarkup | CURRENT_VERSION/checks/WCAG_1_3_1/test_heading_markup.py:13-152 | the loop's result equals the functional report `HeadingReport` |
| Headings.NotApplicableWithoutCandidates | CURRENT_VERSION/checks/WCAG_1_3_1/test_heading_markup.py:19-28 | Not Applicable exactly when no h1-h6, div or span exists, with no details, confidence 100 and count 0 |
| Headings.AtMostOneIssueEach | CURRENT_VERSION/checks/WCAG_1_3_1/test_heading_markup.py:70-126 | a scan files at most one issue per candidate |
| Headings.ReportShape | CURRENT_VERSION/checks/WCAG_1_3_1/test_heading_markup.py:136-152 | the issue count is the number of details; Malformed exactly with details, confidence in [0, 95]; the Error result has confidence 50 and the one generic detail |
| Headings.StepFiling | CURRENT_VERSION/checks/WCAG_1_3_1/test_heading_markup.py:45-133 | a step that does not raise appends exactly the candidate's filing, that is the detail of the first `case` that matches it, or nothing |
| Headings.StatesAt | CURRENT_VERSION/checks/WCAG_1_3_1/test_heading_markup.py:43-133 | the state recorded before candidate i is the one the loop reaches over the candidates before it |
| Headings.ScanIssues | CURRENT_VERSION/checks/WCAG_1_3_1/test_heading_markup.py:45-133 | the issues of a finished scan are the candidates' filings kept in candidate order |
| Headings.IssuesSound | CURRENT_VERSION/checks/WCAG_1_3_1/test_heading_markup.py:45-133 | every issue is filed by a heading, as the first matching rule's detail in the state before it, and the issues follow candidate order |
| Headings.IssuesComplete | CURRENT_VERSION/checks/WCAG_1_3_1/test_heading_markup.py:45-133 | every heading that a rule matches, in the state before it, files exactly its detail |
| Headings.ScanFilesIssue | CURRENT_VERSION/checks/WCAG_1_3_1/test_heading_markup.py:45-139 | a finished scan has issues exactly when some candidate files one |
| Headings.HeadingStatus | CURRENT_VERSION/checks/WCAG_1_3_1/test_heading_markup.py:136-145 | a finished run is Malformed exactly when some heading files an issue, and Passed exactly when none does |
| Grouping.GroupShape | CURRENT_VERSION/single_url_main.py:100-122 | TypeError exactly when some key is unhashable; otherwise one dictionary per distinct key, in order of first occurrence, each the first dictionary with that key plus its "Count" |
| Grouping.GroupCounts | CURRENT_VERSION/single_url_main.py:112-122 | every dictionary's key is among the keys, the keys are distinct, and the counts add up to the number of dictionaries |
| Grouping.KeysIff | CURRENT_VERSION/single_url_main.py:112-115 | a key is a group key exactly when some dictionary carries it |
| Grouping.GroupEmpty | CURRENT_VERSION/single_url_main.py:108-109 | an empty list groups to an empty list |
| Grouping.GroupIssuesLoop | CURRENT_VERSION/single_url_main.py:98-122 | the loop over the `defaultdict` and the comprehension equal the functional `GroupIssues` |
| FolderNames.TestFolderName | CURRENT_VERSION/single_url_main.py:160 | each space becomes an underscore and nothing else changes |
| FolderNames.UrlFolderName | CURRENT_VERSION/single_url_main.py:246 | the name holds no slash, is no longer than the URL, and is made of its characters and underscores |
| FolderNames.HttpDropped | CURRENT_VERSION/single_url_main.py:246 | a leading "http://" does not affect the name |
| FolderNames.HttpsDropped | CURRENT_VERSION/single_url_main.py:246 | a leading "https://" does not affect the name |
| FolderNames.HttpsKept | CURRENT_VERSION/single_url_main.py:246 | removing "http://" leaves a leading "https://" in place |
| Dom.FindAllEmpty | CURRENT_VERSION/checks/WCAG_1_3_1/test_list_markup.py:82-87 | `find_all` finds nothing exactly when no element with one of the tags exists |
| Dom.GetText | CURRENT_VERSION/checks/WCAG_1_3_1/test_heading_markup.py:48 | `get_text(strip=True)` is already stripped |
| PyStr.Strip | CURRENT_VERSION/checks/WCAG_1_3_1/test_landmark_markup.py:103 | `strip` is empty exactly on all-space input, otherwise starts and ends with a non-space, and leaves a stripped string unchanged |
| PyStr.WordCount | CURRENT_VERSION/checks/WCAG_1_3_1/test_structural_markup.py:72 | `len(split())` is at most the length and 0 exactly on all-space input |
| PyStr.Lower | CURRENT_VERSION/checks/WCAG_1_3_1/test_landmark_markup.py:143 | `lower` keeps the length, maps each character, and leaves no ASCII capital |
| PyStr.Replace | CURRENT_VERSION/single_url_main.py:246 | `replace` introduces only characters of the input and the replacement; with one-character arguments it maps each character |
| PyStr.ParseIntOfDigits | CURRENT_VERSION/checks/WCAG_1_3_1/test_heading_markup.py:62-74 | on an `isdigit` string, `int()` succeeds exactly when every character has a decimal value, and then gives its value |
| PyStr.IntToStringRoundTrip | CURRENT_VERSION/checks/WCAG_1_3_1/test_heading_markup.py:111-118 | `int(str(i)) == i` |
| Verdict.KeptExactly | CURRENT_VERSION/checks/WCAG_1_3_1/test_table_markup.py:109-126 | the kept entries are exactly the present options, in order, at increasing positions |
| Verdict.MeanBounds | CURRENT_VERSION/checks/WCAG_1_3_1/test_form_markup.py:174-177 | a mean of scores lies within their bounds |
| Verdict.DiscountedBounds | CURRENT_VERSION/checks/WCAG_1_3_1/test_landmark_markup.py:147-149 | `max(b * (1 - k/n), 0)` lies in [0, hi] for k at most n |
| Verdict.ShareScore | CURRENT_VERSION/checks/WCAG_1_3_1/test_list_markup.py:69-76 | `max(base - 50 * k/n, 0)` is non-negative, within 50 of `base`, and equal to `base` exactly when k is 0 |

## Left out

- The HTML parser is not modelled. A document is given as an already parsed
  tree, and every element carries its source line as an optional number.
- `str(tag)` is the parameter `serialize`. The checks for "href" and "h1" in
  the serialisation are modelled on whatever string it returns.
- The writers, the logging, the CSV, JSON and Excel output, the Playwright
  fetch, the thread pool and timeouts in the driver, the results directory
  and `os.path.join` are not modelled. They are I/O glue around the core.
- Floating point is modelled as exact real arithmetic.
- Python's `lower` and `isdigit` are not modelled over all of Unicode:
  - `lower` covers ASCII capitals and the Kelvin sign U+212A, which lowers
    to `k`. U+0130 is kept as it is: Python lowers it to two characters,
    which cannot complete any phrase the validators look for;
  - `isdigit` and `int()` use a subset of the Unicode digit tables, which is
    enough to show that the two disagree.
- `isspace` uses Python's list of whitespace characters.
- `group_issues` works on dictionaries from field names to a small value type
  (text, number, list, missing). Hashability is a predicate on that type; no
  other Python value is modelled.
- Headings.RulePenalty: the invalid aria-level rule's cost is not given as a
  number. It depends on the quoted user text. The model states it as the
  penalty of that message, proves it is 0, 5, 10 or 15, and proves it is 0 for
  the other five rules. The 15-point "multiple <h1>" branch is reachable only
  through such a quoted text.
- Blockquotes.TestBlockquoteMarkup: models the evidently intended scoring of
  the `{"issue": message}` records. The code as written raises AttributeError;
  see Findings and `Blockquotes.ReportAsWritten`.
- The `total_checks` parameters of the blockquote and form scoring are not
  modelled, because the code never reads them.

## Findings

| source | as written | input that shows it | evidently intended | confidence | as-written member | corrected member |
|---|---|---|---|---|---|---|
| CURRENT_VERSION/checks/WCAG_1_3_1/test_blockquote_markup.py:67-76 | `calculate_confidence` calls `issue.get('issue', '')` on each entry, but line 105 passes it the plain message strings. Any blockquote with an issue raises AttributeError, and nothing in `test_blockquote_markup` catches it. | `<blockquote></blockquote>`: no `cite`, no `footer` and no ARIA attribute | score the `{"issue": message}` records, as the form validator does: 95 less 20 for a missing source and 15 for missing ARIA; then the run is Malformed with confidence 60 | not executed | Blockquotes.AsWrittenRaisesOnEveryIssue | Blockquotes.TestBlockquoteMarkup |
