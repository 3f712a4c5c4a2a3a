# Career skills intelligence platform: model of the scoring and report core

The platform is a Streamlit application in which a manager or an HR officer
enters an employee profile. The application does three things:

- It parses the comma-separated skills field.
- It scores the employee with a role-aware rule. The role title is put in a
  category (HR, DATA or GENERIC), and the skills are matched against that
  category's keyword list. From the match it derives the career readiness, a
  promotion indicator and a peer percentile.
- It asks a language model for an insight text in a "###"-sectioned format,
  and shows that text. A PDF career report is offered for download only when
  the approval status is "Approved". Only the HR view can set a status other
  than "Draft".

This project models that core in Dafny, in five modules:

- `Text` models the Python string operations the core relies on:
  - `str.strip` with Python's ASCII whitespace;
  - `str.upper` and `str.lower` on ASCII letters;
  - the substring test `in`;
  - `str.split` with a non-empty separator.

  The program never joins strings. `Join` is defined only as the inverse of
  `Split`, for stating round trips. The module proves the laws the other
  modules use: strip is idempotent and is characterised uniquely, split undoes
  a join of pieces in which no separator can start, and a case-mapped search
  is a case-insensitive search.
- `Skills` models the skill-list comprehension. It proves that:
  - parsed skills are stripped, non-empty and comma-free;
  - a comma splits the result in order, keeping repetitions;
  - joining and re-parsing gives the skills back, so parsing is idempotent.
- `Scoring` models the role classifier, the keyword profiles, the skill
  match, readiness, promotion and the peer percentile, with their bounds, case
  insensitivity, priority of the "HR" test and monotonicity.
- `Segmenter` models the section loop of the PDF export. It proves that:
  - every section is well formed, and whitespace-only text gives no section;
  - a preamble before the first "###" is a section of its own;
  - sections laid out as the prompt asks, each under a `### Title` heading
    line with its body lines below, are segmented back into exactly the same
    sections;
  - the reply `### a`, `l1`, a blank line, `### b`, `l2` is the two sections
    (a, [l1]) and (b, [l2]).
- `Approval` models the effective approval status and the download branch of
  the analysis action. It proves that a report is offered exactly when the HR
  view selected "Approved", and that the gate never changes the scores.

Notable behaviours of the code:

- The peer percentile, `max(60, min(95, 65 + (readiness - 60)))`, is the
  readiness plus five, clamped to [60, 95].
- Text without "###" becomes one section titled with its stripped first line.
  A non-blank preamble before the first "###" becomes a section in the same
  way.
- Readiness is at least 60 for a non-negative experience, because the base of
  60 is always added, and at most 92.

The language model's reply is not computed here. It is a parameter (`insights`)
of the analysis.

## Model

| member | source | states |
|---|---|---|
| Text.Trim | app.py:82 | stripping gives the empty string exactly when the text is whitespace-only; otherwise the result neither starts nor ends with whitespace |
| Text.TrimStrips | app.py:82 | the stripped text is the text with a whitespace-only prefix and a whitespace-only suffix removed |
| Text.TrimUnique | app.py:82 | any infix bounded by whitespace-only ends and not itself padded is the strip of the text |
| Text.TrimIdempotent | app.py:82 | stripping twice is stripping once |
| Text.SplitPieces | app.py:82 | no piece of a split contains the separator, and joining the pieces with it restores the text |
| Text.Split | app.py:82 | a split always yields at least one piece; `SplitPieces` and `SplitJoin` state what the pieces are |
| Text.SplitJoin | app.py:260 | splitting a join gives the pieces back when no separator can start inside a piece, even with the separator appended to it |
| Text.SplitAtChar | app.py:82 | splitting at a one-character separator distributes over an occurrence of it |
| Text.Upper | app.py:124 | upper-casing keeps the length and every character's letter, and leaves no ASCII lower-case letter |
| Text.Lower | app.py:134 | lower-casing keeps the length and every character's letter, and leaves no ASCII upper-case letter |
| Text.UpperSearchIgnoresCase | app.py:124-125 | searching the upper-cased text for the upper-cased needle is a case-insensitive search |
| Text.LowerSearchIgnoresCase | app.py:134 | searching the lower-cased text for the lower-cased needle is a case-insensitive search |
| Skills.KeepStripped | app.py:82 | the filter keeps at most as many tokens as it is given, each non-empty and stripped |
| Skills.ParseSkills | app.py:82 | every parsed skill is non-empty, stripped and free of commas |
| Skills.ParseSkillsAtComma | app.py:82 | the skills of `a,b` are the skills of `a` followed by those of `b`, so order and repetitions are kept |
| Skills.ParseSkillsToken | app.py:82 | a comma-free field gives nothing when whitespace-only, and otherwise its stripped text |
| Skills.ParseJoinRoundTrip | app.py:82 | joining skills with commas and parsing gives the same skills back |
| Skills.ParseSkillsIdempotent | app.py:82 | re-joining parsed skills and parsing again changes nothing |
| Skills.ParseSkillsExample | app.py:82 | a field with padding, an empty entry and a repeated skill parses to the skills in order, with the repetition and without the blank |
| Scoring.Keywords | app.py:117-121 | the generic profile is the only empty one, and no keyword is empty |
| Scoring.DetectRoleType | app.py:123-129 | HR exactly when "HR" occurs ignoring case; DATA exactly when it does not but "DATA" or "SCIENTIST" does; GENERIC otherwise |
| Scoring.DetectIgnoresCase | app.py:123-129 | a role title, its upper-cased and its lower-cased forms fall into the same category |
| Scoring.HrTakesPriority | app.py:125-128 | a title mentioning "HR" in any case stays an HR role whatever text surrounds it, including "Data" or "Scientist" |
| Scoring.ExampleSeniorHrManager | app.py:123-126 | "Senior HR Manager" is an HR role |
| Scoring.ExampleChromeDeveloper | app.py:124-126 | "Chrome Developer" is an HR role: the test is a substring test, not a word test |
| Scoring.ExampleDataScientist | app.py:123-128 | "Data Scientist II" is a DATA role |
| Scoring.ExampleSoftwareEngineer | app.py:123-129 | "Software Engineer" is a GENERIC role |
| Scoring.MatchesAnyKeywordIgnoresCase | app.py:134 | a skill matches exactly when some keyword of the profile occurs in it, ignoring case |
| Scoring.CountMatches | app.py:134 | the match count is at most the number of skills, and zero for an empty keyword list |
| Scoring.CountMatchesAppend | app.py:134 | the count over a concatenation of skill lists is the sum of the counts |
| Scoring.SkillMatch | app.py:117-121 | the skill match of a category is at most the number of skills, and zero for the generic category, whose profile is empty |
| Scoring.SkillMatchGrows | app.py:134 | one more declared skill raises the skill match by zero or one |
| Scoring.Readiness | app.py:136 | readiness is at most 92, at most the weighted sum, equal to one of the two, and at least 60 for non-negative inputs |
| Scoring.ReadinessMonotone | app.py:136 | readiness never falls when skill match or experience grows |
| Scoring.Promotion | app.py:137 | promotion is 85% of readiness truncated toward zero: for non-negative readiness, the floor of 0.85 times it, never above it |
| Scoring.PeerPercentile | app.py:144 | the percentile lies in [60, 95] and is readiness plus five wherever that is in range, else the nearer bound |
| Scoring.ComputeScores | app.py:131-138 | for non-negative experience: readiness in [60, 92], promotion in [0, readiness], percentile min(readiness + 5, 95); a generic role gets no skill credit |
| Scoring.ExampleHrManager | app.py:117-138 | an HR Manager with Recruitment and Policy and five years scores readiness 85, promotion 72, percentile 90 |
| Segmenter.FirstLine | app.py:262 | the first line is a line-break-free prefix ending at the first line break or at the end |
| Segmenter.SectionOf | app.py:262-263 | a section's title is the stripped first line of its fragment |
| Segmenter.SectionOfWellFormed | app.py:262-266 | a section has a stripped one-line title and non-blank one-line body lines |
| Segmenter.SectionOfLines | app.py:262-266 | a fragment made of a head line and body lines gives the stripped head as title and the non-blank body lines, unstripped |
| Segmenter.NonBlank | app.py:261 | the `if ….strip()` filter keeps at most as many entries as it is given |
| Segmenter.NonBlankKept | app.py:265 | every kept entry is non-blank |
| Segmenter.NonBlankKeepsAll | app.py:265 | the line filter drops only whitespace-only lines |
| Segmenter.NonBlankAppend | app.py:261 | the blank filter distributes over concatenation |
| Segmenter.Segment | app.py:260-267 | the section loop yields at most one section per "###"-separated fragment; the lemmas below state which sections |
| Segmenter.SegmentWellFormed | app.py:260-267 | every section produced by the section loop is well formed |
| Segmenter.SegmentBlank | app.py:260-261 | whitespace-only insights give no section |
| Segmenter.SegmentWithoutDelimiter | app.py:260-263 | non-blank text without "###" is one section titled with its stripped first line |
| Segmenter.SegmentPreamble | app.py:260-263 | a non-blank preamble before the first "###" is a section of its own, titled with its stripped first line, ahead of the sections after it |
| Segmenter.SectionsOfAppend | app.py:260-267 | the sections of concatenated fragment lists are the concatenated sections |
| Segmenter.SegmentRender | app.py:260-267 | sections laid out as the prompt asks, each under a `### Title` heading line with its body lines below, are segmented back into exactly the same sections |
| Segmenter.SegmentTwoSections | app.py:260-267 | the reply `### a`, `l1`, a blank line, `### b`, `l2` is the two sections (a, [l1]) and (b, [l2]) |
| Approval.EffectiveStatus | app.py:107-112 | the status is the selected one or Draft; it is Approved (or Rejected) exactly when the HR view selected it |
| Approval.ExportReport | app.py:298-308 | a report is offered exactly when the status is Approved; it carries that status, the peer percentile and the segmented insights |
| Approval.Analyse | app.py:285-308 | a report is offered exactly when the HR view selected Approved; scores are those of the parsed skills and stay in their bounds |
| Approval.ReportWellFormed | app.py:260-267 | when the HR view selected Approved, a report is offered and every one of its sections is well formed |
| Approval.ReportKeepsSections | app.py:298-299 | an approved reply laid out under `### Title` headings reaches the report with its sections unchanged |

## Left out

- The Streamlit user interface: page layout, metrics, charts and widgets. The
  view mode, selected status and form fields are parameters.
- The CSV upload and the pandas lookup of the employee row. The form fields
  are taken as already read.
- The language-model call (`agent.py`) and the prompt f-string. The reply is a
  parameter.
- PDF layout by reportlab: styles, the cover table's other cells, spacers, page
  breaks, the readiness plot and the temporary file. The report keeps only the
  cells the core computes: the status, the peer percentile and the sections.
- The download button, the file name and the warning text. The refused branch
  is `Refused`.
- Text.Trim: models only ASCII whitespace. Python's `str.strip` also removes
  Unicode whitespace, such as U+00A0 and U+2028.
- Text.UpperSearchIgnoresCase: models case mapping only on ASCII letters.
  Python's `str.upper` and `str.lower` also map non-ASCII letters, and some to
  several characters.
- Scoring.DetectRoleType: classifies with ASCII case mapping only. Python
  upper-cases "scıentist" (dotless i) to "SCIENTIST" and so calls that title
  DATA, where the model calls it GENERIC.
- Scoring.MatchesAnyKeyword: lower-cases ASCII letters only. A skill whose
  non-ASCII letters Python lower-cases onto a keyword matches in the source
  and not in the model.
- Scoring.Promotion: computes `int(readiness * 0.85)` in exact arithmetic, as
  85 hundredths truncated toward zero. For the readiness values the program
  produces (60 to 92), the double-precision product rounds to the exact value
  whenever that value is a whole number, so the two agree. Inputs far outside
  that range are not covered by this argument.
- Scoring.ComputeScores: takes experience as an unbounded integer. The form
  limits it to 0-40, but a CSV row can hold any integer.
- Self-assessment selectors and certifications: they feed only the prompt.
