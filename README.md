# ResearchAI report formatter, in Dafny

ResearchAI is a single-page Streamlit app. It asks a LangChain research agent
for a report on a topic at a chosen depth, shows the report, and exports it
as a PDF. This project models the app's deterministic text handling in
`app.py`:

- **`_strip_markdown`**: the regex substitution that replaces every lazy
  `**X**` span by `X` (module `Markdown`, function `StripMarkdown`).
- **The line loop of `create_pdf`**: it strips each report line and sorts it
  into a spacing, a heading, a label block, a bullet or a paragraph (module
  `Formatter`: `ClassifyLine`, the method `FormatLine`, the method
  `CreatePdf`).
- **The text shaping of the `_write_*` helpers**: the `- ` bullet prefix,
  the four-space body indent, and which texts are markdown-stripped. Each
  layout command carries the text exactly as it would be drawn.
- **`get_level_description`** (module `Agent`, `LevelDescription`).
- **`_extract_text`**: the fallback that recovers the report from the
  agent's message history (module `Agent`, method `ExtractText`).

Supporting modules:

- `Text` models Python's `str.strip()` and `lstrip(chars)`. Whitespace is
  exactly the set of characters for which `str.isspace()` holds.
- `Wrappers` holds `Option`.
- `Scenarios` works through concrete lines.

The regular expressions are modelled by their meaning, not by a regex engine:

- `.` matches any character except `\n`.
- The lazy `\*\*(.+?)\*\*` takes the first closing `**` after at least one
  character (`Markdown.LazyClose`).
- The full match `\*\*(.+)\*\*` needs at least five characters, `**` at both
  ends and no newline (`Markdown.IsHeadingForm`).
- In `\*\*(.+?)\*\*(.*)$`, the `$` also accepts a final `\n`. The model proves
  that backtracking past the first closing `**` can never help
  (`Markdown.NoLaterSplit`), so the match is the one `LabelMatch` returns.

Three consequences of the code that are easy to miss:

- **Label colon.** The line `**Label:** body text` gives the label `Label::`.
  The code adds `:` whenever there is a body (app.py:315), also after a label
  that already ends in a colon (`Scenarios.LabelWithColonInside`).
- **Bullet text.** A bullet command carries the drawn text: `- item` gives
  `- item` (app.py:269), because each command holds the text as drawn.
- **Bold bullet lines.** `**Label**` is a heading, but `- **Label**` is a
  label block with no body (`Formatter.BulletBoldIsLabel`). The heading
  test is skipped on bullet lines (app.py:307).

## Model

| member | source | states |
|---|---|---|
| Text.TrimLeftShape | app.py:314 | `lstrip(cs)` removes a prefix made only of `cs` and returns a suffix of the input that, when non-empty, does not start with a character of `cs` |
| Text.TrimRightShape | app.py:295 | the right half of `strip()` removes a suffix made only of whitespace; what is left is a prefix of the input that, when non-empty, does not end in whitespace |
| Text.StripShape | app.py:295-297 | `strip()` is empty exactly when every character is whitespace; otherwise the result neither starts nor ends with whitespace |
| Text.StripFixed | app.py:295 | a string with no whitespace at either end is returned unchanged by `strip()` |
| Markdown.CloseFrom | app.py:247 | scanning from a position, it finds the first closing `**` reachable without crossing a newline, or reports that there is none |
| Markdown.LazyClose | app.py:247 | `.+?` ends at the least valid closing `**` after the opening marker; it finds none exactly when no closing `**` exists |
| Markdown.StripMarkdownSpan | app.py:247-251 | a bold span at the front is replaced by its inner text, and the substitution resumes after the closing marker |
| Markdown.StripMarkdownLiteral | app.py:247-251 | where no match starts, the character is kept and the scan moves on by one |
| Markdown.StripMarkdownPlain | app.py:247-251 | text with no `**` in it is returned unchanged |
| Markdown.StripMarkdownRemovesMarkers | app.py:247-251 | the output equals the input once every `*` is deleted from both; it is never longer, and shorter by a multiple of four (two markers per replacement) |
| Markdown.StripMarkdownNonEmpty | app.py:247-251 | non-empty text never strips to the empty string |
| Markdown.NoLaterSplit | app.py:311 | if `(.*)$` fails after the first closing `**`, no later closing `**` gives a match either |
| Markdown.LabelMatch | app.py:311 | the match of `\*\*(.+?)\*\*(.*)$` is the least valid split; there is no match exactly when no split exists |
| Markdown.LabelMatchFirst | app.py:311 | any least valid split is the one the match returns |
| Formatter.FormatLines | app.py:294-322 | one command per report line |
| Formatter.FormatLinesAt | app.py:294-322 | the i-th command is the classification of the i-th line, in input order |
| Formatter.FormatLine | app.py:295-322 | the loop body, with `stripped` and `bullet` reassigned as in the source, computes the line's classification |
| Formatter.CreatePdf | app.py:284-324 | the title command first, then one command per line, each the classification of that line, in order |
| Formatter.ClassifyBlank | app.py:295-299 | a line becomes spacing exactly when it is all whitespace; no line becomes a title |
| Formatter.ClassifyPrecedence | app.py:295-322 | each command kind holds exactly when its test passes and every earlier test fails (blank, full bold wrap on a non-bullet line, label pattern, bullet, paragraph); a text command is drawn as a bullet exactly when the line has a bullet marker |
| Formatter.BulletRest | app.py:301-304 | after `- ` or `* ` is taken off a stripped line, the rest is non-empty and starts with a non-space character |
| Formatter.ClassifyHeadingText | app.py:306-309 | a heading carries the stripped inner text of the full wrap, without markdown stripping (`_write_heading`, app.py:254-258) |
| Formatter.ClassifyLabelText | app.py:311-316 | with the first label split: the label is the stripped bold span, with `:` added exactly when a body exists and `- ` before it on a bullet line. The body is the rest with leading spaces and colons and the surrounding whitespace removed, then markdown-stripped, and indented by four spaces on a bullet line. `_write_label_block` (app.py:273-281) draws it that way |
| Formatter.ClassifyPlainText | app.py:319-322 | text that matches no bold pattern is markdown-stripped; a bullet line gets the `- ` prefix (`_write_bullet`, `_write_paragraph`, app.py:261-270) |
| Formatter.BulletBoldIsLabel | app.py:306-316 | a bullet line whose text is a full bold wrap is a bullet label block, never a heading; with no inner `**` it has the stripped inner text as label and no body |
| Formatter.NonBlankCount | app.py:294-299 | the number of text commands equals the number of non-blank lines |
| Formatter.AllBlankIsSpacing | app.py:294-299 | a report made only of blank lines gives only spacing commands |
| Agent.LevelDescription | app.py:206-221 | "Beginner" and "Intermediate" each get their own text, and every other level, not just "Advanced", gets the advanced text (each an if-and-only-if) |
| Agent.DictTexts | app.py:395-396 | the list of texts is empty exactly when no list element is a dictionary; it is no longer than the list, holds the text (or "") of every dictionary element, and holds nothing else |
| Agent.DictTextsOrder | app.py:395-397 | the list has one text per dictionary element, in list order: the dictionary at index i gives the text at the position equal to the number of dictionaries before i, which is the order `"".join` concatenates |
| Agent.DictCount | app.py:395 | no contract of its own; the number of dictionary elements, used by Agent.DictTextsOrder |
| Agent.ExtractText | app.py:389-398 | scanning from the last message, the result is the text of the last message whose content is a string, or a list with at least one dictionary (its texts joined); it is "" when no message qualifies |
| Text.TrimLeft | app.py:314 | no contract of its own; `lstrip(cs)`, described by Text.TrimLeftShape |
| Text.TrimRight | app.py:295 | no contract of its own; the right half of `strip()`, described by Text.TrimRightShape |
| Text.Strip | app.py:295 | no contract of its own; `strip()`, described by Text.StripShape and Text.StripFixed |
| Markdown.IsHeadingForm | app.py:306 | no contract of its own; `re.fullmatch(r"\*\*(.+)\*\*", s)` succeeds, used by Formatter.ClassifyPrecedence and Formatter.ClassifyHeadingText |
| Markdown.IsClose | app.py:247 | no contract of its own; a closing `**` of `(.+?)\*\*` after a newline-free group, the relation Markdown.LazyClose and Markdown.CloseFrom are stated in |
| Markdown.EndOk | app.py:311 | no contract of its own; `(.*)$` matches the rest (no newline, or only a final one), used by Markdown.NoLaterSplit |
| Markdown.EndGroup | app.py:311-314 | no contract of its own; group 2 of the label match (the rest without a final newline), described by Formatter.ClassifyLabelText |
| Markdown.IsLabelSplit | app.py:311 | no contract of its own; `\*\*(.+?)\*\*(.*)$` matches with its first group ending at k, the relation Markdown.LabelMatch and Markdown.NoLaterSplit are stated in |
| Markdown.HeadingText | app.py:306-308 | no contract of its own; group 1 of the full match, described by Formatter.ClassifyHeadingText |
| Markdown.StripMarkdown | app.py:250-251 | no contract of its own; `_strip_markdown`, described by Markdown.StripMarkdownSpan, StripMarkdownLiteral, StripMarkdownPlain, StripMarkdownRemovesMarkers and StripMarkdownNonEmpty |
| Formatter.IsBulletMarker | app.py:302 | no contract of its own; the `- ` / `* ` prefix test, used by Formatter.ClassifyPrecedence and Formatter.BulletRest |
| Formatter.Unbulleted | app.py:302-304 | no contract of its own; `stripped[2:].strip()` on a bullet line, described by Formatter.BulletRest |
| Formatter.WriteHeading | app.py:254-258 | no contract of its own; the heading text as drawn, described by Formatter.ClassifyHeadingText |
| Formatter.WriteParagraph | app.py:261-264 | no contract of its own; the paragraph text as drawn, described by Formatter.ClassifyPlainText |
| Formatter.WriteBullet | app.py:267-270 | no contract of its own; the bullet text as drawn, described by Formatter.ClassifyPlainText |
| Formatter.WriteLabelBlock | app.py:273-281 | no contract of its own; the label and body as drawn, described by Formatter.ClassifyLabelText |
| Formatter.LabelBody | app.py:314 | no contract of its own; `group(2).lstrip(" :").strip() or None`, described by Formatter.ClassifyLabelText |
| Formatter.ClassifyText | app.py:301-322 | no contract of its own; the pattern tests after the bullet marker, described by Formatter.ClassifyPrecedence, ClassifyHeadingText, ClassifyLabelText and ClassifyPlainText |
| Formatter.ClassifyLine | app.py:295-322 | no contract of its own; one iteration of the line loop, the reference for Formatter.FormatLine and described by the Formatter.Classify* lemmas |
| Agent.Usable | app.py:391-396 | no contract of its own; the content at which the scan stops, used in Agent.ExtractText's contract |
| Agent.UsableText | app.py:392-397 | no contract of its own; the text returned for that content, used in Agent.ExtractText's contract |
| Agent.Join | app.py:397 | no contract of its own; `"".join(parts)` |
| Scenarios.BlankLine | app.py:295-299 | `""` and `" \t "` give spacing |
| Scenarios.FullWrapIsHeading | app.py:306-309 | `**Title**` gives the heading `Title` |
| Scenarios.HeadingKeepsInnerMarkers | app.py:306-309 | `**a** and **b**` gives the heading `a** and **b` (greedy wrap, no markdown stripping) |
| Scenarios.LabelSplitOfExample | app.py:311 | the label pattern splits `**Label:** body text` after `Label:` |
| Scenarios.LabelPartsOfExample | app.py:313-314 | the example's label is `Label:` and its body is `body text` |
| Scenarios.LabelWithColonInside | app.py:311-316 | `**Label:** body text` gives the label `Label::` and the body `body text` |
| Scenarios.BulletWrapIsLabel | app.py:301-316 | `- **Note**` gives the bullet label block `- Note` with no body |
| Scenarios.PlainBullet | app.py:301-304 | `- item` gives the bullet `- item` |
| Scenarios.OneMarkerOnly | app.py:301-304 | `- - x` takes off one marker and gives the bullet `- - x` |
| Scenarios.UnclosedMarker | app.py:247-251 | `a **b` has no closing marker and is left as it is |

## Left out

- The Streamlit UI, session state and caching: they are presentation, not logic.
- FPDF rendering is left out: fonts, sizes, line heights, `ln` spacing amounts,
  page breaks and geometry. The model stops at the sequence of layout
  commands with their drawn text.
- The final `encode("latin-1")` of the PDF output is left out. It raises on
  characters outside Latin-1, and that error path is not modelled.
- `str.splitlines()` is left out: `CreatePdf` takes the report as a sequence
  of lines. The default title `"AI_Report"` is an ordinary parameter.
- The LLM and tool setup (`get_llm`, `get_tools`, `get_agent`) and
  `generate_report` are not modelled. They are calls into external LangChain
  and Groq services. Only their pure helper `_extract_text` is modelled.
- `.env` and environment loading are left out: they are configuration I/O.
- Agent.DictTexts: a dictionary whose `"text"` entry is not a string (which
  makes `"".join` raise) is not modelled; a dictionary's text is a string
  or absent.
- Agent.ExtractText: a message without a `content` attribute and one whose
  content is `None` are both the same `NoContent` case. Content is a string,
  a list, or out of scope (`OtherContent`).
- Strings are sequences of Unicode scalar values. There is no normalisation
  and no surrogate handling.
