# Resume checker: reply parser and analysis store

The resume checker sends a resume and a job description to a hosted
language model. It turns the model's free-text reply into four fields
(`parse_analysis` in `resume.py`), shows the missing skills as a bulleted
list, and keeps every analysis in a one-table SQLite store (`database.py`)
whose rows a recruiter can shortlist.

This project models those two pieces and proves what they promise.

- `wrappers.dfy` (module `Wrappers`) holds `Option`, `Result` and `Outcome`.
- `pytext.dfy` (module `PyText`) holds the Python string operations the parser relies on:
  - `str.isspace`, the same set of characters as `\s` for `re`;
  - `str.strip()` and `str.strip('- ')`;
  - `split("\n")` and `"\n".join`;
  - the leftmost occurrence of a literal, as `re.search` finds it.
- `resume.dfy` (module `Resume`) models `parse_analysis`.
  - Each of the four searches is a label, then padding, then a capture. The padding is the greedy `\s*[*]*\s*`; the score pattern puts `\s*:?` before it.
  - The model also covers `int()`, including its 4300-digit limit.
  - It models the list comprehension that formats the missing skills.
- `resume_regex.dfy` (module `ResumeRegex`) states the score pattern the way a regular expression reads, as any split of the text into the pattern's pieces. It states the three text patterns as the leftmost label, the greedy padding that Python's engine tries first, and the capture. It proves that the scanning functions of `Resume` compute the leftmost match that Python's engine returns. It also covers the failure text `get_gemini_analysis` returns.
- `resume_replies.dfy` (module `ResumeReplies`) models replies laid out as the prompt asks. Each value follows its heading after a space on the same line, as in the prompt, or on the next line. The headings may be plain or bold. The missing-skills heading is spelt either as the parser expects or as the prompt spells it. The module proves what the parser extracts from every such reply.
- `database.dfy` (module `Database`) models the `analyses` table.
  - It is a class `AnalysisTable` whose `rows` field the five statements read and reassign.
  - A `nextId` counter plays the part of `AUTOINCREMENT`.
  - A `created` flag records whether `CREATE TABLE` has run. A statement run before that fails with `NoSuchTable`, where `sqlite3` raises `OperationalError`. The two listings receive that error re-raised by pandas' `read_sql_query` as `pandas.errors.DatabaseError`.
  - A score or id outside the signed 64-bit range fails with `IntegerOverflow`, where `sqlite3` raises `OverflowError` while binding it.

A field whose pattern does not match falls back to its default. When `int()`
refuses a capture of more than 4300 digits, the whole call returns `None`
instead (`resume.py:68`, `resume.py:78-80`). `Resume.ParseAnalysis` does the
same.

## Model

| member | source | states |
|---|---|---|
| PyText.Strip | resume.py:69-71 | `strip()` leaves no character of the class at either end; the result is empty exactly when the input consists of that class only; a single line stays a single line |
| PyText.StripRemovesEnds | resume.py:69-71 | `strip()` removes a run of the class from each end and nothing else: its result is a contiguous slice of the input |
| PyText.StripStripped | resume.py:141 | stripping an already stripped string changes nothing |
| PyText.StripAppended | resume.py:70 | characters of the class appended to a stripped, non-empty string are stripped off again; the parser relies on this for whitespace |
| PyText.JoinLines | resume.py:141 | `"\n".join` starts with its first line; PyText.SplitJoin shows that `split("\n")` undoes it |
| PyText.SplitLines | resume.py:141 | `split("\n")` returns at least one piece, no piece holds a newline, and joining the pieces with newlines gives the input back |
| PyText.SplitJoin | resume.py:141 | splitting a join of newline-free lines gives the lines back |
| PyText.IndexOf | resume.py:64-66 | the search returns an occurrence of the literal with no occurrence before it, and returns nothing only when the literal does not occur |
| PyText.After | resume.py:64-66 | the text after the leftmost label is absent exactly when the label does not occur; otherwise it is the text after some occurrence |
| PyText.AfterAcrossLine | resume.py:64-66 | past a line that lacks the label, the text after the leftmost label is the same as in the rest of the text |
| Resume.PadLen | resume.py:63-66 | the padding `\s*[*]*\s*` fits in the text and is not followed by white space; ResumeRegex.PadLenGreedy and ResumeRegex.PadLenExact show it ends where the regular expression's padding ends |
| Resume.ScoreMatchesAt | resume.py:63 | a match leaves room for the label and at least one digit after it; ResumeRegex.ScoreMatchesAtRegex shows it holds exactly where the regular expression matches |
| Resume.ScoreSearch | resume.py:63 | a found position is one where the score pattern matches, at or after where the search starts |
| Resume.ScoreSearchFirst | resume.py:63 | the search is leftmost: any match at or after the start bounds the position found |
| Resume.ScoreCapture | resume.py:63-68 | `group(1)` is a non-empty run of digits, and there is one only when the pattern matches somewhere |
| Resume.ScoreCaptureAt | resume.py:63-68 | a match with no score label before it yields the capture taken at that match |
| Resume.ScoreDigits | resume.py:63 | the `(\d+)` capture holds digits only |
| Resume.DecimalValue | resume.py:68 | `int()` of a digit string is 0 exactly when every digit is 0; Resume.DecimalRoundTrip shows it inverts `str()` |
| Resume.Decimal | resume.py:68 | a number's decimal form is non-empty, holds digits only and has no leading zero |
| Resume.DecimalRoundTrip | resume.py:68 | `int()` of a number's decimal form is that number |
| Resume.VerdictOf | resume.py:64-69 | the verdict is stripped and holds no newline, and is "N/A" when `Verdict:` does not occur |
| Resume.SummaryOf | resume.py:65-70 | the summary is stripped |
| Resume.MissingOf | resume.py:66-71 | the missing skills are stripped, and are "N/A" when `Missing Skills:` does not occur |
| Resume.ParseAnalysis | resume.py:60-80 | the parser fails only when the score pattern matched; otherwise the verdict is one stripped line and the summary and missing skills are stripped |
| Resume.BlankIffStripEmpty | resume.py:141 | the filter `kw.strip()` is falsy exactly for lines of whitespace only |
| Resume.KeptLines | resume.py:141 | the kept lines are non-blank lines of the input, no more of them than there are input lines, and none are kept exactly when every line is blank |
| Resume.KeptLinesAppend | resume.py:141 | filtering distributes over concatenation, so the kept lines keep their original order |
| Resume.Bullet | resume.py:141 | an item starts with "- ", has no dash or space left at either end of its text, and stays on one line |
| Resume.FormatMissingList | resume.py:141 | the list is empty exactly when the field has no non-blank line, and otherwise starts with "- "; Resume.FormatMissingListLines gives its lines |
| Resume.FormatMissingListLines | resume.py:141 | the list has exactly one line per non-blank line of the field, in order, each `"- "` followed by that line with dashes and spaces stripped; no non-blank line gives an empty list |
| Resume.FormatNotAvailable | resume.py:141 | the fallback "N/A" is shown as the single item "- N/A" |
| ResumeRegex.PadLenGreedy | resume.py:63-66 | the scanned padding splits into a maximal whitespace run, a maximal star run and a maximal whitespace run |
| ResumeRegex.GreedyPadUnique | resume.py:63-66 | every such greedy split ends where the scanned padding ends |
| ResumeRegex.PadLenExact | resume.py:63-66 | any split into whitespace, stars and whitespace that is followed by neither ends where the greedy padding ends, so backtracking cannot move the capture |
| ResumeRegex.PadLenCovers | resume.py:63-66 | the padding holds only whitespace and stars |
| ResumeRegex.ScoreTailExact | resume.py:63 | the tail `\s*:?\s*[*]*\s*\d` can match with its digit at `q` exactly when `q` is where the greedy scan puts it and a digit is there |
| ResumeRegex.ScoreMatchesAtRegex | resume.py:63 | the scanning test matches at a position exactly when the regular expression does |
| ResumeRegex.ScoreSearchFindsLeftmost | resume.py:63 | the score search returns the leftmost position where the regular expression matches |
| ResumeRegex.ScoreOfLeftmostMatch | resume.py:63-80 | for the leftmost match and the maximal digit run after its tail, parsing fails exactly when the run is longer than 4300 digits, and otherwise the score is the run's value |
| ResumeRegex.ScoreDigitsRun | resume.py:63 | where the tail matches, the capture is the maximal digit run starting there |
| ResumeRegex.ScoreWithoutMatch | resume.py:63-68 | without a match of the score pattern, parsing succeeds with score 0 |
| ResumeRegex.VerdictOfLeftmost | resume.py:64-69 | the verdict is the stripped rest of the line after the first `Verdict:` and its greedy padding |
| ResumeRegex.MissingOfLeftmost | resume.py:66-71 | the missing skills are the stripped rest of the text after the first `Missing Skills:` and its greedy padding |
| ResumeRegex.SummaryOfLeftmost | resume.py:65-70 | the summary is the stripped text from after the first `Summary:` and its padding up to the nearest `Missing Skills:` that follows |
| ResumeRegex.SummaryOfNearest | resume.py:65-70 | the same, stated from the text after the label |
| ResumeRegex.SummaryFallback | resume.py:65-70 | the summary is "N/A" when no `Summary:` is followed by `Missing Skills:`; otherwise it is the stripped text between a position and an occurrence of `Missing Skills:` |
| ResumeRegex.SummaryFallbackMissing | resume.py:65-70 | when no `Missing Skills:` follows the first `Summary:` and its padding, none follows any `Summary:` |
| ResumeRegex.ParseWithoutLabels | resume.py:63-71 | a reply holding none of the four labels parses to score 0 and "N/A" in the three text fields |
| ResumeRegex.ErrorSentinelParses | resume.py:58-71 | the failure text returned when the model call fails parses to score 0 and "N/A" everywhere, and is shown as the single item "- N/A" |
| ResumeReplies.RenderedScore | resume.py:41-68 | the score capture of a rendered reply is the decimal form of its score, and none without a score section |
| ResumeReplies.RenderedVerdict | resume.py:42-69 | the verdict of a rendered reply is its verdict section's value, or "N/A" without one |
| ResumeReplies.RenderedSummary | resume.py:43-70 | the summary of a rendered reply is its summary value when a correctly spelt missing-skills section follows (with a trailing `\n**` under bold headings), and "N/A" otherwise |
| ResumeReplies.RenderedMissing | resume.py:44-71 | the missing skills of a rendered reply are its last section's value when the heading is spelt as the parser expects, and "N/A" otherwise |
| ResumeReplies.ParseRenderedReply | resume.py:36-80 | parsing a reply laid out as the prompt asks, each value on its heading's line or on the next, gives back the fields it was rendered from, as far as the parser can recover them |
| ResumeReplies.FieldsIndependent | resume.py:63-71 | each field depends only on its own section(s): two replies that agree on a section agree on the field read from it |
| ResumeReplies.StripSummaryTail | resume.py:70 | `strip()` leaves the opening `**` of a bold missing-skills heading at the end of the summary |
| ResumeReplies.PromptSpellingLosesSections | resume.py:44-71 | a reply that spells the heading `Missing Skils:`, as the prompt asks, parses to "N/A" for both summary and missing skills |
| ResumeReplies.ParserSpellingKeepsSections | resume.py:65-71 | with the heading spelt `Missing Skills:`, both summary and missing skills come back |
| Database.FlagOf | database.py:50 | the value written is 0 or 1, and 1 exactly when the status is true |
| Database.Shortlisted | database.py:43 | `WHERE shortlisted = 1` keeps exactly the rows whose flag is 1, each at most as often as in the table |
| Database.SetFlag | database.py:50 | the update keeps the number of rows and changes the flag of the rows with the given id and nothing else |
| Database.Insert | database.py:37 | inserting into a newest-first listing keeps it newest first and adds exactly that row |
| Database.NewestFirst | database.py:37 | `ORDER BY timestamp DESC` yields a newest-first permutation of the rows |
| Database.AnalysisTable.constructor | database.py:7-19 | before `CREATE TABLE` the table does not exist, holds no rows, and the first id to assign is 1 |
| Database.AnalysisTable.InitDb | database.py:4-21 | `CREATE TABLE IF NOT EXISTS` leaves the table existing, and an existing table's rows and id counter unchanged |
| Database.AnalysisTable.AddAnalysis | database.py:23-33 | the insert appends exactly one row with the six values, the clock's timestamp and flag 0, and returns its id, which is larger than every existing id; without the table, or with a score outside the 64-bit range, it fails and changes nothing |
| Database.AnalysisTable.GetAllAnalyses | database.py:35-39 | the listing is newest first and a permutation of the table; without the table it fails |
| Database.AnalysisTable.GetShortlisted | database.py:41-45 | the listing is newest first and holds exactly the rows whose flag is 1, each at most once per table row; without the table it fails |
| Database.AnalysisTable.UpdateShortlistStatus | database.py:47-52 | the update sets the flag of the row with the given id to 1 or 0 as the status says and changes nothing else; without the table, or with an id outside the 64-bit range, it fails and changes nothing |
| Database.SetFlagKeepsTable | database.py:9-17 | the update keeps ids increasing, below the counter and at least 1, keeps every score within 64 bits and every flag 0 or 1 |
| Database.SetFlagUnknownId | database.py:50 | updating an id that no row carries leaves the table unchanged |
| Database.ShortlistAfterUpdate | database.py:41-52 | after updating an existing id, the shortlist holds a row with that id exactly when the status was true |
| Database.NewestInsertListedFirst | database.py:23-39 | a row newer than every other is listed first by every newest-first permutation of the table, so by whatever `GetAllAnalyses` returns |

## Left out

- Reading the uploaded files (`extract_text_from_file`, `resume.py:19-30`) uses a PDF library and upload objects from the UI framework; it is not part of this model.
- The call to the hosted model (`get_gemini_analysis`, `resume.py:32-58`) is not part of this model. Only two things from it are modelled: the layout its prompt asks for (`ResumeReplies`) and the failure text it returns.
- The UI is not part of this model:
  - the Streamlit page code in `resume.py:82-168`;
  - `Home.py`;
  - the history and shortlist pages;
  - session state;
  - the direct `SELECT shortlisted` read at `resume.py:153-159`.
- `\d` in Python's `re` also matches non-ASCII decimal digits, which `int()` accepts too. The model accepts ASCII digits only.
- The digit limit of `int()` is fixed at CPython's default of 4300. A limit changed through `sys.set_int_max_str_digits` is not modelled.
- The `except` branch of `parse_analysis` is modelled only for the one statement that can raise on a string input, `int()`. Non-string input is not modelled.
- The error message shown through `st.error` is not modelled.
- The store leaves out the following:
  - opening, committing and closing a connection per call;
  - building a pandas DataFrame, which the model replaces with a sequence of records;
  - failures of the disk or the database file.
- `CURRENT_TIMESTAMP` is an integer parameter `now` of `AddAnalysis`. Whole seconds compare in the same order as SQLite's `YYYY-MM-DD HH:MM:SS` text.
- Database.AnalysisTable.GetAllAnalyses: promises only newest-first order and a permutation. SQLite does not define the order of rows with equal timestamps, so the model picks one such order but does not promise it.
- Database.AnalysisTable.GetShortlisted: promises only newest-first order and the set of shortlisted rows, for the same reason.
- Ids are unbounded integers. AUTOINCREMENT's failure once the largest 64-bit rowid is used is not modelled.
- SQLite's dynamic typing is not modelled: every column holds the type the source writes into it. `status` is a `bool`, since the only caller passes the checkbox's boolean; Python truthiness of other values is not modelled.
- ResumeReplies.ParseRenderedReply: covers only replies whose sections come in the prompt's order, each starting on a line of its own, with every value after one space or one line break following its heading. Each value must be stripped, non-empty, not start with `*` and hold none of the four labels, and the verdict must fit on one line. Replies outside that shape are covered only by the general lemmas of `ResumeRegex`.
- ResumeRegex.SummaryFallback: when some `Summary:` is followed by `Missing Skills:`, this states only that the summary is a stripped slice ending at an occurrence of `Missing Skills:`. ResumeRegex.SummaryOfLeftmost pins the slice exactly.

## Findings

| source | as written | input that shows it | evidently intended | confidence | as-written member | corrected member |
|---|---|---|---|---|---|---|
| resume.py:44 | the prompt asks the model for the heading `Missing Skils:`, but the parser searches for `Missing Skills:` (resume.py:65-66) | a reply that follows the prompt, e.g. `**Summary:** Good match.\n**Missing Skils:** Docker` | the prompt spells the heading as the parser searches for it, so summary and missing skills are recovered | not executed | ResumeReplies.PromptSpellingLosesSections | ResumeReplies.ParserSpellingKeepsSections |
