/**
 * Replies laid out the way the prompt of get_gemini_analysis asks for them,
 * and what parse_analysis extracts from them.
 *
 * A reply has up to four sections in the prompt's order, one after the other
 * on separate lines. Each section is a heading followed by the value, either
 * on the heading's line after a space (`Verdict: High Fit`, as the prompt
 * lays it out) or on the next line. Headings are plain (`Verdict:`) or bold
 * (`**Verdict:**`). The missing-skills heading is spelt either as the parser
 * expects (`Missing Skills:`) or as the prompt spells it (`Missing Skils:`).
 * A missing section leaves an empty line.
 */
module ResumeReplies {
  import opened Wrappers
  import opened PyText
  import opened Resume
  import opened ResumeRegex

  /** The score heading the prompt asks for. */
  const ScoreHeading := ScoreLabel + ":"

  /** The missing-skills heading as the prompt spells it. */
  const PromptMissingHeading := "Missing Skils:"

  /**
   * How a reply writes its headings: bold or plain, the missing-skills
   * heading spelt as the prompt or as the parser spells it, and each value on
   * its heading's line or on the next one.
   */
  datatype Style = Style(bold: bool, promptSpelling: bool, sameLine: bool)

  /** The content of a reply: which sections it has and what they hold. */
  datatype Reply = Reply(score: Option<nat>, verdict: Option<string>, summary: Option<string>, missingSkills: Option<string>)

  /** The markers around a heading: `**` when it is bold. */
  function Emphasis(bold: bool): (e: string)
    ensures AllIn(e, Stars)
  {
    if bold then "**" else ""
  }

  function Heading(h: string, bold: bool): string {
    Emphasis(bold) + h + Emphasis(bold)
  }

  /** What separates a heading from its value: a space, or a line break. */
  function Separator(style: Style): (c: char)
    ensures IsSpace(c)
    ensures c == '\n' <==> !style.sameLine
  {
    if style.sameLine then ' ' else '\n'
  }

  /** A section: its heading, the separator, then its value; nothing when the section is missing. */
  function Section(h: string, bold: bool, sep: char, value: Option<string>): string {
    match value
    case None => ""
    case Some(v) => Heading(h, bold) + [sep] + v
  }

  function MissingHeading(style: Style): string {
    if style.promptSpelling then PromptMissingHeading else MissingLabel
  }

  function ScoreText(score: Option<nat>): Option<string> {
    match score
    case None => None
    case Some(n) => Some(Decimal(n))
  }

  /** The text of a reply: its four sections, one after the other, on separate lines. */
  function Render(r: Reply, style: Style): string {
    Section(ScoreHeading, style.bold, Separator(style), ScoreText(r.score)) + "\n" +
    (Section(VerdictLabel, style.bold, Separator(style), r.verdict) + "\n" +
    (Section(SummaryLabel, style.bold, Separator(style), r.summary) + "\n" +
     Section(MissingHeading(style), style.bold, Separator(style), r.missingSkills)))
  }

  /** A section value as a model writes it: not empty, stripped, not starting with `*`, and holding no label. */
  ghost predicate ValidValue(v: string) {
    v != [] && IsStripped(v, Whitespace) && v[0] != '*'
    && Absent(ScoreLabel, v) && Absent(VerdictLabel, v) && Absent(SummaryLabel, v) && Absent(MissingLabel, v)
  }

  /** A score that `int()` can read back, and valid values; the verdict on one line. */
  ghost predicate WellFormedReply(r: Reply) {
    (r.score.Some? ==> |Decimal(r.score.value)| <= MaxIntDigits)
    && (r.verdict.Some? ==> ValidValue(r.verdict.value) && '\n' !in r.verdict.value)
    && (r.summary.Some? ==> ValidValue(r.summary.value))
    && (r.missingSkills.Some? ==> ValidValue(r.missingSkills.value))
  }

  /**
   * What parse_analysis should extract from a reply. The summary needs the
   * missing-skills section after it. A bold missing-skills heading leaves its
   * opening `**` at the end of the summary. The prompt's spelling of that
   * heading loses both the summary and the missing skills.
   */
  function Expected(r: Reply, style: Style): Analysis {
    var missing := if style.promptSpelling then NotAvailable else r.missingSkills.GetOr(NotAvailable);
    var summary :=
      if style.promptSpelling || r.summary.None? || r.missingSkills.None? then NotAvailable
      else if style.bold then r.summary.value + "\n**"
      else r.summary.value;
    Analysis(r.score.GetOr(0), r.verdict.GetOr(NotAvailable), summary, missing)
  }

  // ---------------------------------------------------------------------
  // Where the labels are
  // ---------------------------------------------------------------------

  /** A label without `*` that a heading's text lacks is missing from the heading, bold or not. */
  lemma AbsentFromHeading(pat: string, h: string, bold: bool)
    requires pat != [] && '*' !in pat && Absent(pat, h)
    ensures Absent(pat, Heading(h, bold))
  {
    var e := Emphasis(bold);
    var t := Heading(h, bold);
    forall i | 0 <= i && i + |pat| <= |t| ensures !At(t, i, pat) {
      if |e| <= i && i + |pat| <= |e| + |h| {
        assert t[i..i + |pat|] == h[i - |e|..i - |e| + |pat|];
        assert !At(h, i - |e|, pat);
      } else {
        var k := if i < |e| || |e| + |h| <= i then 0 else |e| + |h| - i;
        assert t[i + k] == '*';
        assert t[i..i + |pat|][k] == t[i + k];
      }
    }
  }

  /**
   * A label that a heading's text and the value lack is missing from the
   * section, when it holds no `*`, holds `:` at most as its last character and
   * does not start with white space, and the heading ends with `:`.
   */
  lemma AbsentFromSection(pat: string, h: string, bold: bool, sep: char, value: Option<string>)
    requires pat != [] && '*' !in pat && ':' !in pat[..|pat| - 1] && !IsSpace(pat[0]) && IsSpace(sep)
    requires h != [] && h[|h| - 1] == ':' && Absent(pat, h)
    requires value.Some? ==> Absent(pat, value.value)
    ensures Absent(pat, Section(h, bold, sep, value))
  {
    if value.Some? {
      AbsentFromHeading(pat, h, bold);
      SliceLacks(pat, 0, |pat| - 1, pat[..|pat| - 1], '*');
      HeadingLast(h, bold);
      AbsentAcrossSep(pat, Heading(h, bold), sep, value.value);
    }
  }

  /** A heading ends with its text's last character, or with `*` when bold. */
  lemma HeadingLast(h: string, bold: bool)
    requires h != []
    ensures Heading(h, bold) != []
    ensures Heading(h, bold)[|Heading(h, bold)| - 1] == if bold then '*' else h[|h| - 1]
  {
  }

  /** No label occurs in the score's digits. */
  lemma AbsentFromScore(pat: string, score: Option<nat>)
    requires pat != [] && !IsDigit(pat[0])
    ensures ScoreText(score).Some? ==> Absent(pat, ScoreText(score).value)
  {
    if score.Some? {
      AbsentFromDigits(pat, Decimal(score.value));
    }
  }

  lemma HeadingsLackScoreLabel()
    ensures Absent(ScoreLabel, VerdictLabel) && Absent(ScoreLabel, SummaryLabel)
    ensures Absent(ScoreLabel, MissingLabel) && Absent(ScoreLabel, PromptMissingHeading)
  {
    AbsentByChar(ScoreLabel, MissingLabel, 0);
  }

  lemma HeadingsLackVerdictLabel()
    ensures Absent(VerdictLabel, ScoreHeading) && Absent(VerdictLabel, SummaryLabel)
    ensures Absent(VerdictLabel, MissingLabel) && Absent(VerdictLabel, PromptMissingHeading)
  {
    AbsentByChar(VerdictLabel, ScoreHeading, 0);
    AbsentByChar(VerdictLabel, SummaryLabel, 0);
    AbsentByChar(VerdictLabel, MissingLabel, 0);
    AbsentByChar(VerdictLabel, PromptMissingHeading, 0);
  }

  lemma HeadingsLackSummaryLabel()
    ensures Absent(SummaryLabel, ScoreHeading) && Absent(SummaryLabel, VerdictLabel)
    ensures Absent(SummaryLabel, MissingLabel) && Absent(SummaryLabel, PromptMissingHeading)
  {
    AbsentByChar(SummaryLabel, ScoreHeading, 1);
    AbsentByChar(SummaryLabel, VerdictLabel, 0);
    AbsentByChar(SummaryLabel, MissingLabel, 1);
    AbsentByChar(SummaryLabel, PromptMissingHeading, 1);
  }

  lemma HeadingsLackMissingLabel()
    ensures Absent(MissingLabel, ScoreHeading) && Absent(MissingLabel, VerdictLabel)
    ensures Absent(MissingLabel, SummaryLabel) && Absent(MissingLabel, PromptMissingHeading)
  {
    AbsentByChar(MissingLabel, ScoreHeading, 0);
  }

  /** The labels hold neither a newline nor a `*`, and none starts with a digit or white space. */
  lemma LabelsAreSingleLine()
    ensures '\n' !in ScoreLabel && '*' !in ScoreLabel && !IsDigit(ScoreLabel[0]) && !IsSpace(ScoreLabel[0])
    ensures '\n' !in VerdictLabel && '*' !in VerdictLabel && !IsDigit(VerdictLabel[0]) && !IsSpace(VerdictLabel[0])
    ensures '\n' !in SummaryLabel && '*' !in SummaryLabel && !IsDigit(SummaryLabel[0]) && !IsSpace(SummaryLabel[0])
    ensures '\n' !in MissingLabel && '*' !in MissingLabel && !IsDigit(MissingLabel[0]) && !IsSpace(MissingLabel[0])
  {
  }

  /** Every heading ends with `:`, and a label holds `:` at most as its last character. */
  lemma ColonsEndHeadings()
    ensures ScoreHeading[|ScoreHeading| - 1] == ':' && VerdictLabel[|VerdictLabel| - 1] == ':'
    ensures SummaryLabel[|SummaryLabel| - 1] == ':' && MissingLabel[|MissingLabel| - 1] == ':'
    ensures PromptMissingHeading[|PromptMissingHeading| - 1] == ':'
    ensures ':' !in ScoreLabel[..|ScoreLabel| - 1] && ':' !in VerdictLabel[..|VerdictLabel| - 1]
    ensures ':' !in SummaryLabel[..|SummaryLabel| - 1] && ':' !in MissingLabel[..|MissingLabel| - 1]
  {
    assert VerdictLabel[..|VerdictLabel| - 1] == "Verdict";
    assert SummaryLabel[..|SummaryLabel| - 1] == "Summary";
    assert MissingLabel[..|MissingLabel| - 1] == "Missing Skills";
    SliceLacks(ScoreLabel, 0, |ScoreLabel| - 1, ScoreLabel[..|ScoreLabel| - 1], ':');
  }

  /** In a text that starts with a heading, its label is found in the heading. */
  lemma AfterHeading(pat: string, bold: bool, w: string)
    requires pat != [] && pat[0] != '*'
    ensures IndexOf(Heading(pat, bold) + w, pat, 0) == Some(|Emphasis(bold)|)
    ensures After(Heading(pat, bold) + w, pat) == Some(Emphasis(bold) + w)
  {
    HeadingRegroup(pat, bold, w);
    AtAfterStars(Emphasis(bold), pat, Emphasis(bold) + w);
    AfterFirst(Heading(pat, bold) + w, pat, |Emphasis(bold)|, Emphasis(bold) + w);
  }

  /** A heading followed by `w`, regrouped as the opening markers, the label and the rest. */
  lemma HeadingRegroup(pat: string, bold: bool, w: string)
    ensures Heading(pat, bold) + w == Emphasis(bold) + pat + (Emphasis(bold) + w)
  {
  }

  /** After a heading's closing `**` and its separator, the padding ends where the value starts. */
  lemma PadBeforeValue(bold: bool, sep: char, x: string)
    requires IsSpace(sep) && x != [] && !IsSpace(x[0]) && x[0] != '*'
    ensures PadLen(Emphasis(bold) + ([sep] + x)) == |Emphasis(bold)| + 1
    ensures (Emphasis(bold) + ([sep] + x))[|Emphasis(bold)| + 1..] == x
  {
    var e := Emphasis(bold);
    var u := e + ([sep] + x);
    assert u[..0] == [];
    assert u[0..|e|] == e;
    assert u[|e|..|e| + 1] == [sep];
    assert u[|e| + 1] == x[0];
    PadLenExact(u, 0, |e|, |e| + 1);
  }

  // ---------------------------------------------------------------------
  // One field at a time
  // ---------------------------------------------------------------------

  /** A score section at the start of the text yields its digits. */
  lemma ScoreCaptureSection(t: string, bold: bool, sep: char, ds: string, rest: string)
    requires t == Heading(ScoreHeading, bold) + [sep] + ds + "\n" + rest
    requires IsSpace(sep) && ds != [] && AllIn(ds, Digits)
    ensures ScoreCapture(t) == Some(ds)
  {
    var e := Emphasis(bold);
    var p := |e|;
    var u := ":" + (e + ([sep] + (ds + ("\n" + rest))));
    RegroupScore(e, ScoreLabel, sep, ds, rest);
    LabelsAreSingleLine();
    AtAfterStars(e, ScoreLabel, u);
    ScoreDigitsAfterHeading(bold, sep, ds, rest);
    ScoreCaptureAt(t, p);
  }

  lemma RegroupScore(e: string, pat: string, sep: char, ds: string, rest: string)
    ensures e + (pat + ":") + e + [sep] + ds + "\n" + rest == e + pat + (":" + (e + ([sep] + (ds + ("\n" + rest)))))
  {
  }

  /** After the score label, its colon, the heading's closing markers and the separator, the capture is the digits. */
  lemma ScoreDigitsAfterHeading(bold: bool, sep: char, ds: string, rest: string)
    requires IsSpace(sep) && ds != [] && AllIn(ds, Digits)
    ensures ScoreDigits(":" + (Emphasis(bold) + ([sep] + (ds + ("\n" + rest))))) == ds
  {
    var e := Emphasis(bold);
    var x := ds + ("\n" + rest);
    var u := ":" + (e + ([sep] + x));
    ScoreDigitStartColon(u);
    assert u[1..] == e + ([sep] + x);
    PadBeforeValue(bold, sep, x);
    assert u[ScoreDigitStart(u)..] == x;
    assert x[..|ds|] == ds;
    LeadLenUnique(x, Digits, |ds|);
  }

  /** The verdict is the rest of the line that follows its heading and separator. */
  lemma VerdictOfSection(t: string, bold: bool, sep: char, v: string, rest: string)
    requires After(t, VerdictLabel) == Some(Emphasis(bold) + ([sep] + (v + ("\n" + rest))))
    requires IsSpace(sep) && v != [] && IsStripped(v, Whitespace) && v[0] != '*' && '\n' !in v
    ensures VerdictOf(t) == v
  {
    var x := v + ("\n" + rest);
    PadBeforeValue(bold, sep, x);
    assert x[..|v|] == v;
    LeadLenUnique(x, NotNewline, |v|);
    StripStripped(v, Whitespace);
  }

  /** The missing skills are the value that follows their heading, up to the end. */
  lemma MissingOfSection(t: string, bold: bool, sep: char, v: string)
    requires After(t, MissingLabel) == Some(Emphasis(bold) + ([sep] + v))
    requires IsSpace(sep) && v != [] && IsStripped(v, Whitespace) && v[0] != '*'
    ensures MissingOf(t) == v
  {
    PadBeforeValue(bold, sep, v);
    StripStripped(v, Whitespace);
  }

  /** A summary followed by the missing-skills heading runs up to that heading's label. */
  lemma SummaryOfSectionClosed(t: string, bold: bool, sep: char, v: string, y: string)
    requires After(t, SummaryLabel) == Some(Emphasis(bold) + ([sep] + (v + ("\n" + (Heading(MissingLabel, bold) + y)))))
    requires IsSpace(sep) && v != [] && !IsSpace(v[0]) && v[0] != '*' && Absent(MissingLabel, v)
    ensures SummaryOf(t) == Strip(v + "\n" + Emphasis(bold), Whitespace)
  {
    var e := Emphasis(bold);
    var x := v + ("\n" + (Heading(MissingLabel, bold) + y));
    var u := e + ([sep] + x);
    PadBeforeValue(bold, sep, x);
    var m := MissingHeadingAfterValue(bold, v, y);
    SummaryOfFound(t, u, |e| + 1, m);
  }

  /** The nearest missing-skills label after a value is the one in the heading on the next line. */
  lemma MissingHeadingAfterValue(bold: bool, v: string, y: string) returns (m: nat)
    requires Absent(MissingLabel, v)
    ensures IndexOf(v + ("\n" + (Heading(MissingLabel, bold) + y)), MissingLabel, 0) == Some(m)
    ensures (v + ("\n" + (Heading(MissingLabel, bold) + y)))[..m] == v + "\n" + Emphasis(bold)
  {
    var e := Emphasis(bold);
    var rest := Heading(MissingLabel, bold) + y;
    var x := v + ("\n" + rest);
    AfterHeading(MissingLabel, bold, y);
    LabelsAreSingleLine();
    assert x == v + "\n" + rest;
    IndexOfAcrossLine(MissingLabel, v, rest);
    m := |v| + 1 + |e|;
    assert x[..m] == v + "\n" + e;
  }

  /** A summary with no missing-skills label after it falls back to "N/A". */
  lemma SummaryOfSectionOpen(t: string, bold: bool, sep: char, v: string, rest: string)
    requires After(t, SummaryLabel) == Some(Emphasis(bold) + ([sep] + (v + ("\n" + rest))))
    requires IsSpace(sep) && v != [] && !IsSpace(v[0]) && v[0] != '*' && Absent(MissingLabel, v) && Absent(MissingLabel, rest)
    ensures SummaryOf(t) == NotAvailable
  {
    var x := v + ("\n" + rest);
    PadBeforeValue(bold, sep, x);
    LabelsAreSingleLine();
    assert x == v + "\n" + rest;
    AbsentAcrossLine(MissingLabel, v, rest);
  }

  /** What strip() leaves of a summary followed by a newline and the missing-skills heading's opening markers. */
  lemma StripSummaryTail(v: string, bold: bool)
    requires v != [] && IsStripped(v, Whitespace)
    ensures Strip(v + "\n" + Emphasis(bold), Whitespace) == if bold then v + "\n**" else v
  {
    if bold {
      StripStripped(v + "\n**", Whitespace);
    } else {
      assert v + "\n" + Emphasis(bold) == v + "\n";
      StripAppended(v, "\n", Whitespace);
    }
  }

  // ---------------------------------------------------------------------
  // Whole replies
  // ---------------------------------------------------------------------

  /** A present section, regrouped as its heading followed by the rest of the text. */
  lemma SectionSome(h: string, bold: bool, sep: char, v: string, rest: string)
    ensures Section(h, bold, sep, Some(v)) == Heading(h, bold) + ([sep] + v)
    ensures Section(h, bold, sep, Some(v)) + "\n" + rest == Heading(h, bold) + ([sep] + (v + ("\n" + rest)))
  {
    Regroup(Heading(h, bold), sep, v, rest);
  }

  lemma Regroup(x: string, sep: char, v: string, rest: string)
    ensures x + [sep] + v == x + ([sep] + v)
    ensures x + [sep] + v + "\n" + rest == x + ([sep] + (v + ("\n" + rest)))
  {
  }

  lemma ScoreLabelElsewhere(r: Reply, style: Style)
    requires WellFormedReply(r)
    ensures Absent(ScoreLabel, Section(VerdictLabel, style.bold, Separator(style), r.verdict))
    ensures Absent(ScoreLabel, Section(SummaryLabel, style.bold, Separator(style), r.summary))
    ensures Absent(ScoreLabel, Section(MissingHeading(style), style.bold, Separator(style), r.missingSkills))
  {
    LabelsAreSingleLine();
    ColonsEndHeadings();
    HeadingsLackScoreLabel();
    AbsentFromSection(ScoreLabel, VerdictLabel, style.bold, Separator(style), r.verdict);
    AbsentFromSection(ScoreLabel, SummaryLabel, style.bold, Separator(style), r.summary);
    AbsentFromSection(ScoreLabel, MissingHeading(style), style.bold, Separator(style), r.missingSkills);
  }

  lemma VerdictLabelElsewhere(r: Reply, style: Style)
    requires WellFormedReply(r)
    ensures Absent(VerdictLabel, Section(ScoreHeading, style.bold, Separator(style), ScoreText(r.score)))
    ensures Absent(VerdictLabel, Section(SummaryLabel, style.bold, Separator(style), r.summary))
    ensures Absent(VerdictLabel, Section(MissingHeading(style), style.bold, Separator(style), r.missingSkills))
  {
    LabelsAreSingleLine();
    ColonsEndHeadings();
    HeadingsLackVerdictLabel();
    AbsentFromScore(VerdictLabel, r.score);
    AbsentFromSection(VerdictLabel, ScoreHeading, style.bold, Separator(style), ScoreText(r.score));
    AbsentFromSection(VerdictLabel, SummaryLabel, style.bold, Separator(style), r.summary);
    AbsentFromSection(VerdictLabel, MissingHeading(style), style.bold, Separator(style), r.missingSkills);
  }

  lemma SummaryLabelElsewhere(r: Reply, style: Style)
    requires WellFormedReply(r)
    ensures Absent(SummaryLabel, Section(ScoreHeading, style.bold, Separator(style), ScoreText(r.score)))
    ensures Absent(SummaryLabel, Section(VerdictLabel, style.bold, Separator(style), r.verdict))
    ensures Absent(SummaryLabel, Section(MissingHeading(style), style.bold, Separator(style), r.missingSkills))
  {
    LabelsAreSingleLine();
    ColonsEndHeadings();
    HeadingsLackSummaryLabel();
    AbsentFromScore(SummaryLabel, r.score);
    AbsentFromSection(SummaryLabel, ScoreHeading, style.bold, Separator(style), ScoreText(r.score));
    AbsentFromSection(SummaryLabel, VerdictLabel, style.bold, Separator(style), r.verdict);
    AbsentFromSection(SummaryLabel, MissingHeading(style), style.bold, Separator(style), r.missingSkills);
  }

  /** The missing-skills label occurs only in the last section, and only when that section uses the parser's spelling. */
  lemma MissingLabelElsewhere(r: Reply, style: Style)
    requires WellFormedReply(r)
    ensures Absent(MissingLabel, Section(ScoreHeading, style.bold, Separator(style), ScoreText(r.score)))
    ensures Absent(MissingLabel, Section(VerdictLabel, style.bold, Separator(style), r.verdict))
    ensures Absent(MissingLabel, Section(SummaryLabel, style.bold, Separator(style), r.summary))
    ensures style.promptSpelling || r.missingSkills.None? ==>
              Absent(MissingLabel, Section(MissingHeading(style), style.bold, Separator(style), r.missingSkills))
  {
    LabelsAreSingleLine();
    ColonsEndHeadings();
    HeadingsLackMissingLabel();
    AbsentFromScore(MissingLabel, r.score);
    AbsentFromSection(MissingLabel, ScoreHeading, style.bold, Separator(style), ScoreText(r.score));
    AbsentFromSection(MissingLabel, VerdictLabel, style.bold, Separator(style), r.verdict);
    AbsentFromSection(MissingLabel, SummaryLabel, style.bold, Separator(style), r.summary);
    if style.promptSpelling {
      AbsentFromSection(MissingLabel, PromptMissingHeading, style.bold, Separator(style), r.missingSkills);
    }
  }

  /** The score is read from the score section; without one there is no capture. */
  lemma RenderedScore(r: Reply, style: Style)
    requires WellFormedReply(r)
    ensures ScoreCapture(Render(r, style)) == ScoreText(r.score)
  {
    var a := Section(ScoreHeading, style.bold, Separator(style), ScoreText(r.score));
    var b := Section(VerdictLabel, style.bold, Separator(style), r.verdict);
    var c := Section(SummaryLabel, style.bold, Separator(style), r.summary);
    var d := Section(MissingHeading(style), style.bold, Separator(style), r.missingSkills);
    var rest := b + "\n" + (c + "\n" + d);
    if r.score.Some? {
      ScoreCaptureSection(Render(r, style), style.bold, Separator(style), Decimal(r.score.value), rest);
    } else {
      LabelsAreSingleLine();
      ScoreLabelElsewhere(r, style);
      AbsentAcrossLine(ScoreLabel, c, d);
      AbsentAcrossLine(ScoreLabel, b, c + "\n" + d);
      AbsentAcrossLine(ScoreLabel, a, rest);
    }
  }

  /** The verdict is read from the verdict section, or is "N/A" without one. */
  lemma RenderedVerdict(r: Reply, style: Style)
    requires WellFormedReply(r)
    ensures VerdictOf(Render(r, style)) == r.verdict.GetOr(NotAvailable)
  {
    var a := Section(ScoreHeading, style.bold, Separator(style), ScoreText(r.score));
    var b := Section(VerdictLabel, style.bold, Separator(style), r.verdict);
    var c := Section(SummaryLabel, style.bold, Separator(style), r.summary);
    var d := Section(MissingHeading(style), style.bold, Separator(style), r.missingSkills);
    var r2 := c + "\n" + d;
    var r1 := b + "\n" + r2;
    LabelsAreSingleLine();
    VerdictLabelElsewhere(r, style);
    AfterAcrossLine(VerdictLabel, a, r1);
    if r.verdict.Some? {
      var v := r.verdict.value;
      SectionSome(VerdictLabel, style.bold, Separator(style), v, r2);
      AfterHeading(VerdictLabel, style.bold, [Separator(style)] + (v + ("\n" + r2)));
      VerdictOfSection(Render(r, style), style.bold, Separator(style), v, r2);
    } else {
      AbsentAcrossLine(VerdictLabel, c, d);
      AbsentAcrossLine(VerdictLabel, b, r2);
    }
  }

  /** The summary is read from the summary section when the missing-skills label follows it, or is "N/A". */
  lemma RenderedSummary(r: Reply, style: Style)
    requires WellFormedReply(r)
    ensures SummaryOf(Render(r, style)) == Expected(r, style).summary
  {
    var a := Section(ScoreHeading, style.bold, Separator(style), ScoreText(r.score));
    var b := Section(VerdictLabel, style.bold, Separator(style), r.verdict);
    var c := Section(SummaryLabel, style.bold, Separator(style), r.summary);
    var d := Section(MissingHeading(style), style.bold, Separator(style), r.missingSkills);
    var r2 := c + "\n" + d;
    var r1 := b + "\n" + r2;
    LabelsAreSingleLine();
    SummaryLabelElsewhere(r, style);
    AfterAcrossLine(SummaryLabel, a, r1);
    AfterAcrossLine(SummaryLabel, b, r2);
    if r.summary.Some? {
      var v := r.summary.value;
      SectionSome(SummaryLabel, style.bold, Separator(style), v, d);
      AfterHeading(SummaryLabel, style.bold, [Separator(style)] + (v + ("\n" + d)));
      if !style.promptSpelling && r.missingSkills.Some? {
        var mv := r.missingSkills.value;
        SectionSome(MissingLabel, style.bold, Separator(style), mv, "");
        SummaryOfSectionClosed(Render(r, style), style.bold, Separator(style), v, [Separator(style)] + mv);
        StripSummaryTail(v, style.bold);
      } else {
        MissingLabelElsewhere(r, style);
        SummaryOfSectionOpen(Render(r, style), style.bold, Separator(style), v, d);
      }
    } else {
      AbsentAcrossLine(SummaryLabel, c, d);
    }
  }

  /** The missing skills are read from the last section when its heading is spelt as the parser expects, or are "N/A". */
  lemma RenderedMissing(r: Reply, style: Style)
    requires WellFormedReply(r)
    ensures MissingOf(Render(r, style)) == Expected(r, style).missingKeywords
  {
    var a := Section(ScoreHeading, style.bold, Separator(style), ScoreText(r.score));
    var b := Section(VerdictLabel, style.bold, Separator(style), r.verdict);
    var c := Section(SummaryLabel, style.bold, Separator(style), r.summary);
    var d := Section(MissingHeading(style), style.bold, Separator(style), r.missingSkills);
    var r2 := c + "\n" + d;
    var r1 := b + "\n" + r2;
    LabelsAreSingleLine();
    MissingLabelElsewhere(r, style);
    if !style.promptSpelling && r.missingSkills.Some? {
      var mv := r.missingSkills.value;
      AfterAcrossLine(MissingLabel, a, r1);
      AfterAcrossLine(MissingLabel, b, r2);
      AfterAcrossLine(MissingLabel, c, d);
      SectionSome(MissingLabel, style.bold, Separator(style), mv, "");
      AfterHeading(MissingLabel, style.bold, [Separator(style)] + mv);
      MissingOfSection(Render(r, style), style.bold, Separator(style), mv);
    } else {
      AbsentAcrossLine(MissingLabel, c, d);
      AbsentAcrossLine(MissingLabel, b, r2);
      AbsentAcrossLine(MissingLabel, a, r1);
    }
  }

  /**
   * parse_analysis recovers a well-formed reply: the score, the verdict and
   * the missing skills as written, and the summary as Expected says.
   */
  lemma ParseRenderedReply(r: Reply, style: Style)
    requires WellFormedReply(r)
    ensures ParseAnalysis(Render(r, style)) == Some(Expected(r, style))
  {
    var t := Render(r, style);
    RenderedScore(r, style);
    RenderedVerdict(r, style);
    RenderedSummary(r, style);
    RenderedMissing(r, style);
    if r.score.Some? {
      DecimalRoundTrip(r.score.value);
      ParseAnalysisScore(t, Decimal(r.score.value));
    }
  }

  /**
   * The four searches are independent: a field of the result depends only on
   * its own section (the summary also on whether the missing-skills section
   * is there), so adding, dropping or changing another section leaves it as
   * it was.
   */
  lemma FieldsIndependent(r1: Reply, r2: Reply, style: Style)
    requires WellFormedReply(r1) && WellFormedReply(r2)
    ensures ParseAnalysis(Render(r1, style)).Some? && ParseAnalysis(Render(r2, style)).Some?
    ensures r1.score == r2.score ==>
              ParseAnalysis(Render(r1, style)).value.score == ParseAnalysis(Render(r2, style)).value.score
    ensures r1.verdict == r2.verdict ==>
              ParseAnalysis(Render(r1, style)).value.verdict == ParseAnalysis(Render(r2, style)).value.verdict
    ensures r1.summary == r2.summary && r1.missingSkills.Some? == r2.missingSkills.Some? ==>
              ParseAnalysis(Render(r1, style)).value.summary == ParseAnalysis(Render(r2, style)).value.summary
    ensures r1.missingSkills == r2.missingSkills ==>
              ParseAnalysis(Render(r1, style)).value.missingKeywords == ParseAnalysis(Render(r2, style)).value.missingKeywords
  {
    ParseRenderedReply(r1, style);
    ParseRenderedReply(r2, style);
  }

  /**
   * A reply that spells the missing-skills heading the way the prompt does
   * (resume.py:44) loses both the summary and the missing skills, whatever
   * it holds.
   */
  lemma PromptSpellingLosesSections(r: Reply, bold: bool, sameLine: bool)
    requires WellFormedReply(r)
    ensures ParseAnalysis(Render(r, Style(bold, true, sameLine))).Some?
    ensures ParseAnalysis(Render(r, Style(bold, true, sameLine))).value.summary == NotAvailable
    ensures ParseAnalysis(Render(r, Style(bold, true, sameLine))).value.missingKeywords == NotAvailable
  {
    ParseRenderedReply(r, Style(bold, true, sameLine));
  }

  /**
   * With the heading spelt as the parser expects, the summary and the missing
   * skills come through; a bold heading leaves its opening `**` on a last
   * line of the summary.
   */
  lemma ParserSpellingKeepsSections(r: Reply, bold: bool, sameLine: bool)
    requires WellFormedReply(r) && r.summary.Some? && r.missingSkills.Some?
    ensures ParseAnalysis(Render(r, Style(bold, false, sameLine))).Some?
    ensures ParseAnalysis(Render(r, Style(bold, false, sameLine))).value.missingKeywords == r.missingSkills.value
    ensures !bold ==> ParseAnalysis(Render(r, Style(bold, false, sameLine))).value.summary == r.summary.value
    ensures bold ==> ParseAnalysis(Render(r, Style(bold, false, sameLine))).value.summary == r.summary.value + "\n**"
  {
    ParseRenderedReply(r, Style(bold, false, sameLine));
  }
}
