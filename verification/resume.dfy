/**
 * The response parser of resume.py, `parse_analysis`, and the expression that
 * turns its missing-skills field into a bulleted list on the result page.
 *
 * parse_analysis runs four independent `re.search` calls over the model's
 * reply, each a fixed label followed by the padding `\s*[*]*\s*` and a capture:
 *
 *   score     `Relevance Score\s*:?\s*[*]*\s*(\d+)`           int(...), else 0
 *   verdict   `Verdict:\s*[*]*\s*(.*)`                         strip(), else "N/A"
 *   summary   `Summary:\s*[*]*\s*([\s\S]*?)Missing Skills:`     strip(), else "N/A"
 *   missing   `Missing Skills:\s*[*]*\s*([\s\S]*)`             strip(), else "N/A"
 *
 * Python's engine is leftmost-first and tries greedy repetitions first, so
 * each padding is consumed greedily and each search starts from the leftmost
 * place where its pattern matches. The only statement that can raise is
 * `int(...)`, which refuses more than 4300 digits; the `except` branch then
 * returns None, which is why ParseAnalysis returns an Option.
 */
module Resume {
  import opened Wrappers
  import opened PyText

  const ScoreLabel := "Relevance Score"
  const VerdictLabel := "Verdict:"
  const SummaryLabel := "Summary:"
  const MissingLabel := "Missing Skills:"

  /** The value of a text field whose pattern does not match. */
  const NotAvailable := "N/A"

  /** The most digits CPython's `int()` converts by default (3.11 and later); more raise ValueError. */
  const MaxIntDigits := 4300

  /** The text get_gemini_analysis returns when the model call fails. */
  const ErrorSentinel := "Error: Could not get response from AI model."

  /** The dictionary parse_analysis returns. */
  datatype Analysis = Analysis(score: nat, verdict: string, summary: string, missingKeywords: string)

  /** Characters the greedy padding `\s*[*]*\s*` consumes at the start of `u`. */
  function PadLen(u: string): (n: nat)
    ensures n <= |u|
    ensures n == |u| || !IsSpace(u[n])
  {
    var a := LeadLen(u, Whitespace);
    var b := a + LeadLen(u[a..], Stars);
    b + LeadLen(u[b..], Whitespace)
  }


  /** Where `(\d+)` has to begin after a score label: past `\s*:?` and the padding. */
  function ScoreDigitStart(u: string): (q: nat)
    ensures q <= |u|
  {
    var a := LeadLen(u, Whitespace);
    var b := if a < |u| && u[a] == ':' then a + 1 else a;
    b + PadLen(u[b..])
  }

  /** ScoreDigitStart's steps: leading whitespace up to `a`, an optional colon up to `b`, then the padding of `v`. */
  lemma ScoreDigitStartSteps(u: string) returns (a: nat, b: nat, v: string)
    ensures a <= b <= |u| && v == u[b..] && AllIn(u[..a], Whitespace)
    ensures b == a || (b == a + 1 && u[a] == ':')
    ensures ScoreDigitStart(u) == b + PadLen(v)
  {
    a := LeadLen(u, Whitespace);
    b := if a < |u| && u[a] == ':' then a + 1 else a;
    v := u[b..];
  }

  /** With a colon right after the label, the digits start after the colon and the padding that follows it. */
  lemma ScoreDigitStartColon(u: string)
    requires u != [] && u[0] == ':'
    ensures ScoreDigitStart(u) == 1 + PadLen(u[1..])
  {
    assert u[..0] == [];
    LeadLenUnique(u, Whitespace, 0);
  }

  /** The `(\d+)` capture after a score label: the maximal digit run there, empty when there is none. */
  function ScoreDigits(u: string): (ds: string)
    ensures AllIn(ds, Digits)
  {
    var q := ScoreDigitStart(u);
    u[q..][..LeadLen(u[q..], Digits)]
  }

  /** The score pattern matches with its label at `p`. */
  predicate ScoreMatchesAt(t: string, p: int): (b: bool)
    ensures b ==> 0 <= p && p + |ScoreLabel| < |t|
  {
    At(t, p, ScoreLabel) && ScoreDigits(t[p + |ScoreLabel|..]) != []
  }

  /** `re.search` for the score pattern: its leftmost match at or after `from`. */
  function ScoreSearch(t: string, from: nat): (r: Option<nat>)
    decreases |t| - from
    ensures r.Some? ==> from <= r.value && ScoreMatchesAt(t, r.value)
  {
    if |t| < from + |ScoreLabel| then None
    else if ScoreMatchesAt(t, from) then Some(from)
    else ScoreSearch(t, from + 1)
  }

  /** Any match at or after `from` bounds where the search stops: it finds the leftmost one. */
  lemma {:induction false} ScoreSearchFirst(t: string, from: nat, p: nat)
    requires from <= p && ScoreMatchesAt(t, p)
    decreases |t| - from
    ensures ScoreSearch(t, from).Some? && ScoreSearch(t, from).value <= p
  {
    if |t| >= from + |ScoreLabel| && !ScoreMatchesAt(t, from) {
      ScoreSearchFirst(t, from + 1, p);
    }
  }

  /** `score_match.group(1)` when the score pattern matches. */
  function ScoreCapture(t: string): (r: Option<string>)
    ensures r.Some? ==> r.value != [] && AllIn(r.value, Digits)
    ensures r.Some? ==> exists p :: ScoreMatchesAt(t, p)
  {
    match ScoreSearch(t, 0)
    case None => None
    case Some(p) => Some(ScoreDigits(t[p + |ScoreLabel|..]))
  }

  /** A match with no occurrence of the label before it is the one the search finds. */
  lemma ScoreCaptureAt(t: string, p: nat)
    requires ScoreMatchesAt(t, p)
    requires forall j :: 0 <= j < p ==> !At(t, j, ScoreLabel)
    ensures ScoreCapture(t) == Some(ScoreDigits(t[p + |ScoreLabel|..]))
  {
    ScoreSearchFirst(t, 0, p);
    var r := ScoreSearch(t, 0);
    assert At(t, r.value, ScoreLabel);
    assert r.value == p;
  }

  /** Python `int(ds)` for a string of ASCII digits. */
  function DecimalValue(ds: string): (n: nat)
    requires AllIn(ds, Digits)
    ensures n == 0 <==> forall i :: 0 <= i < |ds| ==> ds[i] == '0'
  {
    if ds == [] then 0
    else
      assert AllIn(ds[..|ds| - 1], Digits);
      DecimalValue(ds[..|ds| - 1]) * 10 + (ds[|ds| - 1] as int - '0' as int)
  }

  /** Python `str(n)` for a non-negative integer. */
  function Decimal(n: nat): (ds: string)
    ensures ds != [] && AllIn(ds, Digits)
    ensures n > 0 ==> ds[0] != '0'
  {
    if n < 10 then [('0' as int + n) as char]
    else Decimal(n / 10) + [('0' as int + n % 10) as char]
  }

  /** `int(str(n)) == n`: the decimal digits of a number read back as that number. */
  lemma {:induction false} DecimalRoundTrip(n: nat)
    ensures DecimalValue(Decimal(n)) == n
  {
    if n >= 10 {
      DecimalRoundTrip(n / 10);
      var ds := Decimal(n);
      assert ds[..|ds| - 1] == Decimal(n / 10);
    }
  }

  /** The `verdict` field: the stripped rest of the line after `Verdict:` and its padding, or "N/A". */
  function VerdictOf(t: string): (r: string)
    ensures IsStripped(r, Whitespace) && '\n' !in r
    ensures Absent(VerdictLabel, t) ==> r == NotAvailable
  {
    match After(t, VerdictLabel)
    case None => NotAvailable
    case Some(u) =>
      var w := u[PadLen(u)..];
      var line := w[..LeadLen(w, NotNewline)];
      Strip(line, Whitespace)
  }

  /** The `summary` field: the stripped text between `Summary:` (and its padding) and the nearest `Missing Skills:`, or "N/A". */
  function SummaryOf(t: string): (r: string)
    ensures IsStripped(r, Whitespace)
  {
    match After(t, SummaryLabel)
    case None => NotAvailable
    case Some(u) =>
      var w := u[PadLen(u)..];
      match IndexOf(w, MissingLabel, 0)
      case None => NotAvailable
      case Some(m) => Strip(w[..m], Whitespace)
  }

  /** How SummaryOf reads once both searches have succeeded. */
  lemma SummaryOfFound(t: string, u: string, q: nat, j: nat)
    requires After(t, SummaryLabel) == Some(u) && q == PadLen(u)
    requires IndexOf(u[q..], MissingLabel, 0) == Some(j)
    ensures SummaryOf(t) == Strip(u[q..][..j], Whitespace)
  {
  }

  /** The `missing_keywords` field: the stripped rest of the text after `Missing Skills:` and its padding, or "N/A". */
  function MissingOf(t: string): (r: string)
    ensures IsStripped(r, Whitespace)
    ensures Absent(MissingLabel, t) ==> r == NotAvailable
  {
    match After(t, MissingLabel)
    case None => NotAvailable
    case Some(u) => Strip(u[PadLen(u)..], Whitespace)
  }

  /**
   * parse_analysis: None only when `int()` refuses an over-long score;
   * otherwise every text field is stripped and the verdict is a single line.
   */
  function ParseAnalysis(t: string): (r: Option<Analysis>)
    ensures r.None? ==> ScoreCapture(t).Some?
    ensures r.Some? ==> '\n' !in r.value.verdict && IsStripped(r.value.verdict, Whitespace)
    ensures r.Some? ==> IsStripped(r.value.summary, Whitespace) && IsStripped(r.value.missingKeywords, Whitespace)
  {
    var digits := ScoreCapture(t);
    if digits.Some? && |digits.value| > MaxIntDigits then None
    else
      var score := if digits.Some? then DecimalValue(digits.value) else 0;
      Some(Analysis(score, VerdictOf(t), SummaryOf(t), MissingOf(t)))
  }


  /** How ParseAnalysis reads once the score pattern has matched. */
  lemma ParseAnalysisScore(t: string, ds: string)
    requires ScoreCapture(t) == Some(ds)
    ensures ParseAnalysis(t).None? <==> |ds| > MaxIntDigits
    ensures ParseAnalysis(t).Some? ==> ParseAnalysis(t).value.score == DecimalValue(ds)
  {
    var digits := ScoreCapture(t);
    assert digits == Some(ds);
  }

  // ---------------------------------------------------------------------
  // The missing-skills list on the result page
  // ---------------------------------------------------------------------

  /** A line of whitespace only, which the list comprehension's filter drops. */
  predicate IsBlank(line: string) {
    LeadLen(line, Whitespace) == |line|
  }

  /** The filter's test `kw.strip()` is falsy exactly for blank lines. */
  lemma BlankIffStripEmpty(line: string)
    ensures IsBlank(line) <==> Strip(line, Whitespace) == []
  {
    if AllIn(line, Whitespace) {
      assert line[..|line|] == line;
      LeadLenUnique(line, Whitespace, |line|);
    }
    if IsBlank(line) {
      assert line[..|line|] == line;
    }
  }

  /** The lines the comprehension keeps, in their original order. */
  function KeptLines(ls: seq<string>): (r: seq<string>)
    ensures |r| <= |ls|
    ensures forall i :: 0 <= i < |r| ==> r[i] in ls && !IsBlank(r[i])
    ensures (forall i :: 0 <= i < |ls| ==> IsBlank(ls[i])) <==> r == []
  {
    if ls == [] then []
    else if IsBlank(ls[0]) then KeptLines(ls[1..])
    else [ls[0]] + KeptLines(ls[1..])
  }

  /** Filtering distributes over concatenation, so every kept line keeps its place relative to the others. */
  lemma {:induction false} KeptLinesAppend(xs: seq<string>, ys: seq<string>)
    ensures KeptLines(xs + ys) == KeptLines(xs) + KeptLines(ys)
  {
    if xs == [] {
      assert xs + ys == ys;
    } else {
      var zs := xs + ys;
      assert zs[0] == xs[0] && zs[1..] == xs[1..] + ys;
      KeptLinesAppend(xs[1..], ys);
      if !IsBlank(xs[0]) {
        calc {
          KeptLines(zs);
          [xs[0]] + KeptLines(xs[1..] + ys);
          [xs[0]] + (KeptLines(xs[1..]) + KeptLines(ys));
          ([xs[0]] + KeptLines(xs[1..])) + KeptLines(ys);
        }
      }
    }
  }

  /** One list item: `"- " + kw.strip('- ')`. */
  function Bullet(line: string): (r: string)
    ensures |r| >= 2 && r[..2] == "- "
    ensures IsStripped(r[2..], DashOrSpace)
    ensures '\n' !in line ==> '\n' !in r
  {
    var item := Strip(line, DashOrSpace);
    assert ("- " + item)[2..] == item;
    "- " + item
  }

  function Bullets(ls: seq<string>): (r: seq<string>)
    ensures |r| == |ls|
    ensures forall i :: 0 <= i < |ls| ==> r[i] == Bullet(ls[i])
  {
    if ls == [] then [] else [Bullet(ls[0])] + Bullets(ls[1..])
  }

  /** The `missing_list` text: the non-blank lines of the field, each made a list item, joined by newlines. */
  function FormatMissingList(missing: string): (r: string)
    ensures r == [] <==> KeptLines(SplitLines(missing)) == []
    ensures r != [] ==> |r| >= 2 && r[..2] == "- "
  {
    JoinLines(Bullets(KeptLines(SplitLines(missing))))
  }

  /**
   * The list has exactly one line per non-blank line of the field, in the
   * same order; each starts with "- " followed by that line with its dashes
   * and spaces stripped. A field with no non-blank line gives an empty list.
   */
  lemma FormatMissingListLines(missing: string)
    ensures var kept := KeptLines(SplitLines(missing));
            kept == [] ==> FormatMissingList(missing) == []
    ensures var kept := KeptLines(SplitLines(missing));
            kept != [] ==> SplitLines(FormatMissingList(missing)) == Bullets(kept)
    ensures var kept := KeptLines(SplitLines(missing));
            forall i :: 0 <= i < |kept| ==> Bullets(kept)[i] == "- " + Strip(kept[i], DashOrSpace)
  {
    var lines := SplitLines(missing);
    var kept := KeptLines(lines);
    var out := Bullets(kept);
    if kept != [] {
      forall i | 0 <= i < |out| ensures '\n' !in out[i] {
        var j :| 0 <= j < |lines| && lines[j] == kept[i];
      }
      SplitJoin(out);
    }
  }

  /** The "N/A" fallback of the field is shown as the single item "- N/A". */
  lemma FormatNotAvailable()
    ensures FormatMissingList(NotAvailable) == "- N/A"
  {
    SplitLinesNoNewline(NotAvailable);
    assert KeptLines([NotAvailable]) == [NotAvailable];
    StripStripped(NotAvailable, DashOrSpace);
    assert Bullet(NotAvailable) == "- " + NotAvailable == "- N/A";
  }
}
