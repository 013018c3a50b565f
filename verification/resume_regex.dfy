/**
 * What the four regular expressions of parse_analysis match, stated the way
 * a regular expression reads (any split of the text into the pattern's
 * pieces) rather than the way the scanning functions of module Resume compute
 * it, and the lemmas that tie the two together.
 */
module ResumeRegex {
  import opened Wrappers
  import opened PyText
  import opened Resume

  // ---------------------------------------------------------------------
  // The padding `\s*[*]*\s*`
  // ---------------------------------------------------------------------

  /**
   * `u[..q]` is what the greedy padding takes: the longest run of whitespace
   * (to `c`), then the longest run of stars (to `d`), then the longest run of
   * whitespace (to `q`).
   */
  ghost predicate GreedyPad(u: string, c: nat, d: nat, q: nat) {
    c <= d <= q <= |u|
    && AllIn(u[..c], Whitespace) && (c == |u| || !IsSpace(u[c]))
    && AllIn(u[c..d], Stars) && (d == |u| || u[d] != '*')
    && AllIn(u[d..q], Whitespace) && (q == |u| || !IsSpace(u[q]))
  }

  /** PadLen ends a greedy padding ... */
  lemma PadLenGreedy(u: string) returns (c: nat, d: nat)
    ensures GreedyPad(u, c, d, PadLen(u))
  {
    c := LeadLen(u, Whitespace);
    d := c + LeadLen(u[c..], Stars);
    var n := PadLen(u);
    assert u[c..][..d - c] == u[c..d];
    assert d == |u| || u[c..][d - c] == u[d];
    assert u[d..][..n - d] == u[d..n];
  }

  /** ... and every greedy padding of `u` ends where PadLen says. */
  lemma GreedyPadUnique(u: string, c: nat, d: nat, q: nat)
    requires GreedyPad(u, c, d, q)
    ensures PadLen(u) == q
  {
    LeadLenUnique(u, Whitespace, c);
    LeadLenFrom(u, c, d, Stars);
    LeadLenFrom(u, d, q, Whitespace);
    PadLenSteps(u, c, d, q);
  }

  /** PadLen is the sum of its three greedy runs. */
  lemma PadLenSteps(u: string, c: nat, d: nat, q: nat)
    requires c <= d <= q <= |u|
    requires LeadLen(u, Whitespace) == c && LeadLen(u[c..], Stars) == d - c && LeadLen(u[d..], Whitespace) == q - d
    ensures PadLen(u) == q
  {
    assert u[LeadLen(u, Whitespace)..] == u[c..];
  }

  /** The padding holds only whitespace and stars. */
  lemma PadLenCovers(u: string, k: nat)
    requires k < PadLen(u)
    ensures IsSpace(u[k]) || u[k] == '*'
  {
    var c, d := PadLenGreedy(u);
    if k < c {
      assert u[..c][k] == u[k];
    } else if k < d {
      assert u[c..d][k - c] == u[k];
    } else {
      assert u[d..PadLen(u)][k - d] == u[k];
    }
  }

  /**
   * Any split of `u` into whitespace, stars and whitespace that is followed
   * by a character that is neither (or by the end) ends where the greedy
   * padding ends: backtracking inside the padding cannot move its end.
   */
  lemma PadLenExact(u: string, c: nat, d: nat, q: nat)
    requires c <= d <= q <= |u|
    requires AllIn(u[..c], Whitespace) && AllIn(u[c..d], Stars) && AllIn(u[d..q], Whitespace)
    requires q == |u| || (!IsSpace(u[q]) && u[q] != '*')
    ensures PadLen(u) == q
  {
    if c < d {
      assert u[c..d][0] == u[c];
      if d < q { assert u[d..q][0] == u[d]; }
      GreedyPadUnique(u, c, d, q);
    } else {
      AllInJoin(u, c, q, Whitespace);
      assert u[q..q] == [];
      GreedyPadUnique(u, q, q, q);
    }
  }

  // ---------------------------------------------------------------------
  // The score pattern `Relevance Score\s*:?\s*[*]*\s*(\d+)`
  // ---------------------------------------------------------------------

  /**
   * One way the tail `\s*:?\s*[*]*\s*\d` of the score pattern matches `u`:
   * whitespace up to `a`, an optional colon up to `b`, whitespace up to `c`,
   * stars up to `d`, whitespace up to `q`, and a digit at `q`.
   */
  ghost predicate ScoreTailParse(u: string, a: nat, b: nat, c: nat, d: nat, q: nat) {
    a <= b <= c <= d <= q < |u|
    && AllIn(u[..a], Whitespace)
    && (b == a || (b == a + 1 && u[a] == ':'))
    && AllIn(u[b..c], Whitespace) && AllIn(u[c..d], Stars) && AllIn(u[d..q], Whitespace)
    && IsDigit(u[q])
  }

  /** The score pattern's tail can match `u` with its digits starting at `q`. */
  ghost predicate ScoreTailMatches(u: string, q: nat) {
    exists a, b, c, d :: ScoreTailParse(u, a, b, c, d, q)
  }

  /** The score pattern's tail can match `u` somewhere. */
  ghost predicate ScoreTailMatchesSome(u: string) {
    exists q :: ScoreTailMatches(u, q)
  }

  /** The score pattern, read as a regular expression, matches with its label at `p`. */
  ghost predicate ScoreRegexMatchesAt(t: string, p: int) {
    At(t, p, ScoreLabel) && ScoreTailMatchesSome(t[p + |ScoreLabel|..])
  }

  /** The greedy padding started at `b` stops at `q` when `u[b..q]` is whitespace, stars, whitespace before a digit. */
  lemma PadLenBeforeDigit(u: string, b: nat, c: nat, d: nat, q: nat)
    requires b <= c <= d <= q < |u| && IsDigit(u[q])
    requires AllIn(u[b..c], Whitespace) && AllIn(u[c..d], Stars) && AllIn(u[d..q], Whitespace)
    ensures PadLen(u[b..]) == q - b
  {
    var v := u[b..];
    assert v[..c - b] == u[b..c] && v[c - b..d - b] == u[c..d] && v[d - b..q - b] == u[d..q];
    assert v[q - b] == u[q];
    PadLenExact(v, c - b, d - b, q - b);
  }

  /** Every way the tail can match puts the digits where the greedy scan puts them. */
  lemma ScoreTailParseGreedy(u: string, a: nat, b: nat, c: nat, d: nat, q: nat)
    requires ScoreTailParse(u, a, b, c, d, q)
    ensures q == ScoreDigitStart(u)
  {
    if b == a + 1 {
      LeadLenUnique(u, Whitespace, a);
      PadLenBeforeDigit(u, b, c, d, q);
    } else {
      AllInJoin(u, a, c, Whitespace);
      if c < d {
        assert u[c..d][0] == u[c];
        LeadLenUnique(u, Whitespace, c);
        assert u[c..c] == [];
        PadLenBeforeDigit(u, c, c, d, q);
      } else {
        AllInJoin(u, c, q, Whitespace);
        LeadLenUnique(u, Whitespace, q);
        assert u[q..q] == [];
        PadLenBeforeDigit(u, q, q, q, q);
      }
    }
  }

  /** Where the greedy scan finds a digit, the tail matches there. */
  lemma ScoreTailFromGreedy(u: string)
    requires ScoreDigitStart(u) < |u| && IsDigit(u[ScoreDigitStart(u)])
    ensures ScoreTailMatches(u, ScoreDigitStart(u))
  {
    var a, b, v := ScoreDigitStartSteps(u);
    ScoreTailFromPad(u, a, b, v, ScoreDigitStart(u));
  }

  lemma ScoreTailFromPad(u: string, a: nat, b: nat, v: string, q: nat)
    requires a <= b <= |u| && v == u[b..]
    requires AllIn(u[..a], Whitespace) && (b == a || (b == a + 1 && u[a] == ':'))
    requires q == b + PadLen(v) && q < |u| && IsDigit(u[q])
    ensures ScoreTailMatches(u, q)
  {
    var c, d := PadLenGreedy(v);
    AllInShiftPrefix(u, b, c, Whitespace);
    AllInShift(u, b, c, d, Stars);
    AllInShift(u, b, d, PadLen(v), Whitespace);
    assert ScoreTailParse(u, a, b, b + c, b + d, q);
  }

  /**
   * The digits can start in only one place, and it is where the greedy scan
   * puts them: no backtracking over the optional parts finds another.
   */
  lemma ScoreTailExact(u: string, q: nat)
    ensures ScoreTailMatches(u, q) <==> q == ScoreDigitStart(u) && q < |u| && IsDigit(u[q])
  {
    if ScoreTailMatches(u, q) {
      var a, b, c, d :| ScoreTailParse(u, a, b, c, d, q);
      ScoreTailParseGreedy(u, a, b, c, d, q);
    }
    if q == ScoreDigitStart(u) && q < |u| && IsDigit(u[q]) {
      ScoreTailFromGreedy(u);
    }
  }

  /** ScoreMatchesAt, which scans greedily, holds exactly where the regular expression matches. */
  lemma ScoreMatchesAtRegex(t: string, p: int)
    ensures ScoreMatchesAt(t, p) <==> ScoreRegexMatchesAt(t, p)
  {
    if At(t, p, ScoreLabel) {
      var u := t[p + |ScoreLabel|..];
      var q0 := ScoreDigitStart(u);
      ScoreTailExact(u, q0);
      assert ScoreDigits(u) != [] <==> q0 < |u| && IsDigit(u[q0]);
      if ScoreTailMatchesSome(u) {
        var q :| ScoreTailMatches(u, q);
        ScoreTailExact(u, q);
      }
    }
  }

  /** The search stops at the leftmost place where the regular expression matches. */
  lemma ScoreSearchFindsLeftmost(t: string, p: nat)
    requires ScoreRegexMatchesAt(t, p)
    requires forall p' :: 0 <= p' < p ==> !ScoreRegexMatchesAt(t, p')
    ensures ScoreSearch(t, 0) == Some(p)
  {
    ScoreMatchesAtRegex(t, p);
    ScoreSearchFirst(t, 0, p);
    ScoreMatchesAtRegex(t, ScoreSearch(t, 0).value);
  }

  /**
   * The score is `int` of the maximal digit run `u[q..e]` at the leftmost
   * match of the score pattern (`u` is the text after its label), and the
   * parse fails exactly when that run is longer than `int()` accepts.
   */
  lemma ScoreOfLeftmostMatch(t: string, p: nat, u: string, q: nat, e: nat)
    requires ScoreRegexMatchesAt(t, p) && u == t[p + |ScoreLabel|..]
    requires forall p' :: 0 <= p' < p ==> !ScoreRegexMatchesAt(t, p')
    requires ScoreTailMatches(u, q)
    requires q < e <= |u| && AllIn(u[q..e], Digits) && (e == |u| || !IsDigit(u[e]))
    ensures ParseAnalysis(t).None? <==> e - q > MaxIntDigits
    ensures ParseAnalysis(t).Some? ==> ParseAnalysis(t).value.score == DecimalValue(u[q..e])
  {
    ScoreSearchFindsLeftmost(t, p);
    ScoreDigitsRun(u, q, e);
    assert ScoreCapture(t) == Some(ScoreDigits(u));
    ParseAnalysisScore(t, u[q..e]);
  }

  /** Where the tail matches, the capture is the maximal digit run that starts there. */
  lemma ScoreDigitsRun(u: string, q: nat, e: nat)
    requires ScoreTailMatches(u, q)
    requires q < e <= |u| && AllIn(u[q..e], Digits) && (e == |u| || !IsDigit(u[e]))
    ensures ScoreDigits(u) == u[q..e]
  {
    ScoreTailExact(u, q);
    LeadRunAt(u, q, e, Digits);
  }

  /** Without a match of the score pattern the score is 0. */
  lemma ScoreWithoutMatch(t: string)
    requires forall p :: !ScoreRegexMatchesAt(t, p)
    ensures ParseAnalysis(t).Some? && ParseAnalysis(t).value.score == 0
  {
    var r := ScoreSearch(t, 0);
    if r.Some? {
      ScoreMatchesAtRegex(t, r.value);
    }
  }

  // ---------------------------------------------------------------------
  // The three text fields
  // ---------------------------------------------------------------------

  /**
   * The verdict is the stripped rest of the line that follows the leftmost
   * `Verdict:` (`u` is the text after it) and the greedy padding.
   */
  lemma VerdictOfLeftmost(t: string, p: nat, u: string, c: nat, d: nat, q: nat, e: nat)
    requires FirstAt(t, VerdictLabel, p) && u == t[p + |VerdictLabel|..]
    requires GreedyPad(u, c, d, q)
    requires q <= e <= |u| && '\n' !in u[q..e] && (e == |u| || u[e] == '\n')
    ensures VerdictOf(t) == Strip(u[q..e], Whitespace)
  {
    AfterLeftmost(t, VerdictLabel, p);
    GreedyPadUnique(u, c, d, q);
    assert AllIn(u[q..e], NotNewline);
    LeadRunAt(u, q, e, NotNewline);
  }

  /**
   * The missing skills are the stripped rest of the text after the leftmost
   * `Missing Skills:` (`u` is the text after it) and the greedy padding.
   */
  lemma MissingOfLeftmost(t: string, p: nat, u: string, c: nat, d: nat, q: nat)
    requires FirstAt(t, MissingLabel, p) && u == t[p + |MissingLabel|..]
    requires GreedyPad(u, c, d, q)
    ensures MissingOf(t) == Strip(u[q..], Whitespace)
  {
    AfterLeftmost(t, MissingLabel, p);
    GreedyPadUnique(u, c, d, q);
  }

  /**
   * The summary is the stripped text from the end of the greedy padding
   * after the leftmost `Summary:` (`u` is the text after it) up to the
   * nearest `Missing Skills:` from there on: the lazy `[\s\S]*?` stops at the
   * first place where the rest of the pattern matches.
   */
  lemma SummaryOfLeftmost(t: string, p: nat, u: string, c: nat, d: nat, q: nat, m: nat)
    requires FirstAt(t, SummaryLabel, p) && u == t[p + |SummaryLabel|..]
    requires GreedyPad(u, c, d, q)
    requires q <= m && At(u, m, MissingLabel)
    requires forall j :: q <= j < m ==> !At(u, j, MissingLabel)
    ensures SummaryOf(t) == Strip(u[q..m], Whitespace)
  {
    AfterLeftmost(t, SummaryLabel, p);
    GreedyPadUnique(u, c, d, q);
    SummaryOfNearest(t, u, q, m);
  }

  lemma SummaryOfNearest(t: string, u: string, q: nat, m: nat)
    requires After(t, SummaryLabel) == Some(u) && q == PadLen(u)
    requires q <= m && At(u, m, MissingLabel)
    requires forall j :: q <= j < m ==> !At(u, j, MissingLabel)
    ensures SummaryOf(t) == Strip(u[q..m], Whitespace)
  {
    IndexOfInSuffix(u, q, m, MissingLabel);
    SummaryOfFound(t, u, q, m - q);
  }

  /** Some `Summary:` is followed, without overlap, by a `Missing Skills:`. */
  ghost predicate SummaryClosed(t: string) {
    exists p, m :: At(t, p, SummaryLabel) && At(t, m, MissingLabel) && p + |SummaryLabel| <= m
  }

  /**
   * The summary falls back to "N/A" when no `Summary:` is followed by a
   * `Missing Skills:`; otherwise it is the stripped text between an
   * occurrence of the first label and an occurrence of the second.
   */
  lemma SummaryFallback(t: string)
    ensures !SummaryClosed(t) ==> SummaryOf(t) == NotAvailable
    ensures SummaryClosed(t) ==> exists i, j :: 0 <= i <= j <= |t| && At(t, j, MissingLabel)
                                            && SummaryOf(t) == Strip(t[i..j], Whitespace)
  {
    if After(t, SummaryLabel).None? {
      return;
    }
    var p0 := IndexOf(t, SummaryLabel, 0).value;
    var u := t[p0 + |SummaryLabel|..];
    assert After(t, SummaryLabel) == Some(u);
    if IndexOf(u[PadLen(u)..], MissingLabel, 0).Some? {
      SummaryFallbackFound(t, p0, u);
    } else {
      SummaryFallbackMissing(t, p0, u);
    }
  }

  /** When a `Missing Skills:` follows the padding, the summary is a stripped slice of `t` ending at it. */
  lemma SummaryFallbackFound(t: string, p0: nat, u: string)
    requires IndexOf(t, SummaryLabel, 0) == Some(p0) && u == t[p0 + |SummaryLabel|..]
    requires After(t, SummaryLabel) == Some(u)
    requires IndexOf(u[PadLen(u)..], MissingLabel, 0).Some?
    ensures SummaryClosed(t)
    ensures exists i, j :: 0 <= i <= j <= |t| && At(t, j, MissingLabel)
                        && SummaryOf(t) == Strip(t[i..j], Whitespace)
  {
    var k := p0 + |SummaryLabel|;
    var n := PadLen(u);
    var j := IndexOf(u[n..], MissingLabel, 0).value;
    var m := k + (n + j);
    SummaryOfFound(t, u, n, j);
    AtInNestedSuffix(t, k, u, n, j, MissingLabel);
    assert At(t, p0, SummaryLabel);
  }

  /** When no `Missing Skills:` follows the padding, none follows any `Summary:`. */
  lemma SummaryFallbackMissing(t: string, p0: nat, u: string)
    requires IndexOf(t, SummaryLabel, 0) == Some(p0) && u == t[p0 + |SummaryLabel|..]
    requires After(t, SummaryLabel) == Some(u)
    requires IndexOf(u[PadLen(u)..], MissingLabel, 0).None?
    ensures SummaryOf(t) == NotAvailable
    ensures !SummaryClosed(t)
  {
    if SummaryClosed(t) {
      var p, m :| At(t, p, SummaryLabel) && At(t, m, MissingLabel) && p + |SummaryLabel| <= m;
      MissingAfterPad(t, p0 + |SummaryLabel|, u, m);
      assert false;
    }
  }

  /** An occurrence of `Missing Skills:` at or after `k` lies past the padding of `t[k..]`, so the search there finds one. */
  lemma MissingAfterPad(t: string, k: nat, u: string, m: nat)
    requires At(t, m, MissingLabel) && k <= m && u == t[k..]
    ensures IndexOf(u[PadLen(u)..], MissingLabel, 0).Some?
  {
    MissingPastPad(t, k, u, m);
    DropTwice(t, k, u, PadLen(u));
    AtShift(t, k + PadLen(u), m - (k + PadLen(u)), MissingLabel);
  }

  /** The padding holds no `M`, so an occurrence of `Missing Skills:` after `k` starts past the padding of `t[k..]`. */
  lemma MissingPastPad(t: string, k: nat, u: string, m: nat)
    requires At(t, m, MissingLabel) && k <= m && u == t[k..]
    ensures k + PadLen(u) <= m
  {
    assert t[m..m + |MissingLabel|][0] == t[m];
    if m < k + PadLen(u) {
      assert u[m - k] == t[m];
      PadLenCovers(u, m - k);
    }
  }

  /** A suffix of a suffix of `t` is a suffix of `t`. */
  lemma DropTwice(t: string, k: nat, u: string, n: nat)
    requires k <= |t| && u == t[k..] && n <= |u|
    ensures u[n..] == t[k + n..]
  {
  }

  // ---------------------------------------------------------------------
  // Replies without labels, and the failure text
  // ---------------------------------------------------------------------

  /** A reply that holds none of the four labels parses to score 0 and "N/A" everywhere. */
  lemma ParseWithoutLabels(t: string)
    requires Absent(ScoreLabel, t) && Absent(VerdictLabel, t) && Absent(SummaryLabel, t) && Absent(MissingLabel, t)
    ensures ParseAnalysis(t) == Some(Analysis(0, NotAvailable, NotAvailable, NotAvailable))
  {
    assert ScoreCapture(t) == None by {
      forall p ensures !ScoreMatchesAt(t, p) { }
    }
  }

  /** The score label does not occur in the text returned when the model call fails. */
  lemma ErrorSentinelLacksScoreLabel()
    ensures Absent(ScoreLabel, ErrorSentinel)
  {
    AbsentByChar(ScoreLabel, ErrorSentinel, 0);
  }

  /** The verdict label does not occur in the text returned when the model call fails. */
  lemma ErrorSentinelLacksVerdictLabel()
    ensures Absent(VerdictLabel, ErrorSentinel)
  {
    AbsentByChar(VerdictLabel, ErrorSentinel, 0);
  }

  /** The summary label does not occur in the text returned when the model call fails. */
  lemma ErrorSentinelLacksSummaryLabel()
    ensures Absent(SummaryLabel, ErrorSentinel)
  {
    AbsentByChar(SummaryLabel, ErrorSentinel, 0);
  }

  /** The missing-skills label does not occur in the text returned when the model call fails. */
  lemma ErrorSentinelLacksMissingLabel()
    ensures Absent(MissingLabel, ErrorSentinel)
  {
    AbsentByChar(MissingLabel, ErrorSentinel, 0);
  }

  /**
   * The text returned when the model call fails parses to the all-fallback
   * analysis, whose missing-skills list shows the single item "- N/A".
   */
  lemma ErrorSentinelParses()
    ensures ParseAnalysis(ErrorSentinel) == Some(Analysis(0, NotAvailable, NotAvailable, NotAvailable))
    ensures FormatMissingList(ParseAnalysis(ErrorSentinel).value.missingKeywords) == "- N/A"
  {
    ErrorSentinelLacksScoreLabel();
    ErrorSentinelLacksVerdictLabel();
    ErrorSentinelLacksSummaryLabel();
    ErrorSentinelLacksMissingLabel();
    ParseWithoutLabels(ErrorSentinel);
    FormatNotAvailable();
  }
}
