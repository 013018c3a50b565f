/**
 * The parts of Python's string semantics that the response parser and the
 * missing-skills formatter rely on: the whitespace class shared by
 * `str.isspace()`, `str.strip()` and the regular-expression class `\s`;
 * `strip` with an explicit character set; `split("\n")` and `"\n".join`;
 * and the leftmost occurrence of a literal, which is how `re.search` locates
 * a fixed label.
 */
module PyText {
  import opened Wrappers

  /** Exactly the characters for which Python's `str.isspace()` holds; `\s` in a `str` pattern matches the same set. */
  predicate IsSpace(c: char) {
    var n := c as int;
    (0x09 <= n <= 0x0D) || (0x1C <= n <= 0x20) || n == 0x85 || n == 0xA0 || n == 0x1680
    || (0x2000 <= n <= 0x200A) || n == 0x2028 || n == 0x2029 || n == 0x202F || n == 0x205F || n == 0x3000
  }

  /** An ASCII decimal digit. */
  predicate IsDigit(c: char) {
    '0' <= c <= '9'
  }

  /** The character classes the parser skips, captures or strips. */
  datatype CharClass =
    | Whitespace     // `\s`, and what `str.strip()` removes
    | Stars          // `[*]`
    | Digits         // `\d`
    | NotNewline     // `.` without DOTALL
    | DashOrSpace    // what `str.strip('- ')` removes

  predicate InClass(c: char, cls: CharClass) {
    match cls
    case Whitespace => IsSpace(c)
    case Stars => c == '*'
    case Digits => IsDigit(c)
    case NotNewline => c != '\n'
    case DashOrSpace => c == '-' || c == ' '
  }

  ghost predicate AllIn(s: string, cls: CharClass) {
    forall k :: 0 <= k < |s| ==> InClass(s[k], cls)
  }

  /** Neither end of `s` is a character of `cls`: what `strip` leaves. */
  predicate IsStripped(s: string, cls: CharClass) {
    s == [] || (!InClass(s[0], cls) && !InClass(s[|s| - 1], cls))
  }

  /** How many characters a greedy `[cls]*` consumes at the start of `s`. */
  function LeadLen(s: string, cls: CharClass): (n: nat)
    ensures n <= |s|
    ensures AllIn(s[..n], cls)
    ensures n == |s| || !InClass(s[n], cls)
  {
    if s == [] || !InClass(s[0], cls) then 0 else 1 + LeadLen(s[1..], cls)
  }

  /** How many characters of `cls` end `s`. */
  function TrailLen(s: string, cls: CharClass): (n: nat)
    ensures n <= |s|
    ensures AllIn(s[|s| - n..], cls)
    ensures n == |s| || !InClass(s[|s| - 1 - n], cls)
  {
    if s == [] || !InClass(s[|s| - 1], cls) then 0 else 1 + TrailLen(s[..|s| - 1], cls)
  }

  /** The greedy prefix length is the only one that is all `cls` and cannot be extended. */
  lemma LeadLenUnique(s: string, cls: CharClass, n: nat)
    requires n <= |s| && AllIn(s[..n], cls)
    requires n == |s| || !InClass(s[n], cls)
    ensures LeadLen(s, cls) == n
  {
  }

  /** The trailing counterpart of LeadLenUnique. */
  lemma TrailLenUnique(s: string, cls: CharClass, n: nat)
    requires n <= |s| && AllIn(s[|s| - n..], cls)
    requires n == |s| || !InClass(s[|s| - 1 - n], cls)
    ensures TrailLen(s, cls) == n
  {
  }

  /**
   * Python `s.strip()` (class Whitespace) and `s.strip('- ')` (class DashOrSpace):
   * the result neither starts nor ends with a character of `cls`, and it is
   * empty exactly when `s` is made of `cls` only, and a single line stays a
   * single line (StripEnds says what is removed).
   */
  function Strip(s: string, cls: CharClass): (r: string)
    ensures IsStripped(r, cls)
    ensures r == [] <==> AllIn(s, cls)
    ensures '\n' !in s ==> '\n' !in r
  {
    var a := LeadLen(s, cls);
    var n := TrailLen(s[a..], cls);
    StripEnds(s, cls, a, s[a..], n);
    SliceLacks(s, a, |s| - n, s[a..|s| - n], '\n');
    s[a..|s| - n]
  }

  /** The slice between a maximal leading run and a maximal trailing run of what remains. */
  lemma StripEnds(s: string, cls: CharClass, a: nat, r: string, n: nat)
    requires a <= |s| && r == s[a..] && n <= |r|
    requires AllIn(s[..a], cls) && (a == |s| || !InClass(s[a], cls))
    requires AllIn(r[|r| - n..], cls) && (n == |r| || !InClass(r[|r| - 1 - n], cls))
    ensures a <= |s| - n && IsStripped(s[a..|s| - n], cls)
    ensures AllIn(s[|s| - n..], cls)
    ensures s[a..|s| - n] == [] <==> AllIn(s, cls)
  {
    var b := |s| - n;
    assert r[|r| - n..] == s[b..];
    if a == |s| {
      assert s[..a] == s;
    } else {
      assert r[0] == s[a];
      assert n < |r|;
      assert s[b - 1] == r[|r| - 1 - n];
    }
  }

  /** `r` is `s` with a run of `cls` taken off each end. */
  ghost predicate TrimmedFrom(r: string, s: string, cls: CharClass) {
    exists a: nat :: a + |r| <= |s| && r == s[a..a + |r|] && AllIn(s[..a], cls) && AllIn(s[a + |r|..], cls)
  }

  /** strip() removes a run of `cls` from each end and nothing else. */
  lemma StripRemovesEnds(s: string, cls: CharClass)
    ensures TrimmedFrom(Strip(s, cls), s, cls)
  {
    TrimmedBySlice(s, cls, LeadLen(s, cls), s[LeadLen(s, cls)..], TrailLen(s[LeadLen(s, cls)..], cls), Strip(s, cls));
  }

  /** The slice left between a leading run `s[..a]` and a trailing run of `u == s[a..]` is `s` trimmed. */
  lemma TrimmedBySlice(s: string, cls: CharClass, a: nat, u: string, n: nat, r: string)
    requires a <= |s| && u == s[a..] && n <= |u| && r == s[a..|s| - n]
    requires AllIn(s[..a], cls) && AllIn(u[|u| - n..], cls)
    ensures TrimmedFrom(r, s, cls)
  {
    assert u[|u| - n..] == s[|s| - n..];
    assert r == s[a..a + |r|];
  }

  /** Stripping a string that is already stripped changes nothing. */
  lemma StripStripped(s: string, cls: CharClass)
    requires IsStripped(s, cls)
    ensures Strip(s, cls) == s
  {
    if s != [] {
      assert LeadLen(s, cls) == 0;
      assert s[0..] == s;
      assert TrailLen(s, cls) == 0;
    }
  }

  /** Characters of `cls` appended to a stripped string are removed again. */
  lemma StripAppended(s: string, tail: string, cls: CharClass)
    requires s != [] && IsStripped(s, cls) && AllIn(tail, cls)
    ensures Strip(s + tail, cls) == s
  {
    var t := s + tail;
    assert LeadLen(t, cls) == 0;
    assert t[0..] == t;
    assert t[|t| - |tail|..] == tail;
    TrailLenUnique(t, cls, |tail|);
    assert t[0..|s|] == s;
  }

  /** Python `"\n".join(ls)`. */
  function JoinLines(ls: seq<string>): (r: string)
    ensures |ls| > 0 ==> |ls[0]| <= |r| && r[..|ls[0]|] == ls[0]
  {
    if |ls| == 0 then "" else if |ls| == 1 then ls[0] else ls[0] + "\n" + JoinLines(ls[1..])
  }

  /**
   * Python `s.split("\n")`: one piece per newline-separated segment, empty
   * segments included, joined back it gives `s`.
   */
  function SplitLines(s: string): (ls: seq<string>)
    ensures ls != []
    ensures forall i :: 0 <= i < |ls| ==> '\n' !in ls[i]
    ensures JoinLines(ls) == s
  {
    if s == [] then [[]]
    else
      var rest := SplitLines(s[1..]);
      assert s == [s[0]] + s[1..];
      if s[0] == '\n' then
        [[]] + rest
      else
        var ls := [[s[0]] + rest[0]] + rest[1..];
        assert |rest| > 1 ==> rest[1..] == ls[1..];
        ls
  }

  lemma SplitLinesNoNewline(a: string)
    requires '\n' !in a
    ensures SplitLines(a) == [a]
  {
    if a != [] {
      SplitLinesNoNewline(a[1..]);
    }
  }

  lemma {:induction false} SplitLinesAfterLine(a: string, b: string)
    requires '\n' !in a
    ensures SplitLines(a + "\n" + b) == [a] + SplitLines(b)
  {
    var s := a + "\n" + b;
    if a == [] {
      assert s[1..] == b;
    } else {
      assert s[1..] == a[1..] + "\n" + b;
      SplitLinesAfterLine(a[1..], b);
      var rest := SplitLines(s[1..]);
      assert rest == [a[1..]] + SplitLines(b);
      assert SplitLines(s) == [[a[0]] + rest[0]] + rest[1..];
      assert [a[0]] + a[1..] == a;
    }
  }

  /** Splitting a join of newline-free lines gives the lines back. */
  lemma {:induction false} SplitJoin(ls: seq<string>)
    requires |ls| >= 1
    requires forall i :: 0 <= i < |ls| ==> '\n' !in ls[i]
    ensures SplitLines(JoinLines(ls)) == ls
  {
    if |ls| == 1 {
      SplitLinesNoNewline(ls[0]);
    } else {
      SplitJoin(ls[1..]);
      SplitLinesAfterLine(ls[0], JoinLines(ls[1..]));
      assert ls == [ls[0]] + ls[1..];
    }
  }

  /** `t` holds `pat` at index `i`. */
  predicate At(t: string, i: int, pat: string) {
    0 <= i && i + |pat| <= |t| && t[i..i + |pat|] == pat
  }

  ghost predicate Absent(pat: string, t: string) {
    forall i :: !At(t, i, pat)
  }

  /** `pat` occurs at `p` in `t` and nowhere before. */
  ghost predicate FirstAt(t: string, pat: string, p: nat) {
    At(t, p, pat) && forall j :: 0 <= j < p ==> !At(t, j, pat)
  }

  /** The leftmost occurrence of `pat` in `t` at or after `from`. */
  function IndexOf(t: string, pat: string, from: nat): (r: Option<nat>)
    decreases |t| - from
    ensures r.Some? ==> from <= r.value && r.value + |pat| <= |t| && At(t, r.value, pat)
    ensures r.Some? ==> forall j :: from <= j < r.value ==> !At(t, j, pat)
    ensures r.None? ==> forall j :: from <= j ==> !At(t, j, pat)
  {
    if |t| < from + |pat| then None
    else if At(t, from, pat) then Some(from)
    else IndexOf(t, pat, from + 1)
  }

  /** The text after the leftmost occurrence of `pat`, if there is one. */
  function After(t: string, pat: string): (r: Option<string>)
    ensures r.None? <==> Absent(pat, t)
    ensures r.Some? ==> exists p :: At(t, p, pat) && r.value == t[p + |pat|..]
  {
    match IndexOf(t, pat, 0)
    case None => None
    case Some(p) => Some(t[p + |pat|..])
  }

  /** Past a line that lacks `pat`, the text after its leftmost occurrence is the same as in the rest. */
  lemma AfterAcrossLine(pat: string, a: string, b: string)
    requires pat != [] && '\n' !in pat && Absent(pat, a)
    ensures After(a + "\n" + b, pat) == After(b, pat)
  {
    match IndexOf(b, pat, 0)
    case None => AfterAcrossLineNone(pat, a, b);
    case Some(q) => AfterAcrossLineSome(pat, a, b, q);
  }

  lemma AfterAcrossLineNone(pat: string, a: string, b: string)
    requires pat != [] && '\n' !in pat && Absent(pat, a)
    requires IndexOf(b, pat, 0) == None
    ensures After(a + "\n" + b, pat) == None && After(b, pat) == None
  {
    AbsentAcrossLine(pat, a, b);
  }

  lemma AfterAcrossLineSome(pat: string, a: string, b: string, q: nat)
    requires pat != [] && '\n' !in pat && Absent(pat, a)
    requires IndexOf(b, pat, 0) == Some(q)
    ensures After(a + "\n" + b, pat) == Some(b[q + |pat|..]) && After(b, pat) == Some(b[q + |pat|..])
  {
    FirstAfterLine(pat, a, b, q);
    DropAfterLine(a, b, q, |pat|);
    AfterFirst(a + "\n" + b, pat, |a| + 1 + q, b[q + |pat|..]);
    AfterIndexed(b, pat, q);
  }

  /** The text after a first occurrence is what After returns. */
  lemma AfterFirst(t: string, pat: string, p: nat, w: string)
    requires FirstAt(t, pat, p) && p + |pat| <= |t| && t[p + |pat|..] == w
    ensures IndexOf(t, pat, 0) == Some(p)
    ensures After(t, pat) == Some(w)
  {
    AfterLeftmost(t, pat, p);
  }

  /** After reads the text past the occurrence IndexOf finds. */
  lemma AfterIndexed(t: string, pat: string, p: nat)
    requires IndexOf(t, pat, 0) == Some(p)
    ensures After(t, pat) == Some(t[p + |pat|..])
  {
  }

  /** Dropping past a first line and its newline leaves a suffix of the rest. */
  lemma DropAfterLine(a: string, b: string, q: nat, n: nat)
    requires q + n <= |b|
    ensures |a| + 1 + q + n <= |a + "\n" + b|
    ensures (a + "\n" + b)[|a| + 1 + q + n..] == b[q + n..]
  {
  }

  /** A slice of `s` lacks every character that `s` lacks. */
  lemma SliceLacks(s: string, i: nat, j: nat, r: string, c: char)
    requires i <= j <= |s| && r == s[i..j]
    ensures c !in s ==> c !in r
  {
    if c !in s {
      forall k | 0 <= k < |r| ensures r[k] != c {
        assert r[k] == s[i + k];
      }
    }
  }

  /** A pattern holding a character that does not occur in `h` does not occur in `h`. */
  lemma AbsentByChar(pat: string, h: string, k: nat)
    requires k < |pat| && pat[k] !in h
    ensures Absent(pat, h)
  {
    forall i | 0 <= i && i + |pat| <= |h| ensures !At(h, i, pat) {
      assert h[i..i + |pat|][k] == h[i + k];
    }
  }

  /** A maximal run of `cls` from `i` to `j` is what LeadLen counts from `i`. */
  lemma LeadLenFrom(u: string, i: nat, j: nat, cls: CharClass)
    requires i <= j <= |u| && AllIn(u[i..j], cls) && (j == |u| || !InClass(u[j], cls))
    ensures LeadLen(u[i..], cls) == j - i
  {
    assert u[i..][..j - i] == u[i..j];
    assert j == |u| || u[i..][j - i] == u[j];
    LeadLenUnique(u[i..], cls, j - i);
  }

  /** A pattern does not occur where `t` holds a character other than its first. */
  lemma NotAtByFirst(t: string, j: nat, pat: string)
    requires j < |t| && pat != [] && t[j] != pat[0]
    ensures !At(t, j, pat)
  {
    if j + |pat| <= |t| {
      assert t[j..j + |pat|][0] == t[j];
    }
  }

  /** Behind a run of stars, a pattern that does not start with a star first occurs right after the run. */
  lemma AtAfterStars(e: string, pat: string, w: string)
    requires AllIn(e, Stars) && pat != [] && pat[0] != '*'
    ensures At(e + pat + w, |e|, pat)
    ensures forall j :: 0 <= j < |e| ==> !At(e + pat + w, j, pat)
    ensures FirstAt(e + pat + w, pat, |e|)
    ensures |e| + |pat| <= |e + pat + w| && (e + pat + w)[|e| + |pat|..] == w
  {
    var t := e + pat + w;
    assert t[|e|..|e| + |pat|] == pat;
    forall j | 0 <= j < |e| ensures !At(t, j, pat) {
      assert t[j] == e[j];
      NotAtByFirst(t, j, pat);
    }
    assert t[|e| + |pat|..] == w;
  }

  /** A pattern that starts with a non-digit does not occur in a run of digits. */
  lemma AbsentFromDigits(pat: string, ds: string)
    requires pat != [] && !IsDigit(pat[0]) && AllIn(ds, Digits)
    ensures Absent(pat, ds)
  {
    AbsentByChar(pat, ds, 0);
  }

  /** A newline-free pattern absent from `a` and `b` is absent from `a + "\n" + b`. */
  lemma AbsentAcrossLine(pat: string, a: string, b: string)
    requires pat != [] && '\n' !in pat
    requires Absent(pat, a) && Absent(pat, b)
    ensures Absent(pat, a + "\n" + b)
  {
    var t := a + "\n" + b;
    forall i | 0 <= i && i + |pat| <= |t| ensures !At(t, i, pat) {
      if i + |pat| <= |a| {
        assert t[i..i + |pat|] == a[i..i + |pat|];
        assert !At(a, i, pat);
      } else if i > |a| {
        assert t[i..i + |pat|] == b[i - |a| - 1..i - |a| - 1 + |pat|];
        assert !At(b, i - |a| - 1, pat);
      } else {
        assert t[i..i + |pat|][|a| - i] == '\n';
      }
    }
  }

  /**
   * A pattern absent from `a` and from `b` is absent from `a + [c] + b` when
   * it does not start with `c` and the last character of `a` occurs in it
   * only as its own last character: no occurrence can straddle `c`.
   */
  lemma AbsentAcrossSep(pat: string, a: string, c: char, b: string)
    requires pat != [] && pat[0] != c && Absent(pat, a) && Absent(pat, b)
    requires a != [] ==> a[|a| - 1] !in pat[..|pat| - 1]
    ensures Absent(pat, a + [c] + b)
  {
    var t := a + [c] + b;
    forall i | 0 <= i && i + |pat| <= |t| ensures !At(t, i, pat) {
      if i + |pat| <= |a| {
        assert t[i..i + |pat|] == a[i..i + |pat|];
        assert !At(a, i, pat);
      } else if i > |a| {
        assert t[i..i + |pat|] == b[i - |a| - 1..i - |a| - 1 + |pat|];
        assert !At(b, i - |a| - 1, pat);
      } else if i == |a| {
        assert t[i..i + |pat|][0] == c;
      } else {
        assert t[i..i + |pat|][|a| - 1 - i] == a[|a| - 1];
        assert pat[..|pat| - 1][|a| - 1 - i] == pat[|a| - 1 - i];
      }
    }
  }

  /** No occurrence of a newline-free pattern starts in a line that lacks it or on the newline after it. */
  lemma NotAtBeforeLine(pat: string, a: string, b: string, i: int)
    requires pat != [] && '\n' !in pat && Absent(pat, a) && 0 <= i <= |a|
    ensures !At(a + "\n" + b, i, pat)
  {
    var t := a + "\n" + b;
    if i + |pat| <= |a| {
      assert t[i..i + |pat|] == a[i..i + |pat|];
      assert !At(a, i, pat);
    } else if i + |pat| <= |t| {
      assert t[i..i + |pat|][|a| - i] == '\n';
    }
  }

  /** Occurrences after the newline are the occurrences in the rest, shifted. */
  lemma AtAfterLine(pat: string, a: string, b: string, i: int)
    requires i > |a|
    ensures At(a + "\n" + b, i, pat) == At(b, i - |a| - 1, pat)
  {
    var t := a + "\n" + b;
    if i + |pat| <= |t| {
      assert t[i..i + |pat|] == b[i - |a| - 1..i - |a| - 1 + |pat|];
    }
  }

  /** Where a newline-free pattern occurs in `a + "\n" + b`, given that it does not occur in `a`. */
  lemma AtAcrossLine(pat: string, a: string, b: string, i: int)
    requires pat != [] && '\n' !in pat && Absent(pat, a)
    ensures At(a + "\n" + b, i, pat) == (i > |a| && At(b, i - |a| - 1, pat))
  {
    if 0 <= i <= |a| {
      NotAtBeforeLine(pat, a, b, i);
    } else if i > |a| {
      AtAfterLine(pat, a, b, i);
    }
  }

  /** Past a line that lacks `pat`, the leftmost occurrence is the leftmost one in the rest. */
  lemma IndexOfAcrossLine(pat: string, a: string, b: string)
    requires pat != [] && '\n' !in pat && Absent(pat, a)
    ensures IndexOf(a + "\n" + b, pat, 0) ==
            match IndexOf(b, pat, 0) case None => None case Some(p) => Some(|a| + 1 + p)
  {
    var r := IndexOf(b, pat, 0);
    if r.None? {
      NoneAcrossLine(pat, a, b);
    } else {
      LeftmostAcrossLine(pat, a, b, r.value);
    }
  }

  /** A newline-free pattern absent from both lines is not found in the joined text. */
  lemma NoneAcrossLine(pat: string, a: string, b: string)
    requires pat != [] && '\n' !in pat && Absent(pat, a)
    requires forall j :: 0 <= j ==> !At(b, j, pat)
    ensures IndexOf(a + "\n" + b, pat, 0) == None
  {
    forall i | 0 <= i ensures !At(a + "\n" + b, i, pat) {
      AtAcrossLine(pat, a, b, i);
    }
  }

  /** The leftmost occurrence in the second line, shifted, is the leftmost one in the joined text. */
  lemma LeftmostAcrossLine(pat: string, a: string, b: string, q: nat)
    requires pat != [] && '\n' !in pat && Absent(pat, a)
    requires IndexOf(b, pat, 0) == Some(q)
    ensures IndexOf(a + "\n" + b, pat, 0) == Some(|a| + 1 + q)
  {
    FirstAfterLine(pat, a, b, q);
    AfterLeftmost(a + "\n" + b, pat, |a| + 1 + q);
  }

  /** Shifted past a line that lacks it, the first occurrence in the second line is the first one overall. */
  lemma FirstAfterLine(pat: string, a: string, b: string, q: nat)
    requires pat != [] && '\n' !in pat && Absent(pat, a)
    requires FirstAt(b, pat, q)
    ensures FirstAt(a + "\n" + b, pat, |a| + 1 + q)
  {
    var t := a + "\n" + b;
    var p := |a| + 1 + q;
    AtAfterLine(pat, a, b, p);
    assert p - |a| - 1 == q;
    forall i | 0 <= i < p ensures !At(t, i, pat) {
      if i <= |a| {
        NotAtBeforeLine(pat, a, b, i);
      } else {
        AtAfterLine(pat, a, b, i);
      }
    }
  }

  /** An occurrence with none before it is what IndexOf and After find. */
  lemma AfterLeftmost(t: string, pat: string, p: nat)
    requires FirstAt(t, pat, p)
    ensures IndexOf(t, pat, 0) == Some(p)
    ensures After(t, pat) == Some(t[p + |pat|..])
  {
  }

  /** Occurrences in a suffix are the occurrences in the whole text, shifted. */
  lemma AtShift(t: string, k: nat, j: int, pat: string)
    requires k <= |t|
    ensures At(t[k..], j, pat) <==> 0 <= j && At(t, k + j, pat)
  {
    if 0 <= j && k + j + |pat| <= |t| {
      assert t[k..][j..j + |pat|] == t[k + j..k + j + |pat|];
    }
  }

  /** An occurrence found in a suffix of a suffix of `t`, and the text before it, seen in `t` itself. */
  lemma AtInNestedSuffix(t: string, k: nat, u: string, n: nat, j: nat, pat: string)
    requires k <= |t| && u == t[k..] && n <= |u|
    requires At(u[n..], j, pat)
    ensures At(t, k + (n + j), pat)
    ensures u[n..][..j] == t[k + n..k + (n + j)]
  {
    AtShift(u, n, j, pat);
    AtShift(t, k, n + j, pat);
  }

  /** Two adjacent runs of one class form a run of that class. */
  lemma AllInJoin(s: string, i: nat, j: nat, cls: CharClass)
    requires i <= j <= |s|
    requires AllIn(s[..i], cls) && AllIn(s[i..j], cls)
    ensures AllIn(s[..j], cls)
  {
    forall k | 0 <= k < j ensures InClass(s[..j][k], cls) {
      if k < i {
        assert s[..j][k] == s[..i][k];
      } else {
        assert s[..j][k] == s[i..j][k - i];
      }
    }
  }

  /** A run inside a suffix of `u` is a run of `u` itself. */
  lemma AllInShift(u: string, b: nat, i: nat, j: nat, cls: CharClass)
    requires b <= |u| && i <= j <= |u| - b
    requires AllIn(u[b..][i..j], cls)
    ensures AllIn(u[b + i..b + j], cls)
  {
    var x := u[b + i..b + j];
    forall k | 0 <= k < |x| ensures InClass(x[k], cls) {
      assert x[k] == u[b..][i..j][k];
    }
  }

  /** A leading run of a suffix of `u` is a run of `u` itself. */
  lemma AllInShiftPrefix(u: string, b: nat, j: nat, cls: CharClass)
    requires b <= |u| && j <= |u| - b
    requires AllIn(u[b..][..j], cls)
    ensures AllIn(u[b..b + j], cls)
  {
    var x := u[b..b + j];
    forall k | 0 <= k < |x| ensures InClass(x[k], cls) {
      assert x[k] == u[b..][..j][k];
    }
  }

  /** The greedy run of `cls` starting at `q` is `u[q..e]` when that is a run of `cls` that cannot be extended. */
  lemma LeadRunAt(u: string, q: nat, e: nat, cls: CharClass)
    requires q <= e <= |u| && AllIn(u[q..e], cls) && (e == |u| || !InClass(u[e], cls))
    ensures u[q..][..LeadLen(u[q..], cls)] == u[q..e]
  {
    assert u[q..][..e - q] == u[q..e];
    assert e == |u| || u[q..][e - q] == u[e];
    LeadLenUnique(u[q..], cls, e - q);
  }

  /** The first occurrence of `pat` from `q` on, found in the suffix `u[q..]`, and the text before it. */
  lemma IndexOfInSuffix(u: string, q: nat, m: nat, pat: string)
    requires q <= m && At(u, m, pat)
    requires forall j :: q <= j < m ==> !At(u, j, pat)
    ensures IndexOf(u[q..], pat, 0) == Some(m - q)
    ensures u[q..][..m - q] == u[q..m]
  {
    var w := u[q..];
    forall j | 0 <= j <= m - q ensures At(w, j, pat) == At(u, q + j, pat) {
      AtShift(u, q, j, pat);
    }
    AfterLeftmost(w, pat, m - q);
  }
}
