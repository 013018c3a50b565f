/**
 * The analysis store: one table, `analyses`, whose rows carry an
 * auto-increment id, an insertion timestamp, the six values an analysis
 * produces and a `shortlisted` flag.  Every operation opens the table, runs
 * one SQL statement and closes it again; here the table is an object whose
 * rows are a sequence that the statements read and reassign.
 */
module Database {
  import opened Wrappers

  /** One row of `analyses`, columns in declaration order. */
  datatype Record = Record(
    id: int,
    timestamp: int,
    resumeName: string,
    jdName: string,
    score: int,
    verdict: string,
    summary: string,
    missingKeywords: string,
    shortlisted: int)

  /**
   * What a statement raises: `OperationalError` when the table is missing,
   * which preparing the statement reports before any parameter is bound, and
   * `OverflowError` when an integer parameter does not fit a SQLite INTEGER.
   */
  datatype StoreError = NoSuchTable | IntegerOverflow

  /** The range of a SQLite INTEGER, a signed 64-bit value: sqlite3 refuses to bind an int outside it. */
  predicate InInt64(x: int) {
    -0x8000_0000_0000_0000 <= x < 0x8000_0000_0000_0000
  }

  /** The value `1 if status else 0` that the update writes. */
  function FlagOf(status: bool): (f: int)
    ensures f == 0 || f == 1
    ensures f == 1 <==> status
  {
    if status then 1 else 0
  }

  predicate FlagBinary(r: Record) {
    r.shortlisted == 0 || r.shortlisted == 1
  }

  /** Ids grow along the table, so no two rows share one. */
  ghost predicate IdsIncreasing(rows: seq<Record>) {
    forall i, j :: 0 <= i < j < |rows| ==> rows[i].id < rows[j].id
  }

  /** What `ORDER BY timestamp DESC` promises: no row is older than one listed after it. */
  ghost predicate NewestFirstOrder(s: seq<Record>) {
    forall i, j :: 0 <= i < j < |s| ==> s[i].timestamp >= s[j].timestamp
  }

  /** `WHERE shortlisted = 1`: the rows whose flag is 1, in table order. */
  function Shortlisted(rows: seq<Record>): (r: seq<Record>)
    ensures multiset(r) <= multiset(rows)
    ensures forall x :: x in r <==> x in rows && x.shortlisted == 1
  {
    if rows == [] then []
    else
      var rest := Shortlisted(rows[1..]);
      assert rows == [rows[0]] + rows[1..];
      if rows[0].shortlisted == 1 then [rows[0]] + rest else rest
  }

  /** `UPDATE analyses SET shortlisted = f WHERE id = id`. */
  function SetFlag(rows: seq<Record>, id: int, f: int): (r: seq<Record>)
    ensures |r| == |rows|
    ensures forall k :: 0 <= k < |rows| ==>
              r[k] == if rows[k].id == id then rows[k].(shortlisted := f) else rows[k]
  {
    if rows == [] then []
    else
      var rest := SetFlag(rows[1..], id, f);
      assert forall k :: 1 <= k < |rows| ==> rows[1..][k - 1] == rows[k];
      [if rows[0].id == id then rows[0].(shortlisted := f) else rows[0]] + rest
  }

  /** Places `x` in front of the first row that is not newer than it. */
  function Insert(x: Record, s: seq<Record>): (r: seq<Record>)
    requires NewestFirstOrder(s)
    ensures NewestFirstOrder(r)
    ensures multiset(r) == multiset(s) + multiset{x}
    ensures forall y :: y in r ==> y == x || y in s
  {
    if s == [] || x.timestamp >= s[0].timestamp then
      PrependNewest(x, s);
      [x] + s
    else
      var rest := Insert(x, s[1..]);
      HeadIsNewest(s);
      PrependNewest(s[0], rest);
      assert s == [s[0]] + s[1..];
      [s[0]] + rest
  }

  /** The head of an ordered listing is at least as new as every later row. */
  lemma HeadIsNewest(s: seq<Record>)
    requires s != [] && NewestFirstOrder(s)
    ensures forall y :: y in s[1..] ==> s[0].timestamp >= y.timestamp
  {
    forall y | y in s[1..] ensures s[0].timestamp >= y.timestamp {
      var j :| 0 <= j < |s[1..]| && s[1..][j] == y;
      assert s[j + 1] == y;
    }
  }

  /** A row at least as new as every row of an ordered listing can go in front of it. */
  lemma PrependNewest(h: Record, t: seq<Record>)
    requires NewestFirstOrder(t)
    requires forall y :: y in t ==> h.timestamp >= y.timestamp
    ensures NewestFirstOrder([h] + t)
  {
    var r := [h] + t;
    forall i, j | 0 <= i < j < |r| ensures r[i].timestamp >= r[j].timestamp {
      assert r[j] == t[j - 1];
      if i > 0 {
        assert r[i] == t[i - 1];
      }
    }
  }

  /** One ordering that `ORDER BY timestamp DESC` may return; rows with equal timestamps may come in any order. */
  function NewestFirst(rows: seq<Record>): (r: seq<Record>)
    ensures NewestFirstOrder(r)
    ensures multiset(r) == multiset(rows)
  {
    if rows == [] then []
    else
      assert rows == [rows[0]] + rows[1..];
      Insert(rows[0], NewestFirst(rows[1..]))
  }

  /** The in-memory image of the `analyses` table in `resume_data.db`. */
  class AnalysisTable {
    /** Whether `CREATE TABLE` has run. */
    var created: bool
    var rows: seq<Record>
    /** The id the next insert receives (AUTOINCREMENT never reuses an id). */
    var nextId: int

    ghost predicate Valid()
      reads this
    {
      && 1 <= nextId
      && (!created ==> rows == [])
      && IdsIncreasing(rows)
      && forall k :: 0 <= k < |rows| ==> 1 <= rows[k].id < nextId && FlagBinary(rows[k]) && InInt64(rows[k].score)
    }

    /** A database file without the table. */
    constructor ()
      ensures Valid() && !created && rows == [] && nextId == 1
    {
      created := false;
      rows := [];
      nextId := 1;
    }

    /** `CREATE TABLE IF NOT EXISTS`: creates the table once and leaves an existing one alone. */
    method InitDb()
      requires Valid()
      modifies this
      ensures Valid() && created
      ensures rows == old(rows) && nextId == old(nextId)
    {
      created := true;
    }

    /**
     * `INSERT` of one analysis, returning `lastrowid`.  `now` is the value of
     * `CURRENT_TIMESTAMP` at the insert; the flag takes its default 0. A
     * score outside the 64-bit range is refused when it is bound.
     */
    method AddAnalysis(now: int, resumeName: string, jdName: string, score: int,
                       verdict: string, summary: string, missingKeywords: string)
      returns (r: Result<int, StoreError>)
      requires Valid()
      modifies this
      ensures Valid() && created == old(created)
      ensures !old(created) ==> r == Failure(NoSuchTable) && rows == old(rows) && nextId == old(nextId)
      ensures old(created) && !InInt64(score) ==> r == Failure(IntegerOverflow) && rows == old(rows) && nextId == old(nextId)
      ensures old(created) && InInt64(score) ==> r.Success?
      ensures r.Success? ==>
                rows == old(rows) + [Record(r.value, now, resumeName, jdName, score, verdict, summary, missingKeywords, 0)]
      ensures r.Success? ==> forall k :: 0 <= k < |old(rows)| ==> old(rows)[k].id < r.value
    {
      if !created {
        return Failure(NoSuchTable);
      }
      if !InInt64(score) {
        return Failure(IntegerOverflow);
      }
      var id := nextId;
      rows := rows + [Record(id, now, resumeName, jdName, score, verdict, summary, missingKeywords, 0)];
      nextId := nextId + 1;
      r := Success(id);
    }

    /** `SELECT * … ORDER BY timestamp DESC`. */
    method GetAllAnalyses() returns (r: Result<seq<Record>, StoreError>)
      requires Valid()
      ensures !created ==> r == Failure(NoSuchTable)
      ensures created ==> r.Success? && NewestFirstOrder(r.value) && multiset(r.value) == multiset(rows)
    {
      if !created {
        return Failure(NoSuchTable);
      }
      r := Success(NewestFirst(rows));
    }

    /** `SELECT * … WHERE shortlisted = 1 ORDER BY timestamp DESC`. */
    method GetShortlisted() returns (r: Result<seq<Record>, StoreError>)
      requires Valid()
      ensures !created ==> r == Failure(NoSuchTable)
      ensures created ==> r.Success? && NewestFirstOrder(r.value)
      ensures r.Success? ==> multiset(r.value) <= multiset(rows)
      ensures r.Success? ==> forall x :: x in r.value <==> x in rows && x.shortlisted == 1
    {
      if !created {
        return Failure(NoSuchTable);
      }
      var s := Shortlisted(rows);
      var listed := NewestFirst(s);
      assert forall x :: x in listed <==> x in multiset(s);
      r := Success(listed);
    }

    /** `UPDATE analyses SET shortlisted = (1 if status else 0) WHERE id = id`; an id outside the 64-bit range is refused when it is bound. */
    method UpdateShortlistStatus(id: int, status: bool) returns (r: Outcome<StoreError>)
      requires Valid()
      modifies this
      ensures Valid() && created == old(created) && nextId == old(nextId)
      ensures !old(created) ==> r == Fail(NoSuchTable) && rows == old(rows)
      ensures old(created) && !InInt64(id) ==> r == Fail(IntegerOverflow) && rows == old(rows)
      ensures old(created) && InInt64(id) ==> r == Pass && rows == SetFlag(old(rows), id, FlagOf(status))
    {
      if !created {
        return Fail(NoSuchTable);
      }
      if !InInt64(id) {
        return Fail(IntegerOverflow);
      }
      SetFlagKeepsTable(rows, id, FlagOf(status), nextId);
      rows := SetFlag(rows, id, FlagOf(status));
      r := Pass;
    }
  }

  /** The update changes flags only, so ids stay increasing and below the counter, scores stay in range, and a 0/1 write keeps flags binary. */
  lemma SetFlagKeepsTable(rows: seq<Record>, id: int, f: int, nextId: int)
    requires IdsIncreasing(rows) && (f == 0 || f == 1)
    requires forall k :: 0 <= k < |rows| ==> 1 <= rows[k].id < nextId && FlagBinary(rows[k]) && InInt64(rows[k].score)
    ensures IdsIncreasing(SetFlag(rows, id, f))
    ensures forall k :: 0 <= k < |rows| ==>
              1 <= SetFlag(rows, id, f)[k].id < nextId && FlagBinary(SetFlag(rows, id, f)[k]) && InInt64(SetFlag(rows, id, f)[k].score)
  {
    var r := SetFlag(rows, id, f);
    assert forall k :: 0 <= k < |rows| ==> r[k].id == rows[k].id && r[k].score == rows[k].score;
  }

  /** Updating an id that no row carries leaves the table as it was. */
  lemma SetFlagUnknownId(rows: seq<Record>, id: int, f: int)
    requires forall k :: 0 <= k < |rows| ==> rows[k].id != id
    ensures SetFlag(rows, id, f) == rows
  {
    var r := SetFlag(rows, id, f);
    assert forall k :: 0 <= k < |rows| ==> r[k] == rows[k];
  }

  /**
   * Set-then-list: after updating an existing id with `status`, the
   * shortlist holds a row with that id exactly when `status` is true.
   */
  lemma ShortlistAfterUpdate(rows: seq<Record>, id: int, status: bool)
    requires exists k :: 0 <= k < |rows| && rows[k].id == id
    ensures (exists x :: x in Shortlisted(SetFlag(rows, id, FlagOf(status))) && x.id == id) <==> status
  {
    var r := SetFlag(rows, id, FlagOf(status));
    var k :| 0 <= k < |rows| && rows[k].id == id;
    if status {
      assert r[k] in r && r[k].shortlisted == 1;
      assert r[k] in Shortlisted(r) && r[k].id == id;
    } else {
      forall x | x in Shortlisted(r) ensures x.id != id {
        var j :| 0 <= j < |r| && r[j] == x;
      }
    }
  }

  /**
   * A row inserted with a timestamp later than every other is listed first
   * by any newest-first listing of the table, whatever order it gives to
   * ties among the older rows.
   */
  lemma NewestInsertListedFirst(rows: seq<Record>, x: Record, s: seq<Record>)
    requires forall k :: 0 <= k < |rows| ==> rows[k].timestamp < x.timestamp
    requires NewestFirstOrder(s) && multiset(s) == multiset(rows + [x])
    ensures s != [] && s[0] == x
  {
    assert x in multiset(rows + [x]);
    assert x in s;
    var j :| 0 <= j < |s| && s[j] == x;
    assert s[0].timestamp >= x.timestamp;
    assert s[0] in multiset(rows + [x]);
    assert s[0] !in rows;
  }
}
