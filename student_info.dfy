/** The `student_info` table and the scan step of the reader page:
    decode the payload, ask the re-entry rule, store the entry
    (main.py:30-60, main.py:133-164, main.py:189-195). */
module StudentInfo {
  import opened Wrappers
  import opened Text
  import opened Payload
  import opened Timestamp
  import opened Policy

  /** One row: `id`, `name`, `branch`, `roll_number`, `timestamp` (TEXT). */
  datatype Row = Row(id: int, name: string, branch: string, rollNumber: string, timestamp: string)

  /** `WHERE name = ? AND branch = ? AND roll_number = ?`. */
  predicate Matches(row: Row, key: Identity) {
    row.name == key.name && row.branch == key.branch && row.rollNumber == key.rollNumber
  }

  /** `SELECT timestamp ... ORDER BY timestamp DESC LIMIT 1`: the greatest
      timestamp text among the rows of `key`, none if it has no row. */
  function LastEntry(rows: seq<Row>, key: Identity): (r: Option<string>)
    ensures r.None? <==> forall i :: 0 <= i < |rows| ==> !Matches(rows[i], key)
    ensures r.Some? ==> exists i :: 0 <= i < |rows| && Matches(rows[i], key) && rows[i].timestamp == r.value
  {
    if rows == [] then None
    else
      var rest := LastEntry(rows[..|rows| - 1], key);
      var row := rows[|rows| - 1];
      if !Matches(row, key) then rest
      else if rest.Some? && !TextLess(rest.value, row.timestamp) then rest
      else Some(row.timestamp)
  }

  /** No row of `key` has a greater timestamp than the one the query returns. */
  lemma {:induction false} LastEntryIsGreatest(rows: seq<Row>, key: Identity, i: int)
    requires 0 <= i < |rows| && Matches(rows[i], key)
    ensures LastEntry(rows, key).Some? && TextAtMost(rows[i].timestamp, LastEntry(rows, key).value)
  {
    var n := |rows| - 1;
    var rest := LastEntry(rows[..n], key);
    var row := rows[n];
    if i < n {
      assert rows[..n][i] == rows[i];
      LastEntryIsGreatest(rows[..n], key, i);
      if Matches(row, key) && TextLess(rest.value, row.timestamp) && rows[i].timestamp != rest.value {
        TextLessTransitive(rows[i].timestamp, rest.value, row.timestamp);
      }
    } else if rest.Some? && !TextLess(rest.value, row.timestamp) {
      TextLessTotal(rest.value, row.timestamp);
    }
  }

  /** Rows whose timestamps all parse, as every row this program writes does. */
  predicate WellFormed(rows: seq<Row>) {
    forall i :: 0 <= i < |rows| ==> Parse(rows[i].timestamp).Some?
  }

  /** The instant a well-formed row records, in seconds. */
  function SecondsOf(row: Row): int
    requires Parse(row.timestamp).Some?
  {
    ToSeconds(Parse(row.timestamp).value)
  }

  /** What `can_enter_data` decides; `Malformed` where `strptime` raises. */
  datatype Verdict = Allow | Deny | Malformed(text: string)

  /** `can_enter_data`: the latest stored timestamp of `key`, parsed, against `now`. */
  function CanEnterData(rows: seq<Row>, key: Identity, now: DateTime): Verdict
    requires Timestamp.Valid(now)
  {
    var last := LastEntry(rows, key);
    if last.Some? && Parse(last.value).None? then Malformed(last.value)
    else
      var lastSeconds := if last.None? then None else Some(ToSeconds(Parse(last.value).value));
      if MayEnter(lastSeconds, ToSeconds(now)) then Allow else Deny
  }

  /** On well-formed rows the query never fails, and an identity is let in
      exactly when none of its entries lies less than THRESHOLD seconds
      before `now`: the text order the query uses is the order of time. */
  lemma CanEnterDataMeaning(rows: seq<Row>, key: Identity, now: DateTime)
    requires WellFormed(rows) && Timestamp.Valid(now)
    ensures !CanEnterData(rows, key, now).Malformed?
    ensures CanEnterData(rows, key, now) == Allow
            <==> forall i :: 0 <= i < |rows| && Matches(rows[i], key) ==> SecondsOf(rows[i]) + THRESHOLD <= ToSeconds(now)
  {
    var last := LastEntry(rows, key);
    if last.Some? {
      var j :| 0 <= j < |rows| && Matches(rows[j], key) && rows[j].timestamp == last.value;
      forall i | 0 <= i < |rows| && Matches(rows[i], key)
        ensures SecondsOf(rows[i]) <= SecondsOf(rows[j])
      {
        LastEntryIsGreatest(rows, key, i);
        var a, b := Parse(rows[i].timestamp).value, Parse(rows[j].timestamp).value;
        FormatParse(rows[i].timestamp);
        FormatParse(rows[j].timestamp);
        if rows[i].timestamp != rows[j].timestamp {
          FormatOrder(a, b);
          SecondsOrder(a, b);
        }
      }
    }
  }

  /** The row a scan stores, and whose timestamp then is the latest of its
      identity: every earlier entry lies at least THRESHOLD seconds back. */
  lemma StoredEntryIsLatest(rows: seq<Row>, key: Identity, now: DateTime, id: int)
    requires WellFormed(rows) && Timestamp.Valid(now) && CanEnterData(rows, key, now) == Allow
    ensures LastEntry(rows + [Row(id, key.name, key.branch, key.rollNumber, Format(now))], key) == Some(Format(now))
  {
    var row := Row(id, key.name, key.branch, key.rollNumber, Format(now));
    var rows' := rows + [row];
    assert rows'[..|rows|] == rows;
    var last := LastEntry(rows, key);
    if last.Some? {
      CanEnterDataMeaning(rows, key, now);
      var j :| 0 <= j < |rows| && Matches(rows[j], key) && rows[j].timestamp == last.value;
      var a := Parse(rows[j].timestamp).value;
      FormatParse(rows[j].timestamp);
      SecondsOrder(a, now);
      FormatOrder(a, now);
      TextLessIrreflexive(Format(now));
    }
  }

  /** A first scan is let in; the same identity 29 seconds later is turned
      away, at 30 seconds and after it is let in again. */
  lemma ReentryScenario(key: Identity, t0: DateTime, id: int)
    requires Timestamp.Valid(t0) && t0.second == 0
    ensures CanEnterData([], key, t0) == Allow
    ensures var rows := [Row(id, key.name, key.branch, key.rollNumber, Format(t0))];
            CanEnterData(rows, key, t0.(second := THRESHOLD - 1)) == Deny
            && CanEnterData(rows, key, t0.(second := THRESHOLD)) == Allow
            && CanEnterData(rows, key, t0.(second := THRESHOLD + 1)) == Allow
  {
    var rows := [Row(id, key.name, key.branch, key.rollNumber, Format(t0))];
    assert rows[..0] == [];
    assert LastEntry(rows, key) == Some(Format(t0));
    ParseFormat(t0);
  }

  /** The next `INTEGER PRIMARY KEY`: one more than the greatest id, 1 in an
      empty table (so ids are reused after the table is emptied). */
  function NextId(rows: seq<Row>): (r: int)
    ensures rows == [] ==> r == 1
    ensures rows != [] ==> exists i :: 0 <= i < |rows| && rows[i].id == r - 1
    ensures forall i :: 0 <= i < |rows| ==> rows[i].id < r
  {
    if rows == [] then 1
    else if |rows| == 1 then rows[0].id + 1
    else
      var rest := NextId(rows[..|rows| - 1]);
      var last := rows[|rows| - 1].id;
      if last < rest then rest else last + 1
  }

  predicate DistinctIds(rows: seq<Row>) {
    forall i, j :: 0 <= i < j < |rows| ==> rows[i].id != rows[j].id
  }

  /** The outcome of one press of "Capture Image". */
  datatype Outcome = NoCodeFound | Stored(row: Row) | Denied | MalformedTimestamp(text: string)

  /** The `student_info` table of `student_info.db`. */
  class Table {
    var rows: seq<Row>

    ghost predicate Valid()
      reads this
    {
      DistinctIds(rows)
    }

    /** `CREATE TABLE IF NOT EXISTS` on a new database: an empty table. */
    constructor ()
      ensures Valid() && rows == []
    {
      rows := [];
    }

    /** `INSERT INTO student_info (name, branch, roll_number, timestamp)`:
        one row appended under a fresh id; nothing else changes. */
    method Insert(name: string, branch: string, rollNumber: string, timestamp: string) returns (row: Row)
      requires Valid()
      modifies this
      ensures Valid()
      ensures row == Row(NextId(old(rows)), name, branch, rollNumber, timestamp)
      ensures rows == old(rows) + [row]
    {
      row := Row(NextId(rows), name, branch, rollNumber, timestamp);
      rows := rows + [row];
    }

    /** `DELETE FROM student_info`: every row goes, and no identity has an
        entry any more. */
    method ClearAll()
      modifies this
      ensures Valid() && rows == []
      ensures forall key :: LastEntry(rows, key).None?
    {
      rows := [];
    }

    /** The reader page after "Capture Image": `codes` are the payloads the
        QR decoder found in the frame; the first one is decoded, checked
        against the re-entry rule at `now` and, if allowed, stored with
        `now` as its timestamp. */
    method Scan(codes: seq<string>, now: DateTime) returns (outcome: Outcome)
      requires Valid() && Timestamp.Valid(now)
      modifies this
      ensures Valid()
      ensures codes == [] ==> outcome == NoCodeFound && rows == old(rows)
      ensures codes != [] ==>
        var key := Decode(codes[0]);
        match CanEnterData(old(rows), key, now)
        case Allow =>
          outcome == Stored(Row(NextId(old(rows)), key.name, key.branch, key.rollNumber, Format(now)))
          && rows == old(rows) + [outcome.row]
        case Deny => outcome == Denied && rows == old(rows)
        case Malformed(t) => outcome == MalformedTimestamp(t) && rows == old(rows)
      ensures WellFormed(old(rows)) ==> WellFormed(rows) && !outcome.MalformedTimestamp?
      ensures WellFormed(old(rows)) && outcome.Stored? ==> LastEntry(rows, Decode(codes[0])) == Some(Format(now))
    {
      if codes == [] {
        return NoCodeFound;
      }
      var key := DecodePayload(codes[0]);
      var verdict := CanEnterData(rows, key, now);
      if WellFormed(rows) {
        CanEnterDataMeaning(rows, key, now);
      }
      match verdict
      case Allow =>
        if WellFormed(rows) {
          StoredEntryIsLatest(rows, key, now, NextId(rows));
        }
        ParseFormat(now);
        var row := Insert(key.name, key.branch, key.rollNumber, Format(now));
        outcome := Stored(row);
      case Deny =>
        outcome := Denied;
      case Malformed(t) =>
        outcome := MalformedTimestamp(t);
    }
  }
}
