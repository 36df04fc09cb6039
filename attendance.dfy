/**
 * The attendance log and its punch cooldown (log_action and get_logs of
 * src/utils.py).
 *
 * The SQLite table `logs` is held in memory as a sequence of rows in id order,
 * together with the AUTOINCREMENT counter. Timestamps are whole seconds; a
 * stored timestamp that does not parse is kept as its text. The clock reading
 * `now` is a parameter, already truncated to whole seconds as the stored
 * timestamps are.
 */
module Attendance {
  import opened Wrappers

  /** A punch within this many seconds of the same person's last one is refused. */
  const Cooldown: int := 60

  /** A stored timestamp: parsed to seconds, or text that does not parse. */
  datatype Stamp = At(seconds: int) | Unparsed(text: string)

  /** One row of the `logs` table. */
  datatype Row = Row(id: nat, name: string, action: string, stamp: Stamp)

  /** What a punch attempt reports. */
  datatype Outcome =
    | Marked(name: string, action: string, time: int)
    | TooSoon(lastAction: string, elapsed: int)

  /** Rows listed in strictly increasing id order. */
  ghost predicate IdsIncreasing(rows: seq<Row>)
  {
    forall i, j :: 0 <= i < j < |rows| ==> rows[i].id < rows[j].id
  }

  /**
   * The row `WHERE name = ? ORDER BY id DESC LIMIT 1` yields: the person's
   * row with the highest id, or None when the person has no row.
   */
  function LatestFor(rows: seq<Row>, name: string): (r: Option<Row>)
    ensures r.None? <==> forall i :: 0 <= i < |rows| ==> rows[i].name != name
    ensures r.Some? ==> r.value in rows && r.value.name == name
    ensures r.Some? && IdsIncreasing(rows) ==>
      forall i :: 0 <= i < |rows| && rows[i].name == name ==> rows[i].id <= r.value.id
  {
    if rows == [] then None
    else if rows[|rows| - 1].name == name then Some(rows[|rows| - 1])
    else
      var prefix := rows[..|rows| - 1];
      assert forall i :: 0 <= i < |rows| - 1 ==> rows[i] == prefix[i];
      LatestFor(prefix, name)
  }

  /**
   * The row that vetoes a punch by `name` at time `now`, if any: the person's
   * latest row, when its timestamp parses and lies less than Cooldown seconds
   * before `now` (or after it, if the clock went back).
   */
  function RecentPunch(rows: seq<Row>, name: string, now: int): (b: Option<Row>)
    ensures b.Some? ==>
      b == LatestFor(rows, name) && b.value.stamp.At? && now - b.value.stamp.seconds < Cooldown
    ensures b.None? && LatestFor(rows, name).Some? ==>
      var last := LatestFor(rows, name).value;
      last.stamp.Unparsed? || now - last.stamp.seconds >= Cooldown
  {
    match LatestFor(rows, name)
    case None => None
    case Some(last) =>
      if last.stamp.At? && now - last.stamp.seconds < Cooldown then Some(last) else None
  }

  /** The rows of one person (`WHERE name = ?`), in table order. */
  function RowsOf(rows: seq<Row>, name: string): (r: seq<Row>)
    ensures forall i :: 0 <= i < |r| ==> r[i].name == name && r[i] in rows
    ensures forall i :: 0 <= i < |rows| && rows[i].name == name ==> rows[i] in r
    ensures IdsIncreasing(rows) ==> IdsIncreasing(r)
  {
    if rows == [] then []
    else
      var rest := RowsOf(rows[..|rows| - 1], name);
      if rows[|rows| - 1].name == name then rest + [rows[|rows| - 1]] else rest
  }

  /**
   * A punch is refused exactly when the person's highest-id row has a
   * parsed timestamp less than Cooldown seconds before `now`; a negative
   * difference (a clock that went back) refuses too.
   */
  lemma RefusedIffRecentLatest(rows: seq<Row>, name: string, now: int)
    requires IdsIncreasing(rows)
    ensures RecentPunch(rows, name, now).Some? <==>
      exists k :: 0 <= k < |rows| && rows[k].name == name &&
        (forall j :: 0 <= j < |rows| && rows[j].name == name ==> rows[j].id <= rows[k].id) &&
        rows[k].stamp.At? && now - rows[k].stamp.seconds < Cooldown
  {
    var latest := LatestFor(rows, name);
    if latest.Some? {
      var last := latest.value;
      var p :| 0 <= p < |rows| && rows[p] == last;
      forall k | 0 <= k < |rows| && rows[k].name == name &&
        (forall j :: 0 <= j < |rows| && rows[j].name == name ==> rows[j].id <= rows[k].id)
        ensures rows[k] == last
      {
        assert rows[k].id == rows[p].id;
      }
    }
  }

  /** A latest row whose timestamp does not parse never refuses a punch. */
  lemma UnparsedStampNeverRefuses(rows: seq<Row>, name: string, now: int)
    requires LatestFor(rows, name).Some? && LatestFor(rows, name).value.stamp.Unparsed?
    ensures RecentPunch(rows, name, now) == None
  {
  }

  /** Only the person's own rows decide whether a punch is refused. */
  lemma {:induction false} OtherPeopleIgnored(rows: seq<Row>, name: string, now: int)
    ensures RecentPunch(rows, name, now) == RecentPunch(RowsOf(rows, name), name, now)
  {
    LatestOwnRows(rows, name);
  }

  /** The latest row of a person is the last of that person's rows. */
  lemma {:induction false} LatestOwnRows(rows: seq<Row>, name: string)
    ensures LatestFor(rows, name) == LatestFor(RowsOf(rows, name), name)
  {
    if rows != [] {
      var prefix := rows[..|rows| - 1];
      var last := rows[|rows| - 1];
      LatestOwnRows(prefix, name);
      if last.name == name {
        var own := RowsOf(prefix, name) + [last];
        assert own[..|own| - 1] == RowsOf(prefix, name);
      }
    }
  }

  /**
   * After a successful punch at `now`, the same person's next punch at
   * `later` is refused exactly when it comes less than Cooldown seconds
   * later, whatever either action is.
   */
  lemma PunchStartsCooldown(rows: seq<Row>, id: nat, name: string, action: string, now: int, later: int)
    ensures RecentPunch(rows + [Row(id, name, action, At(now))], name, later).None? <==>
      later - now >= Cooldown
  {
    var rows' := rows + [Row(id, name, action, At(now))];
    assert rows'[|rows'| - 1] == Row(id, name, action, At(now));
  }

  /** The rows of a table read back newest first. */
  function NewestFirst(rows: seq<Row>): (r: seq<Row>)
    ensures |r| == |rows|
    ensures forall i :: 0 <= i < |rows| ==> r[i] == rows[|rows| - 1 - i]
    ensures multiset(r) == multiset(rows)
  {
    if rows == [] then []
    else
      var prefix := rows[..|rows| - 1];
      assert rows == prefix + [rows[|rows| - 1]];
      [rows[|rows| - 1]] + NewestFirst(prefix)
  }

  /**
   * The `logs` table: rows in id order and the AUTOINCREMENT counter, which
   * is above every id ever handed out.
   */
  class AttendanceLog {
    var rows: seq<Row>
    var nextId: nat

    ghost predicate Valid()
      reads this
    {
      IdsIncreasing(rows) && 1 <= nextId &&
      forall i :: 0 <= i < |rows| ==> 1 <= rows[i].id < nextId
    }

    /**
     * Opens a table holding `existing` rows whose counter last issued
     * `lastIssued` (0 for a freshly created table).
     */
    constructor Open(existing: seq<Row>, lastIssued: nat)
      requires IdsIncreasing(existing)
      requires forall i :: 0 <= i < |existing| ==> 1 <= existing[i].id <= lastIssued
      ensures Valid() && rows == existing && nextId == lastIssued + 1
    {
      rows, nextId := existing, lastIssued + 1;
    }

    /**
     * Records that `name` performed `action` at `now`, unless the person's
     * latest row is too recent. A refused punch changes nothing; an accepted
     * one appends exactly one row, with an id above every existing id.
     */
    method LogAction(name: string, action: string, now: int) returns (ok: bool, outcome: Outcome)
      requires Valid()
      modifies this
      ensures Valid()
      ensures ok <==> RecentPunch(old(rows), name, now).None?
      ensures ok ==>
        rows == old(rows) + [Row(old(nextId), name, action, At(now))] &&
        nextId == old(nextId) + 1 && outcome == Marked(name, action, now)
      ensures ok ==> forall i :: 0 <= i < |old(rows)| ==> old(rows)[i].id < rows[|rows| - 1].id
      ensures !ok ==>
        rows == old(rows) && nextId == old(nextId) &&
        var last := RecentPunch(old(rows), name, now).value;
        outcome == TooSoon(last.action, now - last.stamp.seconds)
    {
      var latest := LatestFor(rows, name);
      if latest.Some? && latest.value.stamp.At? {
        var elapsed := now - latest.value.stamp.seconds;
        if elapsed < Cooldown {
          return false, TooSoon(latest.value.action, elapsed);
        }
      }
      var row := Row(nextId, name, action, At(now));
      rows := rows + [row];
      nextId := nextId + 1;
      ok, outcome := true, Marked(name, action, now);
    }

    /** Every row of the table, in strictly decreasing id order. */
    function GetLogs(): (r: seq<Row>)
      reads this
      requires Valid()
      ensures multiset(r) == multiset(rows)
      ensures forall i, j :: 0 <= i < j < |r| ==> r[i].id > r[j].id
    {
      NewestFirst(rows)
    }
  }
}
