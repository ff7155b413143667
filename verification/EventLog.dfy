/** The firehose log: its rows, the number generator and the retention mark, one SQL
    transaction to a function. */
module EventLog {
  import opened Outcome

  /** What a stored frame decodes to, as far as the log looks at it. */
  datatype Event =
    | Commit(did: string, rev: string)
    | Sync(did: string, rev: string)
    | Identity(did: string)
    | Account(did: string, active: bool)
    | Unreadable

  datatype Frame = Frame(octets: string, event: Event)

  /** A row of the events table. Rows written before the did column existed have none. */
  datatype Row = Row(id: nat, frame: Frame, createdAt: int, did: Option<string>)

  /** Rows in primary-key order, the AUTOINCREMENT high-water mark, and meta.pruned_through. */
  datatype Log = Log(rows: seq<Row>, high: nat, pruned: Option<nat>)

  ghost predicate Ascending(rows: seq<Row>)
  {
    forall i, j :: 0 <= i < j < |rows| ==> rows[i].id < rows[j].id
  }

  ghost predicate Valid(l: Log)
  {
    Ascending(l.rows) && forall r <- l.rows :: 0 < r.id <= l.high
  }

  ghost function Ids(rows: seq<Row>): set<nat> { set r <- rows :: r.id }

  /** MAX(seq), or 0 for an empty table. */
  function Current(rows: seq<Row>): nat
  {
    if rows == [] then 0 else rows[|rows| - 1].id
  }

  lemma CurrentIsMax(rows: seq<Row>)
    requires Ascending(rows)
    ensures forall q <- Ids(rows) :: q <= Current(rows)
    ensures rows != [] ==> Current(rows) in Ids(rows)
  {
    if rows != [] {
      assert rows[|rows| - 1] in rows;
    }
  }

  // ---------------------------------------------------------------- filtering

  function Keep(rows: seq<Row>, p: Row -> bool): (kept: seq<Row>)
    ensures forall r :: r in kept <==> r in rows && p(r)
    ensures |kept| <= |rows|
  {
    if rows == [] then []
    else (if p(rows[0]) then [rows[0]] else []) + Keep(rows[1..], p)
  }

  lemma {:induction false} KeepAscending(rows: seq<Row>, p: Row -> bool)
    requires Ascending(rows)
    ensures Ascending(Keep(rows, p))
  {
    if rows != [] {
      var rest := Keep(rows[1..], p);
      KeepAscending(rows[1..], p);
      forall r | r in rest ensures rows[0].id < r.id {
        var k :| 0 <= k < |rows[1..]| && rows[1..][k] == r;
        assert rows[k + 1] == r;
      }
    }
  }

  /** The last row stays last when it is kept. */
  lemma {:induction false} KeepLast(rows: seq<Row>, p: Row -> bool)
    ensures rows != [] && p(rows[|rows| - 1]) ==>
              Keep(rows, p) != [] && Keep(rows, p)[|Keep(rows, p)| - 1] == rows[|rows| - 1]
  {
    if |rows| > 1 {
      KeepLast(rows[1..], p);
    }
  }

  lemma {:induction false} KeepAll(rows: seq<Row>, p: Row -> bool)
    ensures |Keep(rows, p)| == |rows| <==> forall r <- rows :: p(r)
    ensures |Keep(rows, p)| == |rows| ==> Keep(rows, p) == rows
  {
    if rows != [] {
      KeepAll(rows[1..], p);
      assert rows == [rows[0]] + rows[1..];
    }
  }

  // ---------------------------------------------------------------- append and read

  /** Insert, encode, store. An event of nobody, or of an empty name, is recorded under nobody. A frame that cannot
      be encoded rolls everything back, the number generator included. */
  function Append(l: Log, now: int, did: Option<string>, frame: Option<Frame>): (r: (Log, Option<nat>))
    requires Valid(l)
    ensures Valid(r.0)
    ensures frame.Some? <==> r.1.Some?
    ensures r.1.Some? ==> r.1.value == Current(r.0.rows) && r.1.value > l.high
                          && Ids(r.0.rows) == Ids(l.rows) + {r.1.value}
    ensures r.1.None? ==> r.0 == l
  {
    if frame.None? then (l, None)
    else
      var row := Row(l.high + 1, frame.value, now, if did == Some("") then None else did);
      var rows := l.rows + [row];
      assert Ids(rows) == Ids(l.rows) + {row.id};
      (l.(rows := rows, high := row.id), Some(row.id))
  }

  /** The first row behind a cursor. */
  function ReadNext(rows: seq<Row>, cursor: nat): (r: Option<Row>)
    requires Ascending(rows)
    ensures r.None? ==> forall q <- Ids(rows) :: q <= cursor
    ensures r.Some? ==> r.value in rows && cursor < r.value.id
                        && forall q <- Ids(rows) :: cursor < q ==> r.value.id <= q
  {
    if rows == [] then None
    else if rows[0].id > cursor then Some(rows[0])
    else
      var r := ReadNext(rows[1..], cursor);
      assert Ids(rows) == {rows[0].id} + Ids(rows[1..]);
      r
  }

  // ---------------------------------------------------------------- retention

  predicate Expired(r: Row, cutoff: int, cutoffTime: int)
  {
    r.id <= cutoff && r.createdAt < cutoffTime
  }

  /** The rows one pass leaves. */
  function Survivors(rows: seq<Row>, cutoff: int, cutoffTime: int): (kept: seq<Row>)
    requires Ascending(rows)
    ensures Ascending(kept)
    ensures forall r :: r in kept <==> r in rows && !Expired(r, cutoff, cutoffTime)
    ensures |kept| == |rows| <==> forall r <- rows :: !Expired(r, cutoff, cutoffTime)
    ensures |kept| == |rows| ==> kept == rows
    ensures rows != [] && !Expired(rows[|rows| - 1], cutoff, cutoffTime) ==>
              kept != [] && kept[|kept| - 1] == rows[|rows| - 1]
  {
    var p := (r: Row) => !Expired(r, cutoff, cutoffTime);
    KeepAscending(rows, p);
    KeepAll(rows, p);
    KeepLast(rows, p);
    Keep(rows, p)
  }

  function Retain(l: Log, cutoffTime: int, minEvents: int): (r: Log)
    requires Valid(l)
    ensures Valid(r) && r.high == l.high && Ids(r.rows) <= Ids(l.rows)
  {
    var cutoff := Current(l.rows) - minEvents;
    if cutoff <= 0 then l
    else
      var kept := Survivors(l.rows, cutoff, cutoffTime);
      if |kept| == |l.rows| then l.(rows := kept)
      else l.(rows := kept, pruned := Some(if l.pruned.Some? && l.pruned.value > cutoff then l.pruned.value else cutoff))
  }

  /** Every number one retention pass deletes is at or below the mark it leaves, and the mark never moves back. */
  lemma RetainMarks(l: Log, cutoffTime: int, minEvents: int)
    requires Valid(l)
    ensures var r := Retain(l, cutoffTime, minEvents);
            && (l.pruned.Some? ==> r.pruned.Some? && l.pruned.value <= r.pruned.value)
            && forall q <- Ids(l.rows) - Ids(r.rows) :: r.pruned.Some? && 0 < q <= r.pruned.value
  {
    hide Survivors;
    var r := Retain(l, cutoffTime, minEvents);
    forall q | q in Ids(l.rows) - Ids(r.rows)
      ensures r.pruned.Some? && 0 < q <= r.pruned.value
    {
      var row :| row in l.rows && row.id == q;
      assert row !in r.rows;
    }
  }

  /** The newest event survives retention, and with it MAX(seq), exactly when the call asks to
      keep at least one event or the newest event is too young to delete. */
  lemma RetainKeepsNewest(l: Log, cutoffTime: int, minEvents: int)
    requires Valid(l) && l.rows != []
    ensures Current(Retain(l, cutoffTime, minEvents).rows) == Current(l.rows)
            <==> minEvents > 0 || l.rows[|l.rows| - 1].createdAt >= cutoffTime
    ensures minEvents > 0 ==> Retain(l, cutoffTime, minEvents).rows != []
  {
    hide Survivors;
    var last := l.rows[|l.rows| - 1];
    assert last in l.rows;
    var cutoff := Current(l.rows) - minEvents;
    if cutoff > 0 && Expired(last, cutoff, cutoffTime) {
      var kept := Survivors(l.rows, cutoff, cutoffTime);
      if kept != [] {
        assert kept[|kept| - 1] in kept;
        var k :| 0 <= k < |l.rows| && l.rows[k] == kept[|kept| - 1];
      }
    }
  }

  // ---------------------------------------------------------------- purging an account

  predicate Contains(text: string, needle: string)
  {
    needle <= text || (text != "" && Contains(text[1..], needle))
  }

  /** Recorded under the account, or recorded under nobody and naming it in the frame. */
  predicate Mentions(r: Row, did: string)
  {
    r.did == Some(did) || (r.did.None? && Contains(r.frame.octets, did))
  }

  /** The newest number that mentions the account. */
  function NewestMention(rows: seq<Row>, did: string): (r: Option<nat>)
    requires Ascending(rows)
    ensures r.None? ==> forall x <- rows :: !Mentions(x, did)
    ensures r.Some? ==> (exists x :: x in rows && Mentions(x, did) && x.id == r.value)
                        && forall x <- rows :: Mentions(x, did) ==> x.id <= r.value
  {
    if rows == [] then None
    else
      var last := rows[|rows| - 1];
      assert last in rows;
      if Mentions(last, did) then Some(last.id)
      else
        assert rows == rows[..|rows| - 1] + [last];
        NewestMention(rows[..|rows| - 1], did)
  }

  predicate Outlived(r: Row, did: string, newest: Option<nat>)
  {
    Mentions(r, did) && newest.Some? && r.id < newest.value
  }

  function Purge(l: Log, did: string): (r: Log)
    requires Valid(l)
    ensures Valid(r) && r.high == l.high && r.pruned == l.pruned && Ids(r.rows) <= Ids(l.rows)
  {
    var newest := NewestMention(l.rows, did);
    KeepAscending(l.rows, r => !Outlived(r, did, newest));
    l.(rows := Keep(l.rows, r => !Outlived(r, did, newest)))
  }

  /** Other accounts' rows stay, one row of this account stays if there was any, and that is its newest. */
  lemma PurgeLeavesNewest(l: Log, did: string)
    requires Valid(l)
    ensures var kept := Purge(l, did).rows;
            && (forall r <- l.rows :: !Mentions(r, did) ==> r in kept)
            && (forall r <- kept :: Mentions(r, did) ==> Some(r.id) == NewestMention(l.rows, did))
            && (NewestMention(l.rows, did).Some? ==> NewestMention(l.rows, did).value in Ids(kept))
  {
    var newest := NewestMention(l.rows, did);
    if newest.Some? {
      var x :| x in l.rows && Mentions(x, did) && x.id == newest.value;
      assert x in Purge(l, did).rows;
    }
  }

  /** A purge never touches the newest event. */
  lemma PurgeKeepsNewest(l: Log, did: string)
    requires Valid(l)
    ensures Current(Purge(l, did).rows) == Current(l.rows)
    ensures l.rows != [] ==> Purge(l, did).rows != []
  {
    if l.rows != [] {
      var last := l.rows[|l.rows| - 1];
      var newest := NewestMention(l.rows, did);
      if newest.Some? {
        var x :| x in l.rows && Mentions(x, did) && x.id == newest.value;
        var k :| 0 <= k < |l.rows| && l.rows[k] == x;
        assert x.id <= last.id;
      }
      KeepLast(l.rows, r => !Outlived(r, did, newest));
    }
  }

  // ---------------------------------------------------------------- opening

  /** A placeholder row at the current time, deleted again, lifts the number generator of an
      empty log. A log with events is left alone. */
  function SeedFloor(l: Log, now: int): (r: Log)
    requires Valid(l)
    ensures Valid(r) && r.rows == l.rows && r.pruned == l.pruned && r.high >= l.high
    ensures l.rows != [] ==> r == l
    ensures l.rows == [] && now > 0 ==> r.high >= now
  {
    if |l.rows| > 0 || now <= 0 then l
    else l.(high := if l.high < now then now else l.high)
  }
}
