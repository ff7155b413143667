/** The sequencer object and the subscriber's loop variables, updated in place. Each method is one region the program
    runs with the mutex held, except where it says that it is made of several. */
module SequencerObject {
  import opened Outcome
  import EventLog
  import Firehose

  type Row = EventLog.Row
  type Frame = EventLog.Frame

  class Sequencer {
    var rows: seq<Row>
    var high: nat
    var pruned: Option<nat>
    var closing: bool
    var active: nat

    ghost function Log(): EventLog.Log
      reads this
    {
      EventLog.Log(rows, high, pruned)
    }

    ghost predicate Valid()
      reads this
    {
      EventLog.Valid(Log())
    }

    /** Opening adopts the stored tables and seeds an empty log from the clock. */
    constructor (stored: EventLog.Log, now: int)
      requires EventLog.Valid(stored)
      ensures Valid() && Log() == EventLog.SeedFloor(stored, now)
      ensures !closing && active == 0
    {
      rows, pruned := stored.rows, stored.pruned;
      high := stored.high;
      closing, active := false, 0;
      new;
      if |rows| == 0 && now > 0 && high < now {
        high := now;
      }
    }

    method AppendEvent(now: int, did: Option<string>, frame: Option<Frame>) returns (id: Option<nat>)
      requires Valid()
      modifies this`rows, this`high
      ensures Valid() && pruned == old(pruned)
      ensures old(closing) ==> id.None? && Log() == old(Log())
      ensures !old(closing) ==> (Log(), id) == EventLog.Append(old(Log()), now, did, frame)
    {
      id := None;
      if closing {
        return;
      }
      // The row is inserted first; without an encoding the transaction is rolled back.
      var next := high + 1;
      if frame.None? {
        return;
      }
      rows := rows + [EventLog.Row(next, frame.value, now, if did == Some("") then None else did)];
      high := next;
      id := Some(next);
    }

    method Current() returns (q: nat)
      requires Valid()
      ensures q == EventLog.Current(rows)
      ensures forall p <- EventLog.Ids(rows) :: p <= q
    {
      q := EventLog.Current(rows);
      EventLog.CurrentIsMax(rows);
    }

    method Retain(cutoffTime: int, minEvents: int)
      requires Valid()
      modifies this`rows, this`pruned
      ensures Valid() && Log() == EventLog.Retain(old(Log()), cutoffTime, minEvents)
    {
      var current := Current();
      var cutoff := current - minEvents;
      if cutoff <= 0 {
        return;
      }
      var before := |rows|;
      rows := EventLog.Survivors(rows, cutoff, cutoffTime);
      if before - |rows| > 0 {
        pruned := Some(if pruned.Some? && pruned.value > cutoff then pruned.value else cutoff);
      }
    }

    /** An empty name is refused: it would match every row recorded under nobody. */
    method PurgeAccount(did: string) returns (removed: Option<nat>)
      requires Valid()
      modifies this`rows
      ensures Valid() && (removed.None? <==> did == "")
      ensures Log() == if did == "" then old(Log()) else EventLog.Purge(old(Log()), did)
      ensures removed.Some? ==> removed.value == |old(rows)| - |rows|
      ensures EventLog.Current(rows) == EventLog.Current(old(rows))
    {
      if did == "" {
        return None;
      }
      EventLog.PurgeKeepsNewest(Log(), did);
      var newest := EventLog.NewestMention(rows, did);
      var before := |rows|;
      EventLog.KeepAscending(rows, r => !EventLog.Outlived(r, did, newest));
      rows := EventLog.Keep(rows, r => !EventLog.Outlived(r, did, newest));
      removed := Some(before - |rows|);
    }

    /** The admission region of a subscription. */
    method Register() returns (admitted: bool)
      modifies this`active
      ensures admitted == !closing
      ensures active == old(active) + if admitted then 1 else 0
    {
      if closing {
        return false;
      }
      active := active + 1;
      admitted := true;
    }

    method Deregister()
      modifies this`active
      ensures active == if old(active) > 0 then old(active) - 1 else 0
    {
      if active > 0 {
        active := active - 1;
      }
    }

    method BeginClose()
      modifies this`closing
      ensures closing
    {
      closing := true;
    }

    // -------------------------------------------------------------- healing the tail

    /** What other threads do to the log and the latch while the mutex is free. */
    method Others(log: EventLog.Log, nowClosing: bool)
      requires EventLog.Valid(log)
      modifies this`rows, this`high, this`pruned, this`closing
      ensures Valid() && Log() == log && closing == nowClosing
    {
      rows, high, pruned, closing := log.rows, log.high, log.pruned, nowClosing;
    }

    /** Scans from the newest event back to this account's last #account event. */
    method AccountMatches(did: string, active: bool) returns (matched: bool)
      ensures matched <==> AccountState(rows, did) == Some(active)
    {
      matched := false;
      var k: nat := |rows|;
      assert rows[..k] == rows;
      while k > 0
        invariant k <= |rows| && !matched
        invariant AccountState(rows, did) == AccountState(rows[..k], did)
      {
        k := k - 1;
        assert rows[..k + 1][..k] == rows[..k];
        var event := rows[k].frame.event;
        if event.Account? && event.did == did {
          matched := event.active == active;
          break;
        }
      }
    }

    /** Two locked regions, the scan and the append. In between the log is whatever `meanwhile` says. */
    method ReconcileAccount(did: string, active: bool, now: int, frame: Option<Frame>,
                            meanwhile: EventLog.Log, nowClosing: bool) returns (appended: Option<nat>)
      requires Valid() && EventLog.Valid(meanwhile)
      requires frame.Some? ==> frame.value.event == EventLog.Account(did, active)
      modifies this`rows, this`high, this`pruned, this`closing
      ensures Valid()
      ensures AccountState(old(rows), did) == Some(active) ==> appended.None? && Log() == old(Log()) && closing == old(closing)
      ensures AccountState(old(rows), did) != Some(active) ==>
                closing == nowClosing && (nowClosing || frame.None? ==> appended.None? && Log() == meanwhile)
      ensures AccountState(old(rows), did) != Some(active) && !nowClosing && frame.Some? ==>
                appended.Some? && AccountState(rows, did) == Some(active)
                && (forall other :: other != did ==> AccountState(rows, other) == AccountState(meanwhile.rows, other))
                && (Log(), appended) == EventLog.Append(meanwhile, now, Some(did), frame)
    {
      hide AccountState;
      var matched := AccountMatches(did, active);
      if matched {
        return None;
      }
      Others(meanwhile, nowClosing);
      appended := AppendEvent(now, Some(did), frame);
      if appended.Some? {
        AccountAfter(meanwhile.rows, rows[|rows| - 1]);
      }
    }

    /** Scans from the newest event back to this repository's last #commit or #sync event. */
    method RepoMatches(did: string, rev: string) returns (matched: bool)
      ensures matched <==> RepoRev(rows, did) == Some(rev)
    {
      matched := false;
      var k: nat := |rows|;
      assert rows[..k] == rows;
      while k > 0
        invariant k <= |rows| && !matched
        invariant RepoRev(rows, did) == RepoRev(rows[..k], did)
      {
        k := k - 1;
        assert rows[..k + 1][..k] == rows[..k];
        var event := rows[k].frame.event;
        if (event.Commit? || event.Sync?) && event.did == did {
          matched := event.rev == rev;
          break;
        }
      }
    }

    /** Two locked regions again; a repository without a head is left alone. */
    method ReconcileRepo(did: string, head: Option<string>, now: int, frame: Option<Frame>,
                         meanwhile: EventLog.Log, nowClosing: bool) returns (appended: Option<nat>)
      requires Valid() && EventLog.Valid(meanwhile)
      requires frame.Some? && head.Some? ==> frame.value.event == EventLog.Sync(did, head.value)
      modifies this`rows, this`high, this`pruned, this`closing
      ensures Valid()
      ensures head.None? || RepoRev(old(rows), did) == head ==>
                appended.None? && Log() == old(Log()) && closing == old(closing)
      ensures head.Some? && RepoRev(old(rows), did) != head ==>
                closing == nowClosing && (nowClosing || frame.None? ==> appended.None? && Log() == meanwhile)
      ensures head.Some? && RepoRev(old(rows), did) != head && !nowClosing && frame.Some? ==>
                appended.Some? && RepoRev(rows, did) == head
                && (forall other :: other != did ==> RepoRev(rows, other) == RepoRev(meanwhile.rows, other))
                && (Log(), appended) == EventLog.Append(meanwhile, now, Some(did), frame)
    {
      hide RepoRev;
      if head.None? {
        return None;
      }
      var matched := RepoMatches(did, head.value);
      if matched {
        return None;
      }
      Others(meanwhile, nowClosing);
      appended := AppendEvent(now, Some(did), frame);
      if appended.Some? {
        RepoAfter(meanwhile.rows, rows[|rows| - 1]);
      }
    }
  }

  /** What the log last said about an account. */
  function AccountState(rows: seq<Row>, did: string): Option<bool>
  {
    if rows == [] then None
    else
      var event := rows[|rows| - 1].frame.event;
      if event.Account? && event.did == did then Some(event.active) else AccountState(rows[..|rows| - 1], did)
  }

  lemma AccountAfter(rows: seq<Row>, row: Row)
    ensures forall did :: AccountState(rows + [row], did) ==
              if row.frame.event.Account? && row.frame.event.did == did then Some(row.frame.event.active)
              else AccountState(rows, did)
  {
    assert (rows + [row])[..|rows|] == rows;
  }

  lemma RepoAfter(rows: seq<Row>, row: Row)
    ensures forall did :: RepoRev(rows + [row], did) ==
              if (row.frame.event.Commit? || row.frame.event.Sync?) && row.frame.event.did == did then Some(row.frame.event.rev)
              else RepoRev(rows, did)
  {
    assert (rows + [row])[..|rows|] == rows;
  }

  /** The revision the log last gave for a repository. */
  function RepoRev(rows: seq<Row>, did: string): Option<string>
  {
    if rows == [] then None
    else
      var event := rows[|rows| - 1].frame.event;
      if (event.Commit? || event.Sync?) && event.did == did then Some(event.rev) else RepoRev(rows[..|rows| - 1], did)
  }

  /** A subscriber thread: its cursor, what it was told, and what it was sent. */
  class Subscriber {
    const sequencer: Sequencer
    const start: nat
    const hasCursor: bool
    const refusal: Option<Firehose.Refusal>
    var cursor: nat
    var outdated: bool
    var delivered: seq<nat>

    constructor (s: Sequencer, request: Firehose.Request)
      requires s.Valid()
      ensures sequencer == s && delivered == [] && cursor == start && !outdated
      ensures var w := Firehose.Asking(s.Log(), request);
              start == w.start && hasCursor == w.hasCursor && refusal == w.refusal
    {
      var current := EventLog.Current(s.rows);
      var has := request.From?;
      var at := if has then request.cursor else current;
      sequencer := s;
      hasCursor := has;
      start := at;
      cursor := at;
      refusal := if request.Malformed? then Some(Firehose.InvalidRequest)
                 else if has && request.cursor > current then Some(Firehose.FutureCursor) else None;
      outdated := false;
      delivered := [];
    }

    ghost function View(phase: Firehose.Phase, passed: set<nat>): Firehose.Worker
      reads this
    {
      Firehose.Worker(phase, hasCursor, start, cursor, refusal, outdated, delivered, passed)
    }

    method CheckMark()
      modifies this`outdated
      requires !outdated
      ensures View(Firehose.Checked, {}) == Firehose.Checking(sequencer.Log(), old(View(Firehose.Asked, {})))
    {
      if refusal.None? && hasCursor {
        var mark := sequencer.pruned;
        if mark.Some? && mark.value > 0 && cursor < mark.value {
          outdated := true;
        }
      }
    }

    /** The locked part of one turn of the delivery loop: closing is looked at before the log is read. */
    method NextFrame() returns (leave: bool, row: Option<Row>)
      requires sequencer.Valid()
      ensures leave <==> sequencer.closing || refusal.Some?
      ensures leave ==> row.None?
      ensures !leave ==> row == EventLog.ReadNext(sequencer.rows, cursor)
    {
      if refusal.Some? || sequencer.closing {
        return true, None;
      }
      return false, EventLog.ReadNext(sequencer.rows, cursor);
    }

    method Sent(row: Row)
      modifies this`cursor, this`delivered
      ensures cursor == row.id && delivered == old(delivered) + [row.id]
    {
      cursor := row.id;
      delivered := delivered + [row.id];
    }

    /** The delivery loop. Before each round other threads leave the log and the latch as the round says. A round that
        finds nothing waits; a send that fails, a closed connection after the last round, and closing end it. */
    method Deliver(rounds: seq<Round>)
      requires sequencer.Valid() && forall r <- rounds :: EventLog.Valid(r.log)
      modifies this`cursor, this`delivered, sequencer`rows, sequencer`high, sequencer`pruned, sequencer`closing
      ensures sequencer.Valid()
      ensures var sent := if refusal.Some? then [] else Delivered(rounds, old(cursor));
              delivered == old(delivered) + sent && cursor == LastOf(sent, old(cursor))
    {
      hide Delivered, EventLog.ReadNext, EventLog.Valid;
      if refusal.Some? {
        return;
      }
      ghost var all := Delivered(rounds, cursor);
      ghost var sent := [];
      var turn := 0;
      assert rounds[0..] == rounds;
      while turn < |rounds|
        invariant turn <= |rounds| && sequencer.Valid()
        invariant delivered == old(delivered) + sent && cursor == LastOf(sent, old(cursor))
        invariant all == sent + Delivered(rounds[turn..], cursor)
      {
        var r := rounds[turn];
        assert rounds[turn..][0] == r && rounds[turn..][1..] == rounds[turn + 1..];
        OneRound(rounds[turn..], cursor);
        sequencer.Others(r.log, r.closing);
        turn := turn + 1;
        var leave, row := NextFrame();
        if leave {
          return;
        }
        if row.Some? {
          if !r.sent {
            return;
          }
          Sent(row.value);
          sent := sent + [row.value.id];
        }
      }
      OneRound(rounds[turn..], cursor);
    }

    /** A whole subscription: the comparison with the mark, admission, delivery, and leaving. */
    method Serve(rounds: seq<Round>) returns (admitted: bool)
      requires sequencer.Valid() && !outdated && delivered == [] && cursor == start
      requires forall r <- rounds :: EventLog.Valid(r.log)
      modifies this`cursor, this`delivered, this`outdated, sequencer
      ensures sequencer.Valid() && admitted == !old(sequencer.closing) && sequencer.active == old(sequencer.active)
      ensures outdated <==>
              refusal.None? && hasCursor && old(sequencer.pruned).Some? && start < old(sequencer.pruned).value
      ensures delivered == if admitted && refusal.None? then Delivered(rounds, start) else []
    {
      CheckMark();
      admitted := sequencer.Register();
      if !admitted {
        return;
      }
      Deliver(rounds);
      sequencer.Deregister();
    }
  }

  // ---------------------------------------------------------------- what the loop delivers

  /** The log and the latch as one round of the delivery loop finds them, and whether its send succeeds. */
  datatype Round = Round(log: EventLog.Log, closing: bool, sent: bool)

  function LastOf(sent: seq<nat>, cursor: nat): nat { if sent == [] then cursor else sent[|sent| - 1] }

  function Delivered(rounds: seq<Round>, cursor: nat): seq<nat>
    requires forall r <- rounds :: EventLog.Valid(r.log)
  {
    if rounds == [] || rounds[0].closing then []
    else
      assert EventLog.Valid(rounds[0].log) by { assert rounds[0] in rounds; }
      match EventLog.ReadNext(rounds[0].log.rows, cursor)
      case None => Delivered(rounds[1..], cursor)
      case Some(row) => if rounds[0].sent then [row.id] + Delivered(rounds[1..], row.id) else []
  }

  lemma OneRound(rounds: seq<Round>, cursor: nat)
    requires forall r <- rounds :: EventLog.Valid(r.log)
    ensures rounds == [] ==> Delivered(rounds, cursor) == []
    ensures rounds != [] ==> EventLog.Ascending(rounds[0].log.rows)
    ensures rounds != [] ==>
              Delivered(rounds, cursor) ==
              if rounds[0].closing then []
              else match EventLog.ReadNext(rounds[0].log.rows, cursor)
                   case None => Delivered(rounds[1..], cursor)
                   case Some(row) => if rounds[0].sent then [row.id] + Delivered(rounds[1..], row.id) else []
  {
  }

  /** Whatever the other threads do to the log, numbers are sent in ascending order, above the cursor. */
  lemma {:induction false} DeliveredAscends(rounds: seq<Round>, cursor: nat)
    requires forall r <- rounds :: EventLog.Valid(r.log)
    ensures Firehose.Increasing(Delivered(rounds, cursor)) && forall q <- Delivered(rounds, cursor) :: cursor < q
  {
    hide Delivered, Firehose.Increasing, EventLog.ReadNext, EventLog.Valid;
    OneRound(rounds, cursor);
    NothingIncreasing();
    if rounds != [] && !rounds[0].closing {
      match EventLog.ReadNext(rounds[0].log.rows, cursor) {
        case None => DeliveredAscends(rounds[1..], cursor);
        case Some(row) =>
          DeliveredAscends(rounds[1..], row.id);
          IncreasingFrom(row.id, Delivered(rounds[1..], row.id));
      }
    }
  }

  /** And a number that is in the log in every round is not gone past without having been sent. */
  lemma {:induction false} NothingSkipped(rounds: seq<Round>, cursor: nat, q: nat)
    requires forall r <- rounds :: EventLog.Valid(r.log) && q in EventLog.Ids(r.log.rows)
    requires cursor < q <= LastOf(Delivered(rounds, cursor), cursor)
    ensures q in Delivered(rounds, cursor)
  {
    hide Delivered, EventLog.ReadNext, EventLog.Valid, EventLog.Ids;
    OneRound(rounds, cursor);
    if rounds != [] && !rounds[0].closing {
      match EventLog.ReadNext(rounds[0].log.rows, cursor) {
        case None =>
        case Some(row) =>
          if row.id != q {
            NothingSkipped(rounds[1..], row.id, q);
          }
      }
    }
  }

  /** With nobody writing and every send succeeding, as many rounds as there are numbers above the cursor send them all. */
  lemma {:induction false} QuietDelivery(rounds: seq<Round>, log: EventLog.Log, cursor: nat)
    requires EventLog.Valid(log) && forall r <- rounds :: r == Round(log, false, true)
    requires |rounds| >= |NumbersAbove(log.rows, cursor)|
    ensures Delivered(rounds, cursor) == NumbersAbove(log.rows, cursor)
  {
    hide Delivered, EventLog.ReadNext, EventLog.Valid, NumbersAbove;
    OneRound(rounds, cursor);
    if rounds != [] {
      assert rounds[0] in rounds && forall r <- rounds[1..] :: r in rounds;
      NextAbove(log.rows, cursor);
      match EventLog.ReadNext(log.rows, cursor) {
        case None => QuietDelivery(rounds[1..], log, cursor);
        case Some(row) =>
          QuietDelivery(rounds[1..], log, row.id);
          var todo := NumbersAbove(log.rows, cursor);
          assert todo == [todo[0]] + todo[1..];
      }
    }
  }

  /** The numbers above a cursor, in the order of the log. */
  function NumbersAbove(rows: seq<Row>, cursor: nat): seq<nat>
  {
    if rows == [] then [] else (if rows[0].id > cursor then [rows[0].id] else []) + NumbersAbove(rows[1..], cursor)
  }

  lemma {:induction false} AboveAll(rows: seq<Row>, cursor: nat)
    requires EventLog.Ascending(rows)
    ensures var todo := NumbersAbove(rows, cursor);
            && |todo| <= |rows| && Firehose.Increasing(todo)
            && forall q :: q in todo <==> q in EventLog.Ids(rows) && q > cursor
  {
    hide Firehose.Increasing, EventLog.Ascending;
    if rows == [] {
      NothingIncreasing();
    } else {
      FirstNumber(rows);
      AboveAll(rows[1..], cursor);
      AboveOne(rows, cursor, NumbersAbove(rows[1..], cursor));
    }
  }

  lemma AboveOne(rows: seq<Row>, cursor: nat, rest: seq<nat>)
    requires rows != [] && rest == NumbersAbove(rows[1..], cursor) && |rest| < |rows|
    requires EventLog.Ids(rows) == {rows[0].id} + EventLog.Ids(rows[1..])
    requires forall q <- EventLog.Ids(rows[1..]) :: rows[0].id < q
    requires Firehose.Increasing(rest) && forall q :: q in rest <==> q in EventLog.Ids(rows[1..]) && q > cursor
    ensures var todo := NumbersAbove(rows, cursor);
            && |todo| <= |rows| && Firehose.Increasing(todo)
            && forall q :: q in todo <==> q in EventLog.Ids(rows) && q > cursor
  {
    var first := rows[0].id;
    assert NumbersAbove(rows, cursor) == (if first > cursor then [first] else []) + rest;
    hide NumbersAbove, EventLog.Ids, Firehose.Increasing;
    if first > cursor {
      IncreasingFrom(first, rest);
    } else {
      assert [] + rest == rest;
    }
  }

  lemma NothingIncreasing()
    ensures Firehose.Increasing([])
  {
  }

  lemma FirstNumber(rows: seq<Row>)
    requires EventLog.Ascending(rows) && rows != []
    ensures EventLog.Ascending(rows[1..]) && EventLog.Ids(rows) == {rows[0].id} + EventLog.Ids(rows[1..])
    ensures forall q <- EventLog.Ids(rows[1..]) :: rows[0].id < q
  {
    assert forall r :: r in rows <==> r == rows[0] || r in rows[1..];
  }

  lemma IncreasingFrom(q: nat, rest: seq<nat>)
    requires Firehose.Increasing(rest) && forall p <- rest :: q < p
    ensures Firehose.Increasing([q] + rest)
  {
    assert forall j :: 0 <= j < |rest| ==> rest[j] in rest;
  }

  /** What is read next is the first number above the cursor, and the others are above that one. */
  lemma {:induction false} NextAbove(rows: seq<Row>, cursor: nat)
    requires EventLog.Ascending(rows)
    ensures match EventLog.ReadNext(rows, cursor)
            case None => NumbersAbove(rows, cursor) == []
            case Some(row) =>
              var todo := NumbersAbove(rows, cursor);
              todo != [] && todo[0] == row.id && todo[1..] == NumbersAbove(rows, row.id)
  {
    if rows != [] {
      if rows[0].id > cursor {
        AllAbove(rows[1..], cursor, rows[0].id);
      } else {
        NextAbove(rows[1..], cursor);
      }
    }
  }

  lemma {:induction false} AllAbove(rows: seq<Row>, c: nat, d: nat)
    requires forall r <- rows :: r.id > c && r.id > d
    ensures NumbersAbove(rows, c) == NumbersAbove(rows, d)
  {
    if rows != [] {
      AllAbove(rows[1..], c, d);
    }
  }
}
