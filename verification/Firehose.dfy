/** The sequencer and its subscriber threads as one state machine. Every step is one region
    the program runs with the mutex held, or one thing a thread does between two such regions;
    a run is any sequence of steps. */
module Firehose {
  import opened Outcome
  import opened EventLog

  datatype Phase =
    | Asked        // the current number has been read, the cursor judged
    | Checked      // the retention mark has been compared too
    | TurnedAway   // not admitted: the sequencer was closing
    | Running      // registered, in the delivery loop
    | Sending(row: Row)  // a frame was read under the lock and is being sent
    | Leaving      // out of the loop, still registered
    | Gone         // no longer registered

  datatype Refusal = InvalidRequest | FutureCursor

  /** One subscriber. `start`, `delivered` and `passed` are history: where it began, what was
      sent to it, and which numbers a read went past because their rows were already deleted. */
  datatype Worker = Worker(phase: Phase, hasCursor: bool, start: nat, cursor: nat, refusal: Option<Refusal>,
                           outdated: bool, delivered: seq<nat>, passed: set<nat>)

  /** `issued`, `retired`, `purged` and `sent` are history: every number ever stored, those that
      retention and purges deleted, and every number sent to anybody. */
  datatype System = System(log: Log, closing: bool, active: int, open: bool, workers: seq<Worker>,
                           issued: set<nat>, retired: set<nat>, purged: set<nat>, sent: set<nat>)

  datatype Op =
    | Append(now: int, did: Option<string>, frame: Option<Frame>)
    | Retain(cutoffTime: int, minEvents: int)
    | Purge(account: string)
    | Ask(request: Request)
    | Check(w: nat)
    | Register(w: nat)
    | Read(w: nat)
    | Send(w: nat, delivered: bool)
    | Hangup(w: nat)
    | Deregister(w: nat)
    | BeginClose
    | FinishClose
    | Restart(now: int)

  /** The cursor parameter: absent, not a non-negative integer, or a number. */
  datatype Request = NoCursor | Malformed | From(cursor: nat)

  predicate Registered(w: Worker) { w.phase.Running? || w.phase.Sending? || w.phase.Leaving? }

  // ---------------------------------------------------------------- the steps

  /** subscribe_repos up to the comparison with the current number. */
  function Asking(log: Log, request: Request): (w: Worker)
    ensures w.phase == Asked && w.delivered == [] && w.passed == {} && w.cursor == w.start && !w.outdated
    ensures request.NoCursor? ==> w.refusal.None?
    ensures w.refusal.None? ==> w.start <= Current(log.rows)
  {
    var current := Current(log.rows);
    var has := request.From?;
    var at := if has then request.cursor else current;
    var refusal :=
      if request.Malformed? then Some(InvalidRequest)
      else if has && request.cursor > current then Some(FutureCursor)
      else None;
    Worker(Asked, has, at, at, refusal, false, [], {})
  }

  /** The comparison with the retention mark, made only for an accepted explicit cursor. */
  function Checking(log: Log, w: Worker): Worker
  {
    var outdated := w.refusal.None? && w.hasCursor && log.pruned.Some? && log.pruned.value > 0 && w.cursor < log.pruned.value;
    w.(phase := Checked, outdated := outdated)
  }

  /** The locked region of the delivery loop. A refused subscriber only gets its error frame. */
  function Reading(s: System, w: Worker): Worker
    requires Valid(s.log)
  {
    if s.closing || w.refusal.Some? then w.(phase := Leaving)
    else
      match ReadNext(s.log.rows, w.cursor)
      case None => w
      case Some(row) => w.(phase := Sending(row), passed := w.passed + set q <- s.issued | w.cursor < q < row.id)
  }

  function With(s: System, i: nat, w: Worker): System
    requires i < |s.workers|
  {
    s.(workers := s.workers[i := w])
  }

  /** A step whose guard fails changes nothing. */
  function Step(s: System, op: Op): System
    requires Valid(s.log)
  {
    match op
    case Append(now, did, frame) =>
      if !s.open || s.closing then s
      else
        var (log, id) := EventLog.Append(s.log, now, did, frame);
        if id.None? then s else s.(log := log, issued := s.issued + {id.value})
    case Retain(cutoffTime, minEvents) =>
      if !s.open then s
      else
        var log := EventLog.Retain(s.log, cutoffTime, minEvents);
        s.(log := log, retired := s.retired + (set q <- IdList(s.log.rows) | q !in IdList(log.rows)))
    case Purge(did) =>
      if !s.open || did == "" then s
      else
        var log := EventLog.Purge(s.log, did);
        s.(log := log, purged := s.purged + (set q <- IdList(s.log.rows) | q !in IdList(log.rows)))
    case Ask(request) =>
      if !s.open then s else s.(workers := s.workers + [Asking(s.log, request)])
    case Check(i) =>
      if s.open && i < |s.workers| && s.workers[i].phase == Asked then With(s, i, Checking(s.log, s.workers[i])) else s
    case Register(i) =>
      if s.open && i < |s.workers| && s.workers[i].phase == Checked then
        if s.closing then With(s, i, s.workers[i].(phase := TurnedAway))
        else With(s, i, s.workers[i].(phase := Running)).(active := s.active + 1)
      else s
    case Read(i) =>
      if i < |s.workers| && s.workers[i].phase == Running then With(s, i, Reading(s, s.workers[i])) else s
    case Send(i, ok) =>
      if i < |s.workers| && s.workers[i].phase.Sending? then
        var w := s.workers[i];
        var q := w.phase.row.id;
        if ok then With(s, i, w.(phase := Running, cursor := q, delivered := w.delivered + [q])).(sent := s.sent + {q})
        else With(s, i, w.(phase := Leaving))
      else s
    case Hangup(i) =>
      if i < |s.workers| && (s.workers[i].phase.Running? || s.workers[i].phase.Sending?) then
        With(s, i, s.workers[i].(phase := Leaving))
      else s
    case Deregister(i) =>
      if i < |s.workers| && s.workers[i].phase == Leaving then
        With(s, i, s.workers[i].(phase := Gone)).(active := if s.active > 0 then s.active - 1 else s.active)
      else s
    case BeginClose => s.(closing := true)
    case FinishClose => if s.closing && s.active == 0 then s.(open := false) else s
    case Restart(now) =>
      s.(log := SeedFloor(s.log, now), closing := false, active := 0, open := true, workers := [])
  }

  function IdList(rows: seq<Row>): (r: seq<nat>)
    ensures |r| == |rows| && forall i :: 0 <= i < |rows| ==> r[i] == rows[i].id
    ensures forall q :: q in r <==> q in Ids(rows)
  {
    var r := seq(|rows|, i requires 0 <= i < |rows| => rows[i].id);
    assert forall q :: q in Ids(rows) ==> exists i :: 0 <= i < |rows| && rows[i].id == q;
    assert forall i :: 0 <= i < |rows| ==> rows[i] in rows;
    r
  }

  // ---------------------------------------------------------------- what every step keeps

  ghost predicate Increasing(qs: seq<nat>) { forall i, j :: 0 <= i < j < |qs| ==> qs[i] < qs[j] }

  /** Nothing between the start and the cursor is unaccounted for. */
  ghost predicate Accounted(w: Worker, issued: set<nat>)
  {
    && Increasing(w.delivered)
    && (forall q <- w.delivered :: w.start < q <= w.cursor && q in issued)
    && (w.phase == Asked ==> w.delivered == [])
    && (if w.delivered == [] then w.cursor == w.start else w.cursor == w.delivered[|w.delivered| - 1])
    && (forall q <- issued :: w.start < q <= w.cursor ==> q in w.delivered || q in w.passed)
    && (w.phase.Sending? ==>
          var next := w.phase.row.id;
          next in issued && w.cursor < next && forall q <- issued :: w.cursor < q < next ==> q in w.passed)
  }

  ghost predicate WorkerOk(w: Worker, s: System)
  {
    && Accounted(w, s.issued)
    && w.passed <= s.retired + s.purged
    && (forall q <- w.delivered :: q in s.sent)
  }

  function CountRegistered(ws: seq<Worker>): nat
  {
    if ws == [] then 0 else CountRegistered(ws[..|ws| - 1]) + if Registered(ws[|ws| - 1]) then 1 else 0
  }

  ghost predicate Inv(s: System)
  {
    && Valid(s.log)
    && (forall q <- s.issued :: 0 < q <= s.log.high)
    && (forall q <- s.issued :: q in Ids(s.log.rows) || q in s.retired || q in s.purged)
    && Ids(s.log.rows) <= s.issued && s.sent <= s.issued
    && (forall q <- s.retired :: s.log.pruned.Some? && q <= s.log.pruned.value)
    && (forall w <- s.workers :: WorkerOk(w, s))
    && s.active == CountRegistered(s.workers)
    && (!s.open ==> s.active == 0)
  }

  /** A log that has never held an event. */
  function Fresh(): (s: System)
    ensures Inv(s)
  {
    System(Log([], 0, None), false, 0, true, [], {}, {}, {}, {})
  }

  lemma {:induction false} CountChange(ws: seq<Worker>, i: nat, w: Worker)
    requires i < |ws|
    ensures CountRegistered(ws[i := w]) ==
            CountRegistered(ws) - (if Registered(ws[i]) then 1 else 0) + (if Registered(w) then 1 else 0)
    decreases |ws|
  {
    var front, last := ws[..|ws| - 1], |ws| - 1;
    if i < last {
      CountChange(front, i, w);
      assert ws[i := w][..last] == front[i := w];
    } else {
      assert ws[i := w][..last] == front;
    }
  }

  /** New numbers lie above every cursor that has moved, so a worker's account stays closed. */
  lemma {:induction false} AccountKept(w: Worker, s: System, t: System)
    requires WorkerOk(w, s) && Inv(s)
    requires s.issued <= t.issued && forall q <- t.issued :: q in s.issued || q > s.log.high
    requires s.retired <= t.retired && s.purged <= t.purged && s.sent <= t.sent
    ensures WorkerOk(w, t)
  {
    if w.delivered != [] {
      assert w.delivered[|w.delivered| - 1] in w.delivered;
    }
  }

  lemma AllKept(s: System, t: System)
    requires Inv(s) && t.workers == s.workers
    requires s.issued <= t.issued && forall q <- t.issued :: q in s.issued || q > s.log.high
    requires s.retired <= t.retired && s.purged <= t.purged && s.sent <= t.sent
    ensures forall w <- t.workers :: WorkerOk(w, t)
  {
    hide WorkerOk;
    forall w | w in t.workers ensures WorkerOk(w, t) {
      AccountKept(w, s, t);
    }
  }

  lemma AppendKeeps(s: System, now: int, did: Option<string>, frame: Option<Frame>)
    requires Inv(s)
    ensures Inv(Step(s, Append(now, did, frame)))
  {
    hide WorkerOk;
    var t := Step(s, Append(now, did, frame));
    if t != s {
      AllKept(s, t);
    }
  }

  lemma RetainKeeps(s: System, cutoffTime: int, minEvents: int)
    requires Inv(s)
    ensures Inv(Step(s, Retain(cutoffTime, minEvents)))
  {
    hide WorkerOk, EventLog.Retain;
    if s.open {
      var t := Step(s, Retain(cutoffTime, minEvents));
      RetainMarks(s.log, cutoffTime, minEvents);
      assert forall q <- t.retired :: q in s.retired || q in Ids(s.log.rows) - Ids(t.log.rows);
      AllKept(s, t);
    }
  }

  lemma PurgeKeeps(s: System, did: string)
    requires Inv(s)
    ensures Inv(Step(s, Purge(did)))
  {
    hide WorkerOk, EventLog.Purge;
    if s.open && did != "" {
      AllKept(s, Step(s, Purge(did)));
    }
  }

  /** Replacing one worker by another that is in order. */
  lemma ReplaceKeeps(s: System, t: System, i: nat, w: Worker)
    requires Inv(s) && i < |s.workers| && t.workers == s.workers[i := w]
    requires t.log == s.log && t.issued == s.issued && t.retired == s.retired && t.purged == s.purged
    requires s.sent <= t.sent <= t.issued && WorkerOk(w, t)
    requires t.active == CountRegistered(t.workers) && (!t.open ==> t.active == 0)
    ensures Inv(t)
  {
    hide WorkerOk;
    forall x | x in t.workers ensures WorkerOk(x, t) {
      if x != w {
        assert x in s.workers;
        AccountKept(x, s, t);
      }
    }
  }

  lemma AskKeeps(s: System, request: Request)
    requires Inv(s)
    ensures Inv(Step(s, Ask(request)))
  {
    if s.open {
      var w := Asking(s.log, request);
      var t := Step(s, Ask(request));
      assert WorkerOk(w, t);
      hide WorkerOk;
      assert t.workers[..|t.workers| - 1] == s.workers;
      forall x | x in t.workers ensures WorkerOk(x, t) {
        if x != w {
          AccountKept(x, s, t);
        }
      }
    }
  }

  /** Moving a worker between phases without touching its history. */
  lemma PhaseKeeps(s: System, t: System, i: nat, w: Worker)
    requires Inv(s) && i < |s.workers| && !w.phase.Sending? && w.phase != Asked
    requires var v := s.workers[i]; w.start == v.start && w.cursor == v.cursor && w.delivered == v.delivered && w.passed == v.passed
    requires t == With(s, i, w).(active := t.active)
    requires t.active == s.active - (if Registered(s.workers[i]) then 1 else 0) + (if Registered(w) then 1 else 0)
    requires s.open || (Registered(w) ==> Registered(s.workers[i]))
    ensures Inv(t)
  {
    assert s.workers[i] in s.workers;
    CountChange(s.workers, i, w);
    CountBounds(s.workers, i);
    ReplaceKeeps(s, t, i, w);
  }

  lemma {:induction false} CountBounds(ws: seq<Worker>, i: nat)
    requires i < |ws|
    ensures Registered(ws[i]) ==> CountRegistered(ws) > 0
    decreases |ws|
  {
    if i < |ws| - 1 {
      CountBounds(ws[..|ws| - 1], i);
    }
  }

  /** What a read goes past has been deleted: everything ever stored is either still in the
      table, where the read would have found it first, or was deleted. */
  lemma ReadPasses(s: System, i: nat, w: Worker)
    requires Inv(s) && i < |s.workers| && s.workers[i].phase == Running
    requires w == Reading(s, s.workers[i]) && w.phase.Sending?
    ensures WorkerOk(w, s)
  {
    assert s.workers[i] in s.workers;
    assert w.phase.row.id in Ids(s.log.rows);
  }

  lemma ReadKeeps(s: System, i: nat)
    requires Inv(s)
    ensures Inv(Step(s, Read(i)))
    ensures i < |s.workers| ==> Step(s, Read(i)).workers[i].passed <= s.retired + s.purged
  {
    hide WorkerOk;
    if i < |s.workers| && s.workers[i].phase != Running {
      PassedDeleted(s, s, i);
    }
    if i < |s.workers| && s.workers[i].phase == Running {
      var w := Reading(s, s.workers[i]);
      var t := Step(s, Read(i));
      CountChange(s.workers, i, w);
      CountBounds(s.workers, i);
      if w.phase.Sending? {
        ReadPasses(s, i, w);
        SameAccount(w, s, t);
        ReplaceKeeps(s, t, i, w);
      } else {
        PhaseKeeps(s, t, i, w);
      }
      PassedDeleted(s, t, i);
    }
  }

  lemma PassedDeleted(s: System, t: System, i: nat)
    requires Inv(t) && i < |t.workers| && t.retired == s.retired && t.purged == s.purged
    ensures t.workers[i].passed <= s.retired + s.purged
  {
    assert t.workers[i] in t.workers;
  }

  lemma SameAccount(w: Worker, s: System, t: System)
    requires WorkerOk(w, s) && t.issued == s.issued && t.retired == s.retired && t.purged == s.purged && t.sent == s.sent
    ensures WorkerOk(w, t)
  {
  }

  lemma SendKeeps(s: System, i: nat, ok: bool)
    requires Inv(s)
    ensures Inv(Step(s, Send(i, ok)))
  {
    if i < |s.workers| && s.workers[i].phase.Sending? {
      var v := s.workers[i];
      var t := Step(s, Send(i, ok));
      assert v in s.workers;
      if ok {
        var w := t.workers[i];
        CountChange(s.workers, i, w);
        CountBounds(s.workers, i);
        DeliveryKeeps(v, w, s, t);
        ReplaceKeeps(s, t, i, w);
      } else {
        PhaseKeeps(s, t, i, t.workers[i]);
      }
    }
  }

  lemma DeliveryKeeps(v: Worker, w: Worker, s: System, t: System)
    requires WorkerOk(v, s) && v.phase.Sending?
    requires w == v.(phase := Running, cursor := v.phase.row.id, delivered := v.delivered + [v.phase.row.id])
    requires t.issued == s.issued && t.retired == s.retired && t.purged == s.purged
    requires t.sent == s.sent + {v.phase.row.id}
    ensures WorkerOk(w, t)
  {
    var q := v.phase.row.id;
    if v.delivered != [] {
      assert v.delivered[|v.delivered| - 1] in v.delivered;
    }
    forall k | 0 <= k < |v.delivered| ensures v.delivered[k] < q {
      assert v.delivered[k] in v.delivered;
    }
  }

  lemma RestartKeeps(s: System, now: int)
    requires Inv(s)
    ensures Inv(Step(s, Restart(now)))
  {
  }

  /** Every step keeps the invariant. */
  lemma StepKeeps(s: System, op: Op)
    requires Inv(s)
    ensures Inv(Step(s, op))
  {
    hide Inv, WorkerOk, Step;
    match op
    case Append(now, did, frame) => AppendKeeps(s, now, did, frame);
    case Retain(cutoffTime, minEvents) => RetainKeeps(s, cutoffTime, minEvents);
    case Purge(did) => PurgeKeeps(s, did);
    case Ask(request) => AskKeeps(s, request);
    case Read(i) => ReadKeeps(s, i);
    case Send(i, ok) => SendKeeps(s, i, ok);
    case Restart(now) => RestartKeeps(s, now);
    case BeginClose => CloseKeeps(s, op);
    case FinishClose => CloseKeeps(s, op);
    case _ => PhaseStepKeeps(s, op);
  }

  lemma CloseKeeps(s: System, op: Op)
    requires Inv(s) && (op == BeginClose || op == FinishClose)
    ensures Inv(Step(s, op))
  {
    hide WorkerOk;
    AllKept(s, Step(s, op));
  }

  lemma PhaseStepKeeps(s: System, op: Op)
    requires Inv(s) && (op.Check? || op.Register? || op.Hangup? || op.Deregister?)
    ensures Inv(Step(s, op))
  {
    hide WorkerOk;
    var t := Step(s, op);
    if t != s {
      CountBounds(s.workers, op.w);
      PhaseKeeps(s, t, op.w, t.workers[op.w]);
    }
  }

  // ---------------------------------------------------------------- runs

  function Run(s: System, ops: seq<Op>): (t: System)
    requires Inv(s)
    ensures Inv(t)
    decreases |ops|
  {
    if ops == [] then s
    else
      StepKeeps(s, ops[0]);
      Run(Step(s, ops[0]), ops[1..])
  }

  /** Delivery: whatever the other threads do, a subscriber is sent ascending numbers above its
      start, and every number it has gone past was sent to it or had been deleted by then. */
  lemma Delivery(ops: seq<Op>, w: Worker)
    requires w in Run(Fresh(), ops).workers
    ensures var s := Run(Fresh(), ops);
            && Increasing(w.delivered)
            && (forall q <- w.delivered :: w.start < q && q in s.issued)
            && (forall q <- s.issued :: w.start < q <= w.cursor ==> q in w.delivered || q in w.passed)
            && w.passed <= s.retired + s.purged
  {
    assert WorkerOk(w, Run(Fresh(), ops));
  }

  /** When a read finds nothing more, every event above the start was sent or deleted. */
  lemma CaughtUp(ops: seq<Op>, w: Worker)
    requires w in Run(Fresh(), ops).workers
    requires ReadNext(Run(Fresh(), ops).log.rows, w.cursor).None?
    ensures var s := Run(Fresh(), ops);
            forall q <- s.issued :: w.start < q ==> q in w.delivered || q in s.retired || q in s.purged
  {
    assert WorkerOk(w, Run(Fresh(), ops));
  }

  // ---------------------------------------------------------------- resuming

  /** Retention asked to keep at least one event, as the server always does. */
  predicate KeepsOne(op: Op) { op.Retain? ==> op.minEvents >= 1 }

  /** No number above the newest row was ever given out. */
  ghost predicate NothingAhead(s: System)
  {
    forall q <- s.issued :: q <= Current(s.log.rows)
  }

  lemma StepKeepsNewest(s: System, op: Op)
    requires Inv(s) && NothingAhead(s) && KeepsOne(op)
    ensures NothingAhead(Step(s, op))
    ensures Current(s.log.rows) <= Current(Step(s, op).log.rows)
    ensures s.log.rows != [] ==> Step(s, op).log.rows != []
  {
    hide WorkerOk;
    match op
    case Append(now, did, frame) =>
      if s.log.rows != [] {
        assert s.log.rows[|s.log.rows| - 1] in s.log.rows;
      }
    case Retain(cutoffTime, minEvents) =>
      if s.log.rows != [] {
        RetainKeepsNewest(s.log, cutoffTime, minEvents);
      }
    case Purge(did) => PurgeKeepsNewest(s.log, did);
    case _ =>
  }

  lemma InvHasLog(s: System)
    requires Inv(s)
    ensures Valid(s.log)
  {
  }

  lemma {:induction false} RunKeepsNewest(s: System, ops: seq<Op>)
    requires Inv(s) && NothingAhead(s) && forall op <- ops :: KeepsOne(op)
    ensures NothingAhead(Run(s, ops))
    ensures Current(s.log.rows) <= Current(Run(s, ops).log.rows)
    ensures s.log.rows != [] ==> Run(s, ops).log.rows != []
    decreases |ops|
  {
    hide Step, Inv, NothingAhead;
    if ops != [] {
      InvHasLog(s);
      StepKeeps(s, ops[0]);
      StepKeepsNewest(s, ops[0]);
      RunKeepsNewest(Step(s, ops[0]), ops[1..]);
    }
  }

  /** A client that resumes from a number this server sent is never told its cursor is in the future. */
  lemma ResumeIsAccepted(ops: seq<Op>, q: nat)
    requires forall op <- ops :: KeepsOne(op)
    requires q in Run(Fresh(), ops).sent
    ensures Asking(Run(Fresh(), ops).log, From(q)).refusal.None?
  {
    RunKeepsNewest(Fresh(), ops);
  }

  /** Keeping no events breaks that promise whenever the newest event is old enough. */
  lemma KeepingNothingRefusesResume(l: Log, cutoffTime: int, minEvents: int)
    requires EventLog.Valid(l) && l.rows != []
    ensures Asking(EventLog.Retain(l, cutoffTime, minEvents), From(Current(l.rows))).refusal == Some(FutureCursor)
            <==> minEvents <= 0 && l.rows[|l.rows| - 1].createdAt < cutoffTime
  {
    RetainKeepsNewest(l, cutoffTime, minEvents);
    var r := EventLog.Retain(l, cutoffTime, minEvents);
    CurrentIsMax(l.rows);
    CurrentIsMax(r.rows);
  }

  /** A number is never given out twice, over restarts and deletions. */
  lemma NumbersAreNew(ops: seq<Op>, now: int, did: Option<string>, frame: Option<Frame>)
    ensures var s := Run(Fresh(), ops);
            var t := Step(s, Append(now, did, frame));
            forall q <- t.issued - s.issued, p <- s.issued :: p < q
    ensures var s := Run(Fresh(), ops);
            s.open && !s.closing && frame.Some? ==> |Step(s, Append(now, did, frame)).issued - s.issued| == 1
  {
    AppendIssues(Run(Fresh(), ops), now, did, frame);
  }

  lemma AppendIssues(s: System, now: int, did: Option<string>, frame: Option<Frame>)
    requires Valid(s.log) && forall q <- s.issued :: q <= s.log.high
    ensures var t := Step(s, Append(now, did, frame));
            forall q <- t.issued - s.issued, p <- s.issued :: p < q
    ensures s.open && !s.closing && frame.Some? ==> |Step(s, Append(now, did, frame)).issued - s.issued| == 1
  {
    hide EventLog.Append;
    if s.open && !s.closing && frame.Some? {
      var q := EventLog.Append(s.log, now, did, frame).1.value;
      assert Step(s, Append(now, did, frame)).issued - s.issued == {q};
    }
  }

  // ---------------------------------------------------------------- announcing a gap

  /** An accepted subscriber whose explicit cursor lies below a number retention has deleted is
      told so. */
  lemma GapIsAnnounced(ops: seq<Op>, i: nat, q: nat)
    requires var s := Run(Fresh(), ops);
             && s.open && i < |s.workers| && s.workers[i].phase == Asked
             && s.workers[i].hasCursor && s.workers[i].refusal.None?
             && q in s.retired && s.workers[i].cursor < q
    ensures Step(Run(Fresh(), ops), Check(i)).workers[i].outdated
  {
  }

  /** Once checked, a subscriber keeps its start and its flag until the process ends. */
  lemma {:induction false} CheckedStays(s: System, ops: seq<Op>, i: nat)
    requires Inv(s) && (forall op <- ops :: !op.Restart?) && i < |s.workers| && s.workers[i].phase != Asked
    ensures var t := Run(s, ops);
            && i < |t.workers| && t.workers[i].start == s.workers[i].start && t.workers[i].outdated == s.workers[i].outdated
            && s.retired <= t.retired
    decreases |ops|
  {
    if ops != [] {
      StepKeeps(s, ops[0]);
      CheckedStep(s, ops[0], i);
      hide Step, Inv;
      CheckedStays(Step(s, ops[0]), ops[1..], i);
    }
  }

  lemma CheckedStep(s: System, op: Op, i: nat)
    requires Valid(s.log) && !op.Restart? && i < |s.workers| && s.workers[i].phase != Asked
    ensures var t := Step(s, op);
            && i < |t.workers| && t.workers[i].phase != Asked && s.retired <= t.retired
            && t.workers[i].start == s.workers[i].start && t.workers[i].outdated == s.workers[i].outdated
  {
    hide EventLog.Append, EventLog.Retain, EventLog.Purge;
  }

  /**
   * A subscriber accepted with a cursor and not told of a gap: by the time it has got anywhere, all it has not been
   * sent of what lies behind it was purged with an account, or retired after the mark was checked.
   */
  lemma UnflaggedMissesNothingOlder(before: seq<Op>, i: nat, ops: seq<Op>, q: nat)
    requires forall op <- ops :: !op.Restart?
    requires var s := Run(Fresh(), before);
             && s.open && i < |s.workers| && s.workers[i].phase == Asked
             && s.workers[i].hasCursor && s.workers[i].refusal.None?
    requires var t := Run(Run(Fresh(), before), [Check(i)] + ops);
             && i < |t.workers| && !t.workers[i].outdated
             && q in t.issued && t.workers[i].start < q <= t.workers[i].cursor && q !in t.workers[i].delivered
    ensures var s, t := Run(Fresh(), before), Run(Run(Fresh(), before), [Check(i)] + ops);
            q in t.purged || (q in t.retired && q !in s.retired)
  {
    var s := Run(Fresh(), before);
    StepKeeps(s, Check(i));
    var c := Step(s, Check(i));
    assert ([Check(i)] + ops)[1..] == ops;
    CheckMade(s, i);
    hide Inv, Step;
    CheckedStays(c, ops, i);
    PassedOver(Run(c, ops), i, q);
  }

  /** The check made, a number already retired lies above the start only if the worker is told. */
  lemma CheckMade(s: System, i: nat)
    requires Inv(s) && s.open && i < |s.workers| && s.workers[i].phase == Asked
    requires s.workers[i].hasCursor && s.workers[i].refusal.None?
    ensures var c := Step(s, Check(i));
            && |c.workers| == |s.workers| && c.workers[i].phase == Checked && c.retired == s.retired
            && c.workers[i].start == s.workers[i].start
            && (!c.workers[i].outdated ==> forall q <- s.retired :: q <= s.workers[i].start)
  {
    assert s.workers[i] in s.workers;
    assert WorkerOk(s.workers[i], s);
  }

  lemma PassedOver(t: System, i: nat, q: nat)
    requires Inv(t) && i < |t.workers|
    requires q in t.issued && t.workers[i].start < q <= t.workers[i].cursor && q !in t.workers[i].delivered
    ensures q in t.retired || q in t.purged
  {
    assert t.workers[i] in t.workers;
    assert WorkerOk(t.workers[i], t);
  }

  /** One retention pass over a log leaves a cursor accepted and flagged just when the cursor lies below the mark there
      was, or below the cutoff of this pass while this pass deletes anything. */
  lemma FlaggedExactly(l: Log, cutoffTime: int, minEvents: int, c: nat)
    requires EventLog.Valid(l)
    ensures var r, cutoff := EventLog.Retain(l, cutoffTime, minEvents), Current(l.rows) - minEvents;
            Checking(r, Asking(r, From(c))).outdated
            <==> && c <= Current(r.rows)
                 && ((l.pruned.Some? && c < l.pruned.value)
                     || (c < cutoff && exists row <- l.rows :: Expired(row, cutoff, cutoffTime)))
  {
    hide Survivors;
  }

  /** The flag is more than the loss it announces: it is raised although this pass deleted nothing above the cursor just
      when the cursor lies between the last deleted number and the mark. */
  lemma FlaggedWithoutLossExactly(l: Log, cutoffTime: int, minEvents: int, c: nat)
    requires EventLog.Valid(l)
    ensures var r, cutoff := EventLog.Retain(l, cutoffTime, minEvents), Current(l.rows) - minEvents;
            Checking(r, Asking(r, From(c))).outdated && (forall q <- Ids(l.rows) - Ids(r.rows) :: q <= c)
            <==> && c <= Current(r.rows) && (forall row <- l.rows :: Expired(row, cutoff, cutoffTime) ==> row.id <= c)
                 && ((l.pruned.Some? && c < l.pruned.value)
                     || (c < cutoff && exists row <- l.rows :: Expired(row, cutoff, cutoffTime)))
  {
    FlaggedExactly(l, cutoffTime, minEvents, c);
    DeletedExactly(l, cutoffTime, minEvents);
    hide EventLog.Retain, Expired, Checking, Asking;
  }

  /** A pass deletes the expired rows and no others. */
  lemma DeletedExactly(l: Log, cutoffTime: int, minEvents: int)
    requires EventLog.Valid(l)
    ensures var r, cutoff := EventLog.Retain(l, cutoffTime, minEvents), Current(l.rows) - minEvents;
            forall row <- l.rows :: row.id in Ids(l.rows) - Ids(r.rows) <==> Expired(row, cutoff, cutoffTime)
  {
    hide Survivors;
    var r, cutoff := EventLog.Retain(l, cutoffTime, minEvents), Current(l.rows) - minEvents;
    assert forall x :: x in r.rows <==> x in l.rows && !Expired(x, cutoff, cutoffTime);
    hide EventLog.Retain, Expired, Ids;
    forall row | row in l.rows
      ensures row.id in Ids(l.rows) - Ids(r.rows) <==> Expired(row, cutoff, cutoffTime)
    {
      NumberedOnce(l.rows, l.rows, row);
      NumberedOnce(l.rows, r.rows, row);
    }
  }

  /** Part of a log holds a row's number just when it holds the row. */
  lemma NumberedOnce(rows: seq<Row>, part: seq<Row>, row: Row)
    requires Ascending(rows) && row in rows && forall x <- part :: x in rows
    ensures row.id in Ids(part) <==> row in part
  {
    if row.id in Ids(part) {
      var x :| x in part && x.id == row.id;
      var i, j :| 0 <= i < |rows| && rows[i] == row && 0 <= j < |rows| && rows[j] == x;
      assert i == j;
    }
  }

  /** The mark a pass leaves is itself a number it deleted just when the cutoff is not behind the mark there was and the
      row numbered with the cutoff is there and old. */
  lemma MarkIsDeletedExactly(l: Log, cutoffTime: int, minEvents: int)
    requires EventLog.Valid(l)
    ensures var r, cutoff := EventLog.Retain(l, cutoffTime, minEvents), Current(l.rows) - minEvents;
            r.pruned.Some? && r.pruned.value in Ids(l.rows) - Ids(r.rows)
            <==> && (l.pruned.Some? ==> l.pruned.value <= cutoff)
                 && exists row <- l.rows :: row.id == cutoff && row.createdAt < cutoffTime
  {
    DeletedExactly(l, cutoffTime, minEvents);
    hide Survivors;
  }

  /** Three events, the first one old, and a pass that keeps one: the cutoff is 2 and only event 1 goes. */
  function OldFirst(f: Frame): seq<Op>
  {
    [Append(0, None, Some(f)), Append(10, None, Some(f)), Append(10, None, Some(f)), Retain(5, 1), Ask(From(1)), Check(0)]
  }

  lemma {:induction false} SameRows(a: seq<Row>, b: seq<Row>)
    requires Ascending(a) && Ascending(b) && forall r :: r in a <==> r in b
    ensures a == b
  {
    assert b != [] ==> b[0] in b;
    if a != [] {
      assert a[0] in b && b[0] in a;
      var i, j :| 0 <= i < |b| && b[i] == a[0] && 0 <= j < |a| && a[j] == b[0];
      assert i == 0 && j == 0;
      forall r ensures r in a[1..] <==> r in b[1..] {
        RestRows(a, r);
        RestRows(b, r);
      }
      SameRows(a[1..], b[1..]);
      assert a == [a[0]] + a[1..] && b == [b[0]] + b[1..];
    }
  }

  lemma RestRows(rows: seq<Row>, r: Row)
    requires Ascending(rows) && rows != []
    ensures r in rows[1..] <==> r in rows && r != rows[0]
  {
  }

  function ThreeRows(f: Frame): (rows: seq<Row>)
    ensures Ascending(rows)
  {
    [Row(1, f, 0, None), Row(2, f, 10, None), Row(3, f, 10, None)]
  }

  lemma OldFirstRetained(f: Frame)
    ensures EventLog.Retain(Log(ThreeRows(f), 3, None), 5, 1) == Log(ThreeRows(f)[1..], 3, Some(2))
  {
    hide Survivors;
    var rows := ThreeRows(f);
    assert rows == [rows[0], rows[1], rows[2]] && rows[1..] == [rows[1], rows[2]];
    SameRows(Survivors(rows, 2, 5), rows[1..]);
  }

  lemma {:induction false} RunThen(s: System, ops: seq<Op>, op: Op)
    requires Inv(s)
    ensures Valid(Run(s, ops).log) && Run(s, ops + [op]) == Step(Run(s, ops), op)
    decreases |ops|
  {
    hide Step, Inv;
    InvHasLog(s);
    InvHasLog(Run(s, ops));
    if ops == [] {
      assert ([] + [op])[1..] == [];
    } else {
      StepKeeps(s, ops[0]);
      assert (ops + [op])[1..] == ops[1..] + [op];
      RunThen(Step(s, ops[0]), ops[1..], op);
    }
  }

  lemma AppendOne(s: System, now: int, f: Frame)
    requires Valid(s.log) && s.open && !s.closing
    ensures var q := s.log.high + 1;
            Step(s, Append(now, None, Some(f))) ==
            s.(log := s.log.(rows := s.log.rows + [Row(q, f, now, None)], high := q), issued := s.issued + {q})
  {
  }

  lemma OldFirstAppended(f: Frame)
    ensures Run(Fresh(), OldFirst(f)[..3]) == Fresh().(log := Log(ThreeRows(f), 3, None), issued := {1, 2, 3})
  {
    hide Step, Run, Inv, EventLog.Valid;
    var ops := OldFirst(f);
    assert ops[..1] == [] + [ops[0]] && ops[..2] == ops[..1] + [ops[1]] && ops[..3] == ops[..2] + [ops[2]];
    RunThen(Fresh(), [], ops[0]);
    RunThen(Fresh(), ops[..1], ops[1]);
    RunThen(Fresh(), ops[..2], ops[2]);
    RunNothing(Fresh());
    AppendOne(Fresh(), 0, f);
    AppendOne(Run(Fresh(), ops[..1]), 10, f);
    AppendOne(Run(Fresh(), ops[..2]), 10, f);
  }

  lemma RunNothing(s: System)
    requires Inv(s)
    ensures Run(s, []) == s
  {
  }

  lemma FirstRowGone(f: Frame)
    ensures (set q <- IdList(ThreeRows(f)) | q !in IdList(ThreeRows(f)[1..])) == {1}
  {
    var rows := ThreeRows(f);
    assert IdList(rows) == [1, 2, 3] && IdList(rows[1..]) == [2, 3];
    hide IdList, ThreeRows;
  }

  lemma RetainOne(s: System, f: Frame)
    requires s == Fresh().(log := Log(ThreeRows(f), 3, None), issued := {1, 2, 3}) && Valid(s.log)
    ensures Step(s, Retain(5, 1)) == s.(log := Log(ThreeRows(f)[1..], 3, Some(2)), retired := {1})
  {
    OldFirstRetained(f);
    FirstRowGone(f);
    hide EventLog.Retain, EventLog.Append, EventLog.Purge, EventLog.Valid, ThreeRows, IdList;
    assert {} + {1} == {1};
  }

  lemma AskOne(s: System, f: Frame)
    requires s.open && s.workers == [] && s.log == Log(ThreeRows(f)[1..], 3, Some(2)) && Valid(s.log)
    ensures Step(s, Ask(From(1))) == s.(workers := [Worker(Asked, true, 1, 1, None, false, [], {})])
  {
  }

  /** A reachable instance: a subscriber that has event 1 is warned, although event 1 is all that was ever deleted. */
  lemma GapCanBeAnnouncedWithoutLoss(f: Frame)
    ensures var s := Run(Fresh(), OldFirst(f));
            && s.retired == {1} && s.purged == {} && |s.workers| == 1
            && s.workers[0].start == 1 && s.workers[0].outdated
  {
    hide Run, Inv, EventLog.Valid, EventLog.Append, EventLog.Retain, EventLog.Purge;
    var ops := OldFirst(f);
    assert ops[..4] == ops[..3] + [ops[3]] && ops[..5] == ops[..4] + [ops[4]] && ops == ops[..5] + [ops[5]];
    RunThen(Fresh(), ops[..3], ops[3]);
    RunThen(Fresh(), ops[..4], ops[4]);
    RunThen(Fresh(), ops[..5], ops[5]);
    OldFirstAppended(f);
    RetainOne(Run(Fresh(), ops[..3]), f);
    AskOne(Run(Fresh(), ops[..4]), f);
  }

  // ---------------------------------------------------------------- shutting down

  /** The counter is the number of registered threads, nothing is stored and nobody admitted
      once closing is latched, and the database is closed only when no thread is left. */
  lemma ShutdownIsSafe(ops: seq<Op>)
    ensures var s := Run(Fresh(), ops);
            && s.active == CountRegistered(s.workers)
            && (s.closing ==> forall now, did, frame :: Step(s, Append(now, did, frame)) == s)
            && (s.closing ==> forall i: nat :: i < |s.workers| && Registered(Step(s, Register(i)).workers[i]) ==> Registered(s.workers[i]))
            && (!s.open ==> forall w <- s.workers :: !Registered(w))
            && (s.open && !Step(s, FinishClose).open ==> s.closing && forall w <- s.workers :: !Registered(w))
  {
    hide WorkerOk;
    var s := Run(Fresh(), ops);
    forall w | w in s.workers && s.active == 0 ensures !Registered(w) {
      var i :| 0 <= i < |s.workers| && s.workers[i] == w;
      CountBounds(s.workers, i);
    }
  }

  /** Until the process starts again closing stays latched, and meanwhile no step stores an event or admits anybody. */
  lemma ClosingIsLatched(s: System, op: Op)
    requires Valid(s.log) && s.closing && !op.Restart?
    ensures var t := Step(s, op);
            && t.closing && t.issued == s.issued
            && forall i :: 0 <= i < |t.workers| && Registered(t.workers[i]) ==> i < |s.workers| && Registered(s.workers[i])
  {
    hide EventLog.Append, EventLog.Retain, EventLog.Purge, SeedFloor, ReadNext;
  }
}
