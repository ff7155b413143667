/** What every run of the upload store guarantees. */
module VideoResults {
  import opened Bytes
  import opened Outcome
  import opened VideoStore
  import opened VideoRuns
  import opened VideoSafety
  import opened VideoFinish

  // ---------------------------------------------------------------- every step keeps the invariant

  function Swept(s: System, now: int): System { s.(store := Sweep(s.store, now), clock := now) }

  /** Starting refuses, sweeps, or sweeps and adds one fresh session. */
  lemma StartEffect(s: Store, now: int, id: string, size: nat, mp4: bool, nameFits: bool)
    ensures var t, r := Start(s, now, id, size, mp4, nameFits).0, Sweep(s, now);
            t == s || t == r
            || (Find(r.jobs, id).None? && exists j :: t == r.(jobs := r.jobs + [j]) && j.id == id && JobOk(j) && j.state == Created)
  {
    var t, r := Start(s, now, id, size, mp4, nameFits).0, Sweep(s, now);
    if t != s && t != r {
      var j := t.jobs[|r.jobs|];
      assert t == r.(jobs := r.jobs + [j]) && JobOk(j);
    }
  }

  lemma StartStepKeeps(cidOf: bytes -> string, s: System, now: int, id: string, size: nat, mp4: bool, nameFits: bool)
    requires Inv(cidOf, s)
    ensures Inv(cidOf, s.(clock := now, store := Start(s.store, now, id, size, mp4, nameFits).0))
  {
    hide Start, Inv, JobOk;
    var t := s.(clock := now, store := Start(s.store, now, id, size, mp4, nameFits).0);
    StartEffect(s.store, now, id, size, mp4, nameFits);
    ClockKeeps(cidOf, s, now);
    SweepKeeps(cidOf, s, now);
    var r := Swept(s, now);
    if t.store != s.store && t.store != r.store {
      var j :| t.store == r.store.(jobs := r.store.jobs + [j]) && j.id == id && JobOk(j) && j.state == Created;
      StartKeeps(cidOf, r, t, j);
    }
  }

  lemma ClockKeeps(cidOf: bytes -> string, s: System, now: int)
    requires Inv(cidOf, s)
    ensures Inv(cidOf, s.(clock := now))
  {
    hide JobAt, CompletedOk, FinisherOk, Claimed, WriterOk, RowOk;
    var t := s.(clock := now);
    ClaimsStay(s, t);
    JobsCarriedOver(cidOf, s, t);
    RowsCarried(s, t);
    WritersCarried(s, t);
    ActiveCarried(s, t);
    FinishersCarried(cidOf, s, t);
  }

  lemma PartBeginStepKeeps(cidOf: bytes -> string, s: System, now: int, id: string, part: nat, length: nat)
    requires Inv(cidOf, s)
    ensures Inv(cidOf, PartBeginStep(s, now, id, part, length))
  {
    SweepKeeps(cidOf, s, now);
    var r := Swept(s, now);
    var t := PartBeginStep(s, now, id, part, length);
    if PartBegin(s.store, now, id, part, length).1 == Success {
      PartBeginKeeps(cidOf, r, t, t.writers[|s.writers|]);
    } else {
      assert t == r;
    }
  }

  lemma PartWriteStepKeeps(cidOf: bytes -> string, s: System, i: nat, chunk: bytes)
    requires Inv(cidOf, s)
    ensures Inv(cidOf, PartWriteStep(s, i, chunk))
  {
    var t := PartWriteStep(s, i, chunk);
    if t != s {
      assert WriterOk(s, s.writers[i]);
      WriterKeeps(cidOf, s, t, i, t.writers[i]);
    }
  }

  lemma PartFinishStepKeeps(cidOf: bytes -> string, s: System, i: nat)
    requires Inv(cidOf, s)
    ensures Inv(cidOf, PartFinishStep(s, i))
  {
    var t := PartFinishStep(s, i);
    if t != s {
      var w := s.writers[i];
      assert WriterOk(s, w);
      var r := s.(writers := s.writers[i := w.(open := false)]);
      WriterKeeps(cidOf, s, r, i, w.(open := false));
      if PartCommit(s.store, w.id, w.part, w.data).1 == Success {
        PartCommitKeeps(cidOf, r, t, w.id, w.part, w.data);
      } else {
        assert t == r;
      }
    }
  }

  lemma PartFreeStepKeeps(cidOf: bytes -> string, s: System, i: nat)
    requires Inv(cidOf, s)
    ensures Inv(cidOf, PartFreeStep(s, i))
  {
    hide Inv;
    if PartFreeStep(s, i) != s {
      PartFreeKeeps(cidOf, s, PartFreeStep(s, i), i);
    }
  }

  lemma FinishMarkStepKeeps(cidOf: bytes -> string, s: System, now: int, id: string)
    requires Inv(cidOf, s)
    ensures Inv(cidOf, FinishMarkStep(s, now, id))
  {
    SweepKeeps(cidOf, s, now);
    var r := Swept(s, now);
    var t := FinishMarkStep(s, now, id);
    if FinishMark(s.store, now, id).2.Some? {
      MarkKeeps(cidOf, r, t, Find(r.store.jobs, id).value);
    } else {
      assert t == r;
    }
  }

  lemma AbortStepKeeps(cidOf: bytes -> string, s: System, now: int, id: string)
    requires Inv(cidOf, s)
    ensures Inv(cidOf, s.(clock := now, store := Abort(s.store, now, id).0))
  {
    SweepKeeps(cidOf, s, now);
    var r := Swept(s, now);
    var t := s.(clock := now, store := Abort(s.store, now, id).0);
    if t != r {
      AbortKeeps(cidOf, r, t, Find(r.store.jobs, id).value);
    }
  }

  function Reset(s: System): System
  {
    s.(store := s.store.(jobs := ResetJobs(s.store.jobs), active := {}), writers := [], finishers := [])
  }

  lemma ResetJobAt(jobs: seq<Job>, id: string)
    ensures JobAt(ResetJobs(jobs), id) == match JobAt(jobs, id) case None => None case Some(j) => Some(ResetJob(j))
  {
    FindSame(jobs, ResetJobs(jobs), id);
  }

  lemma ResetKeeps(cidOf: bytes -> string, s: System)
    requires Inv(cidOf, s)
    ensures Inv(cidOf, Reset(s))
  {
    var t := Reset(s);
    forall id ensures JobAt(t.store.jobs, id) == match JobAt(s.store.jobs, id) case None => None case Some(j) => Some(ResetJob(j)) {
      ResetJobAt(s.store.jobs, id);
    }
    ResetJobsInv(cidOf, s);
    hide JobAt, JobsInv, RowOk, FinisherOk;
    assert JobsCarried(s.store, t.store);
    assert WritersInv(t) && ActiveInv(t) && FinishersInv(cidOf, t);
    hide JobsCarried, WritersInv, ActiveInv, FinishersInv;
    RowsCarried(s, t);
  }

  lemma ResetJobsInv(cidOf: bytes -> string, s: System)
    requires JobsInv(cidOf, s)
    ensures JobsInv(cidOf, Reset(s))
  {
    var t := Reset(s);
    forall j | j in t.store.jobs ensures JobOk(j) && CompletedOk(cidOf, t, j) && j.state != Finishing {
      var m :| 0 <= m < |t.store.jobs| && t.store.jobs[m] == j;
      assert s.store.jobs[m] in s.store.jobs;
      CompletedCarried(cidOf, s, t, s.store.jobs[m]);
    }
  }

  lemma RestartKeeps(cidOf: bytes -> string, s: System, now: int)
    requires Inv(cidOf, s)
    ensures Inv(cidOf, s.(clock := now, store := Reopen(s.store, now), writers := [], finishers := []))
  {
    ResetKeeps(cidOf, s);
    SweepKeeps(cidOf, Reset(s), now);
    assert Swept(Reset(s), now) == s.(clock := now, store := Reopen(s.store, now), writers := [], finishers := []);
  }

  lemma StepKeeps(cidOf: bytes -> string, s: System, op: Op)
    requires Inv(cidOf, s) && Injective(cidOf)
    ensures Inv(cidOf, Step(cidOf, s, op))
  {
    hide Inv, Start, Abort, Sweep, Reopen, PartBeginStep, PartWriteStep, PartFinishStep, PartFreeStep, FinishMarkStep;
    hide ReadPartStep, JudgeStep, PutBlobStep, FinishCommitStep;
    match op
    case OpStart(e, id, size, mp4, nameFits) => StartStepKeeps(cidOf, s, s.clock + e, id, size, mp4, nameFits);
    case OpPartBegin(e, id, part, length) => PartBeginStepKeeps(cidOf, s, s.clock + e, id, part, length);
    case OpPartWrite(i, chunk) => PartWriteStepKeeps(cidOf, s, i, chunk);
    case OpPartFinish(i) => PartFinishStepKeeps(cidOf, s, i);
    case OpPartFree(i) => PartFreeStepKeeps(cidOf, s, i);
    case OpFinishMark(e, id) => FinishMarkStepKeeps(cidOf, s, s.clock + e, id);
    case OpReadPart(i) => ReadPartKeeps(cidOf, s, i);
    case OpJudge(i) => JudgeKeeps(cidOf, s, i);
    case OpPutBlob(i, stored) => PutBlobKeeps(cidOf, s, i, stored);
    case OpFinishCommit(i) => CommitKeeps(cidOf, s, i);
    case OpAbort(e, id) => AbortStepKeeps(cidOf, s, s.clock + e, id);
    case OpLook(e) => SweepKeeps(cidOf, s, s.clock + e);
    case OpWait(e) => ClockKeeps(cidOf, s, s.clock + e);
    case OpRestart(e) => RestartKeeps(cidOf, s, s.clock + e);
  }

  // ---------------------------------------------------------------- runs

  function Run(cidOf: bytes -> string, s: System, ops: seq<Op>): System
    decreases |ops|
  {
    if ops == [] then s else Run(cidOf, Step(cidOf, s, ops[0]), ops[1..])
  }

  lemma {:induction false} RunKeeps(cidOf: bytes -> string, s: System, ops: seq<Op>)
    requires Inv(cidOf, s) && Injective(cidOf)
    ensures Inv(cidOf, Run(cidOf, s, ops))
    decreases |ops|
  {
    hide Inv, Step;
    if ops != [] {
      StepKeeps(cidOf, s, ops[0]);
      RunKeeps(cidOf, Step(cidOf, s, ops[0]), ops[1..]);
    }
  }

  lemma InitialInv(cidOf: bytes -> string, now: int)
    ensures Inv(cidOf, Initial(now))
  {
  }

  /** A COMPLETED job's blob is its committed parts 1 to n in order, exactly as long as declared,
      with an MP4 header. */
  lemma CompletedIsWhole(cidOf: bytes -> string, now: int, ops: seq<Op>, j: Job)
    requires Injective(cidOf)
    requires j in Run(cidOf, Initial(now), ops).store.jobs && j.state == Completed
    ensures var s := Run(cidOf, Initial(now), ops);
            var whole := Concat(s.committed, j.id, j.partCount);
            && j.cid == Some(cidOf(whole)) && j.cid.value in s.blobs && s.blobs[j.cid.value] == whole
            && |whole| == j.size
            && (forall n: nat {:trigger (j.id, n)} :: 1 <= n <= j.partCount ==> (j.id, n) in s.committed)
            && (j.id, 1) in s.committed && HeaderAt(s.committed[(j.id, 1)])
  {
    InitialInv(cidOf, now);
    RunKeeps(cidOf, Initial(now), ops);
    var s := Run(cidOf, Initial(now), ops);
    assert CompletedOk(cidOf, s, j);
    forall n: nat {:trigger (j.id, n)} | 1 <= n <= j.partCount ensures (j.id, n) in s.committed {
      assert RowOk(s, (j.id, n));
    }
  }

  /** Nobody writes to a job while it is FINISHING, and exactly one call is finishing it. */
  lemma FinishingIsExclusive(cidOf: bytes -> string, now: int, ops: seq<Op>, j: Job)
    requires Injective(cidOf)
    requires j in Run(cidOf, Initial(now), ops).store.jobs && j.state == Finishing
    ensures var s := Run(cidOf, Initial(now), ops);
            && !HasActivePart(s.store, j.id)
            && (forall w <- s.writers :: w.id == j.id ==> w.freed)
            && (exists i :: 0 <= i < |s.finishers| && s.finishers[i].stage != Done && s.finishers[i].id == j.id)
            && (forall i, k :: 0 <= i < k < |s.finishers| && s.finishers[i].stage != Done && s.finishers[k].stage != Done ==>
                  !(s.finishers[i].id == j.id && s.finishers[k].id == j.id))
  {
    InitialInv(cidOf, now);
    RunKeeps(cidOf, Initial(now), ops);
    var s := Run(cidOf, Initial(now), ops);
    JobAtUnique(s.store.jobs, j);
    forall w | w in s.writers && w.id == j.id ensures w.freed {
      assert WriterOk(s, w);
    }
    assert Claimed(s, j.id);
  }

  /** The row count decides completeness, at every moment. */
  lemma RowCountDecides(cidOf: bytes -> string, now: int, ops: seq<Op>, j: Job)
    requires Injective(cidOf) && j in Run(cidOf, Initial(now), ops).store.jobs
    ensures var s := Run(cidOf, Initial(now), ops);
            |RowsOf(s.store, j.id)| == j.partCount <==>
            forall n: nat {:trigger (j.id, n)} :: 1 <= n <= j.partCount ==> (j.id, n) in s.store.rows
  {
    InitialInv(cidOf, now);
    RunKeeps(cidOf, Initial(now), ops);
    var s := Run(cidOf, Initial(now), ops);
    JobAtUnique(s.store.jobs, j);
    RowCountComplete(cidOf, s, j.id);
  }

  /** Assembling never finds a part missing, too long or too short: a finish is refused only for
      the MP4 header, or by the blob store. */
  lemma AssemblyNeverFails(cidOf: bytes -> string, now: int, ops: seq<Op>, f: Finisher)
    requires Injective(cidOf) && f in Run(cidOf, Initial(now), ops).finishers
    requires f.stage.Judged?
    ensures var s := Run(cidOf, Initial(now), ops);
            && (f.id, 1) in s.committed
            && f.stage.verdict == if HeaderAt(s.committed[(f.id, 1)]) then Success else UnsupportedContentType
  {
    InitialInv(cidOf, now);
    RunKeeps(cidOf, Initial(now), ops);
    var s := Run(cidOf, Initial(now), ops);
    assert FinisherOk(cidOf, s, f);
    var j := JobAt(s.store.jobs, f.id).value;
    assert JobOk(j);
    PartSizesInRange(j.size, 1);
  }

  // ---------------------------------------------------------------- how states may change

  predicate Final(state: State) { state == Completed || state == Failed || state == Aborted || state == Expired }

  /** What a step may do to one job. */
  ghost predicate Moves(s: System, op: Op, a: Job, b: Job)
  {
    && Kin(a, b)
    && (Final(a.state) ==> b == a)
    && (a.state == Created ==> b.state == Created || b.state == Finishing || b.state == Aborted || b.state == Expired)
    && (a.state == Finishing && b.state != Finishing ==>
          op.OpRestart? || (op.OpFinishCommit? && op.f < |s.finishers| && s.finishers[op.f].stage != Done && s.finishers[op.f].id == a.id))
    && (a.state == Created && b.state == Finishing ==> op.OpFinishMark? && op.id == a.id)
  }

  /** Final states are never left, and a FINISHING job is moved on only by the call that marked it
      or by a restart. */
  lemma StatesMoveForward(cidOf: bytes -> string, s: System, op: Op, id: string)
    requires Inv(cidOf, s) && JobAt(s.store.jobs, id).Some?
    ensures var t := Step(cidOf, s, op);
            JobAt(t.store.jobs, id).Some? && Moves(s, op, JobAt(s.store.jobs, id).value, JobAt(t.store.jobs, id).value)
  {
    hide Inv, JobAt, FinishMark, FinishCommit, Abort, Start, Reopen, PartBegin, PartCommit, Sweep, FinishCommitStep;
    if !op.OpStart? && !op.OpFinishMark? && !op.OpFinishCommit? && !op.OpAbort? && !op.OpRestart? {
      OtherMoves(cidOf, s, op, id);
      hide Step, Moves;
      return;
    }
    match op
    case OpFinishMark(e, x) => MarkMoves(s, s.clock + e, x, id) by { IdsUnique(cidOf, s); }
    case OpFinishCommit(i) =>
      if FinishCommitStep(cidOf, s, i) != s {
        CommitMoves(cidOf, s, i, id);
      }
    case OpAbort(e, x) => AbortMoves(s, s.clock + e, x, id) by { IdsUnique(cidOf, s); }
    case OpStart(e, x, size, mp4, nameFits) => StartMoves(s.store, s.clock + e, x, size, mp4, nameFits, id);
    case OpRestart(e) =>
      ResetJobAt(s.store.jobs, id);
      JobAtSwept(ResetJobs(s.store.jobs), s.clock + e, id);
      ReopenJobs(s.store, s.clock + e);
  }

  lemma OtherMoves(cidOf: bytes -> string, s: System, op: Op, id: string)
    requires !op.OpStart? && !op.OpFinishMark? && !op.OpFinishCommit? && !op.OpAbort? && !op.OpRestart?
    requires JobAt(s.store.jobs, id).Some?
    ensures var t := Step(cidOf, s, op);
            JobAt(t.store.jobs, id).Some? && Moves(s, op, JobAt(s.store.jobs, id).value, JobAt(t.store.jobs, id).value)
  {
    hide JobAt, Step;
    OtherJobs(cidOf, s, op);
    if op.OpPartBegin? || op.OpLook? {
      JobAtSwept(s.store.jobs, s.clock + op.elapsed, id);
    }
  }

  lemma IdsUnique(cidOf: bytes -> string, s: System)
    requires Inv(cidOf, s)
    ensures UniqueIds(s.store.jobs)
  {
  }

  lemma ReopenJobs(s: Store, now: int)
    ensures Reopen(s, now).jobs == SweepJobs(ResetJobs(s.jobs), now)
  {
  }

  /** The other steps sweep the job table or leave it alone. */
  lemma OtherJobs(cidOf: bytes -> string, s: System, op: Op)
    requires !op.OpStart? && !op.OpFinishMark? && !op.OpFinishCommit? && !op.OpAbort? && !op.OpRestart?
    ensures Step(cidOf, s, op).store.jobs ==
            if op.OpPartBegin? || op.OpLook? then SweepJobs(s.store.jobs, s.clock + op.elapsed) else s.store.jobs
  {
  }

  lemma StartMoves(s: Store, now: int, x: string, size: nat, mp4: bool, nameFits: bool, id: string)
    requires JobAt(s.jobs, id).Some?
    ensures var t := Start(s, now, x, size, mp4, nameFits).0;
            t == s || JobAt(t.jobs, id) == Some(SweepJob(JobAt(s.jobs, id).value, now))
  {
    JobAtSwept(s.jobs, now, id);
    var t := Start(s, now, x, size, mp4, nameFits).0;
    if t.jobs != Sweep(s, now).jobs && t != s {
      JobAtAppended(SweepJobs(s.jobs, now), t.jobs[|s.jobs|], id);
      assert JobAt(SweepJobs(s.jobs, now), x).None?;
    }
  }

  lemma MarkMoves(s: System, now: int, x: string, id: string)
    requires UniqueIds(s.store.jobs) && JobAt(s.store.jobs, id).Some?
    ensures var t := FinishMark(s.store, now, x).0;
            var a := JobAt(s.store.jobs, id).value;
            JobAt(t.jobs, id) == Some(SweepJob(a, now))
            || (x == id && SweepJob(a, now).state == Created && JobAt(t.jobs, id) == Some(SweepJob(a, now).(state := Finishing)))
  {
    JobAtSwept(s.store.jobs, now, id);
    var r := Sweep(s.store, now);
    var t := FinishMark(s.store, now, x).0;
    if t != r {
      var i := Find(r.jobs, x).value;
      JobAtUpdated(r.jobs, i, r.jobs[i].(state := Finishing), id);
    }
  }

  lemma AbortMoves(s: System, now: int, x: string, id: string)
    requires UniqueIds(s.store.jobs) && JobAt(s.store.jobs, id).Some?
    ensures var t := Abort(s.store, now, x).0;
            var a := JobAt(s.store.jobs, id).value;
            JobAt(t.jobs, id) == Some(SweepJob(a, now))
            || (SweepJob(a, now).state == Created && JobAt(t.jobs, id) == Some(SweepJob(a, now).(state := Aborted)))
  {
    JobAtSwept(s.store.jobs, now, id);
    var r := Sweep(s.store, now);
    var t := Abort(s.store, now, x).0;
    if t.jobs != r.jobs {
      var i := Find(r.jobs, x).value;
      JobAtUpdated(r.jobs, i, r.jobs[i].(state := Aborted), id);
    }
  }

  lemma CommitMoves(cidOf: bytes -> string, s: System, i: nat, id: string)
    requires Inv(cidOf, s) && JobAt(s.store.jobs, id).Some? && FinishCommitStep(cidOf, s, i) != s
    ensures var t := FinishCommitStep(cidOf, s, i);
            var a := JobAt(s.store.jobs, id).value;
            && i < |s.finishers| && JobAt(t.store.jobs, id).Some? && Kin(a, JobAt(t.store.jobs, id).value)
            && (JobAt(t.store.jobs, id) != Some(a) ==> a.state == Finishing && s.finishers[i].id == id && s.finishers[i].stage != Done)
  {
    var f := s.finishers[i];
    assert FinisherOk(cidOf, s, f);
    var n := Find(s.store.jobs, f.id).value;
    JobAtUpdated(s.store.jobs, n, FinishCommitStep(cidOf, s, i).store.jobs[n], id);
  }
}
