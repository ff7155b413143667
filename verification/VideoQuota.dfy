/** The day's allowances over every run with a clock that does not go back. */
module VideoQuota {
  import opened Bytes
  import opened VideoStore
  import opened VideoRuns
  import opened VideoSafety
  import opened VideoFinish
  import opened VideoResults

  predicate WithinQuota(jobs: seq<Job>, now: int)
  {
    UsedBytes(jobs, now) <= DAILY_BYTES && UsedVideos(jobs, now) <= DAILY_COUNT && OpenUploads(jobs, now) <= MAX_OPEN
  }

  predicate CountedState(state: State) { state == Created || state == Finishing || state == Completed }

  /** A later stage of the same upload, which counts against the allowances no more than before. */
  predicate Ages(a: Job, b: Job)
  {
    && b.createdAt == a.createdAt && b.size == a.size
    && (CountedState(b.state) ==> CountedState(a.state))
    && (Live(b.state) ==> Live(a.state))
  }

  lemma {:induction false} SumsShrink(a: seq<Job>, b: seq<Job>, was: int, now: int)
    requires |a| == |b| && was <= now && forall i :: 0 <= i < |a| ==> Ages(a[i], b[i])
    ensures UsedBytes(b, now) <= UsedBytes(a, was)
    ensures UsedVideos(b, now) <= UsedVideos(a, was)
    ensures OpenUploads(b, now) <= OpenUploads(a, was)
  {
    if a != [] {
      var k := |a| - 1;
      SumsShrink(a[..k], b[..k], was, now);
      assert Ages(a[k], b[k]);
    }
  }

  /** A session is only opened where it fits. */
  lemma StartFits(s: Store, now: int, id: string, size: nat, mp4: bool, nameFits: bool)
    requires WithinQuota(Sweep(s, now).jobs, now) && WithinQuota(s.jobs, now)
    ensures WithinQuota(Start(s, now, id, size, mp4, nameFits).0.jobs, now)
  {
    var r := Sweep(s, now);
    var t := Start(s, now, id, size, mp4, nameFits).0;
    if t != s && t != r {
      OneMoreFits(r.jobs, t.jobs[|r.jobs|], now);
    }
  }

  lemma OneMoreFits(jobs: seq<Job>, j: Job, now: int)
    requires WithinQuota(jobs, now)
    requires var left := LimitsOf(jobs, now); left.open < MAX_OPEN && left.videos > 0 && j.size <= left.bytes
    ensures WithinQuota(jobs + [j], now)
  {
    assert (jobs + [j])[..|jobs|] == jobs;
  }

  lemma SweepAges(jobs: seq<Job>, now: int)
    ensures forall i :: 0 <= i < |jobs| ==> Ages(jobs[i], SweepJobs(jobs, now)[i])
  {
  }

  lemma QuotaOverSweep(jobs: seq<Job>, was: int, now: int)
    requires was <= now && WithinQuota(jobs, was)
    ensures WithinQuota(SweepJobs(jobs, now), now) && WithinQuota(jobs, now)
  {
    SweepAges(jobs, now);
    SumsShrink(jobs, SweepJobs(jobs, now), was, now);
    SumsShrink(jobs, jobs, was, now);
  }

  ghost predicate AllAge(a: seq<Job>, b: seq<Job>)
  {
    |a| == |b| && forall i :: 0 <= i < |a| ==> Ages(a[i], b[i])
  }

  /** Every step other than opening a session ages the jobs one by one. */
  lemma StepAges(cidOf: bytes -> string, s: System, op: Op)
    requires Inv(cidOf, s) && !op.OpStart?
    ensures AllAge(s.store.jobs, Step(cidOf, s, op).store.jobs) && s.clock <= Step(cidOf, s, op).clock
  {
    hide Inv, AllAge, FinishMark, Abort, Reopen, FinishCommitStep;
    match op
    case OpFinishMark(e, id) => MarkAges(s.store, s.clock + e, id);
    case OpAbort(e, id) => AbortAges(s.store, s.clock + e, id);
    case OpRestart(e) => ReopenAges(s.store, s.clock + e);
    case OpFinishCommit(i) => CommitAges(cidOf, s, i);
    case _ =>
      OtherJobs(cidOf, s, op);
      SweptOrSameAges(s.store.jobs, Step(cidOf, s, op).store.jobs, Step(cidOf, s, op).clock);
  }

  lemma SweptOrSameAges(a: seq<Job>, b: seq<Job>, now: int)
    requires b == a || b == SweepJobs(a, now)
    ensures AllAge(a, b)
  {
  }

  lemma MarkAges(s: Store, now: int, id: string)
    ensures AllAge(s.jobs, FinishMark(s, now, id).0.jobs)
  {
  }

  lemma AbortAges(s: Store, now: int, id: string)
    ensures AllAge(s.jobs, Abort(s, now, id).0.jobs)
  {
  }

  lemma ReopenAges(s: Store, now: int)
    ensures AllAge(s.jobs, Reopen(s, now).jobs)
  {
  }

  lemma CommitAges(cidOf: bytes -> string, s: System, i: nat)
    requires Inv(cidOf, s)
    ensures AllAge(s.store.jobs, FinishCommitStep(cidOf, s, i).store.jobs) && FinishCommitStep(cidOf, s, i).clock == s.clock
  {
    if i < |s.finishers| && ReadyToCommit(s.finishers[i]) {
      InvParts(cidOf, s);
      var f := s.finishers[i];
      assert FinisherOk(cidOf, s, f);
      hide Inv, Concat, HeaderAt, BlobsInv, AllAge, FinishCommit;
      CommittedAges(s.store, f.id, f.stage.verdict, cidOf(f.acc.data));
    }
  }

  /** Only a FINISHING upload is committed, and whatever becomes of it, it counts no more than before. */
  lemma CommittedAges(s: Store, id: string, outcome: Reply, cid: string)
    requires JobAt(s.jobs, id).Some? && JobAt(s.jobs, id).value.state == Finishing
    ensures AllAge(s.jobs, FinishCommit(s, id, outcome, cid).jobs)
  {
  }

  lemma StepKeepsQuota(cidOf: bytes -> string, s: System, op: Op)
    requires Inv(cidOf, s) && WithinQuota(s.store.jobs, s.clock)
    ensures WithinQuota(Step(cidOf, s, op).store.jobs, Step(cidOf, s, op).clock)
  {
    hide Inv, WithinQuota;
    match op
    case OpStart(e, id, size, mp4, nameFits) =>
      QuotaOverSweep(s.store.jobs, s.clock, s.clock + e);
      StartFits(s.store, s.clock + e, id, size, mp4, nameFits);
    case _ =>
      StepAges(cidOf, s, op);
      hide Step;
      QuotaOverAging(s.store.jobs, Step(cidOf, s, op).store.jobs, s.clock, Step(cidOf, s, op).clock);
  }

  lemma QuotaOverAging(a: seq<Job>, b: seq<Job>, was: int, now: int)
    requires was <= now && WithinQuota(a, was) && AllAge(a, b)
    ensures WithinQuota(b, now)
  {
    SumsShrink(a, b, was, now);
  }

  /** At every reachable time the uploads of the last day stay within the byte, video and open
      session allowances. */
  lemma {:induction false} QuotaHolds(cidOf: bytes -> string, s: System, ops: seq<Op>)
    requires Inv(cidOf, s) && Injective(cidOf) && WithinQuota(s.store.jobs, s.clock)
    ensures WithinQuota(Run(cidOf, s, ops).store.jobs, Run(cidOf, s, ops).clock)
    decreases |ops|
  {
    hide Inv, Step, WithinQuota;
    if ops != [] {
      StepKeeps(cidOf, s, ops[0]);
      StepKeepsQuota(cidOf, s, ops[0]);
      QuotaHolds(cidOf, Step(cidOf, s, ops[0]), ops[1..]);
    }
  }

  lemma QuotaFromTheStart(cidOf: bytes -> string, now: int, ops: seq<Op>)
    requires Injective(cidOf)
    ensures var s := Run(cidOf, Initial(now), ops);
            && UsedBytes(s.store.jobs, s.clock) <= 1_073_741_824
            && UsedVideos(s.store.jobs, s.clock) <= 100
            && OpenUploads(s.store.jobs, s.clock) <= 4
  {
    InitialInv(cidOf, now);
    QuotaHolds(cidOf, Initial(now), ops);
  }

  /** After a sweep every CREATED session lies inside the window the allowances look at, so
      none of them goes uncounted. */
  lemma SweepBringsIntoWindow(cidOf: bytes -> string, s: System, now: int)
    requires Inv(cidOf, s)
    ensures forall j <- Sweep(s.store, now).jobs :: j.state == Created ==> Counted(j, now)
  {
    forall j | j in Sweep(s.store, now).jobs && j.state == Created ensures Counted(j, now) {
      var i :| 0 <= i < |s.store.jobs| && Sweep(s.store, now).jobs[i] == j;
      assert s.store.jobs[i] in s.store.jobs;
    }
  }

  /** What each run says about part counts and sizes. */
  lemma PartsAddUp(cidOf: bytes -> string, now: int, ops: seq<Op>, j: Job)
    requires Injective(cidOf) && j in Run(cidOf, Initial(now), ops).store.jobs
    ensures 1 <= j.partCount <= MAX_PARTS
    ensures forall n: nat :: 1 <= n <= j.partCount ==> 1 <= PartSize(j.size, j.partCount, n) <= PART_BYTES
    ensures SizeOfFirst(j.size, j.partCount, j.partCount) == j.size
  {
    InitialInv(cidOf, now);
    RunKeeps(cidOf, Initial(now), ops);
    assert JobOk(j);
    PartSizesSum(j.size);
    PartSizesInRange(j.size, 1);
    forall n: nat | 1 <= n <= j.partCount ensures 1 <= PartSize(j.size, j.partCount, n) <= PART_BYTES {
      PartSizesInRange(j.size, n);
    }
  }
}
