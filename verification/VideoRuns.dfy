/** Uploads under concurrency: part writers, the stages of finish, expiry, aborts and restarts in any order. */
module VideoRuns {
  import opened Bytes
  import opened Outcome
  import opened VideoStore

  /** A part being received. */
  datatype Writer = Writer(id: string, part: nat, expected: nat, data: bytes, open: bool, freed: bool)

  /** How far a call of finish has come after marking its job. */
  datatype Stage = Reading | Judged(verdict: Reply) | Stored(verdict: Reply) | Done

  datatype Finisher = Finisher(id: string, size: nat, count: nat, next: nat, acc: Assembly, stage: Stage)

  /** `committed` is history: the octets last committed for each part. */
  datatype System = System(store: Store, blobs: map<string, bytes>, writers: seq<Writer>, finishers: seq<Finisher>,
                           clock: int, committed: map<Key, bytes>)

  /** Steps that look at the clock say how much time has passed since the last one. */
  datatype Op =
    | OpStart(elapsed: nat, id: string, size: nat, mp4: bool, nameFits: bool)
    | OpPartBegin(elapsed: nat, id: string, part: nat, length: nat)
    | OpPartWrite(w: nat, chunk: bytes)
    | OpPartFinish(w: nat)
    | OpPartFree(w: nat)
    | OpFinishMark(elapsed: nat, id: string)
    | OpReadPart(f: nat)
    | OpJudge(f: nat)
    | OpPutBlob(f: nat, stored: bool)
    | OpFinishCommit(f: nat)
    | OpAbort(elapsed: nat, id: string)
    | OpLook(elapsed: nat)
    | OpWait(elapsed: nat)
    | OpRestart(elapsed: nat)

  // ---------------------------------------------------------------- steps

  function WriteChunk(w: Writer, chunk: bytes): (Writer, Reply)
  {
    if !w.open then (w, InvalidRequest)
    else if |w.data| + |chunk| > w.expected then (w, PartSizeMismatch)
    else (w.(data := w.data + chunk), Success)
  }

  function FileOf(files: map<Key, bytes>, k: Key): Option<bytes> { if k in files then Some(files[k]) else None }

  function PartBeginStep(s: System, now: int, id: string, part: nat, length: nat): System
  {
    var (store, reply, expected) := PartBegin(s.store, now, id, part, length);
    s.(clock := now, store := store,
       writers := if reply == Success then s.writers + [Writer(id, part, expected, [], true, false)] else s.writers)
  }

  function PartWriteStep(s: System, i: nat, chunk: bytes): System
  {
    if i < |s.writers| && !s.writers[i].freed then s.(writers := s.writers[i := WriteChunk(s.writers[i], chunk).0]) else s
  }

  function PartFinishStep(s: System, i: nat): System
  {
    if i < |s.writers| && !s.writers[i].freed && s.writers[i].open && |s.writers[i].data| == s.writers[i].expected then
      var w := s.writers[i];
      var (store, reply) := PartCommit(s.store, w.id, w.part, w.data);
      s.(store := store, writers := s.writers[i := w.(open := false)],
         committed := if reply == Success then s.committed[(w.id, w.part) := w.data] else s.committed)
    else s
  }

  function PartFreeStep(s: System, i: nat): System
  {
    if i < |s.writers| && !s.writers[i].freed then
      var w := s.writers[i];
      s.(store := PartFree(s.store, w.id, w.part), writers := s.writers[i := w.(open := false, freed := true)])
    else s
  }

  function FinishMarkStep(s: System, now: int, id: string): System
  {
    var (store, _, marked) := FinishMark(s.store, now, id);
    s.(clock := now, store := store,
       finishers := if marked.Some? then
           s.finishers + [Finisher(id, marked.value.size, marked.value.partCount, 1, Assembly([], false, Success), Reading)]
         else s.finishers)
  }

  /** One part file read, with the lock free. */
  function ReadPartStep(s: System, i: nat): System
  {
    if i < |s.finishers| && s.finishers[i].stage == Reading
       && s.finishers[i].next <= s.finishers[i].count && s.finishers[i].acc.verdict == Success then
      var f := s.finishers[i];
      var acc := ReadPart(f.acc, f.size, FileOf(s.store.files, (f.id, f.next)));
      s.(finishers := s.finishers[i := f.(acc := acc, next := f.next + 1)])
    else s
  }

  function JudgeStep(s: System, i: nat): System
  {
    if i < |s.finishers| && s.finishers[i].stage == Reading
       && (s.finishers[i].next > s.finishers[i].count || s.finishers[i].acc.verdict != Success) then
      var f := s.finishers[i];
      s.(finishers := s.finishers[i := f.(stage := Judged(Verdict(f.acc, f.size)))])
    else s
  }

  function PutBlobStep(cidOf: bytes -> string, s: System, i: nat, stored: bool): System
  {
    if i < |s.finishers| && s.finishers[i].stage == Judged(Success) then
      var f := s.finishers[i];
      if stored then
        s.(blobs := s.blobs[cidOf(f.acc.data) := f.acc.data], finishers := s.finishers[i := f.(stage := Stored(Success))])
      else s.(finishers := s.finishers[i := f.(stage := Stored(ServiceOverloaded))])
    else s
  }

  predicate ReadyToCommit(f: Finisher) { f.stage.Stored? || (f.stage.Judged? && f.stage.verdict != Success) }

  function FinishCommitStep(cidOf: bytes -> string, s: System, i: nat): System
  {
    if i < |s.finishers| && ReadyToCommit(s.finishers[i]) then
      var f := s.finishers[i];
      s.(store := FinishCommit(s.store, f.id, f.stage.verdict, cidOf(f.acc.data)), finishers := s.finishers[i := f.(stage := Done)])
    else s
  }

  /** `cidOf` stands for the content hash. */
  function Step(cidOf: bytes -> string, s: System, op: Op): System
  {
    match op
    case OpStart(e, id, size, mp4, nameFits) =>
      s.(clock := s.clock + e, store := Start(s.store, s.clock + e, id, size, mp4, nameFits).0)
    case OpPartBegin(e, id, part, length) => PartBeginStep(s, s.clock + e, id, part, length)
    case OpPartWrite(i, chunk) => PartWriteStep(s, i, chunk)
    case OpPartFinish(i) => PartFinishStep(s, i)
    case OpPartFree(i) => PartFreeStep(s, i)
    case OpFinishMark(e, id) => FinishMarkStep(s, s.clock + e, id)
    case OpReadPart(i) => ReadPartStep(s, i)
    case OpJudge(i) => JudgeStep(s, i)
    case OpPutBlob(i, stored) => PutBlobStep(cidOf, s, i, stored)
    case OpFinishCommit(i) => FinishCommitStep(cidOf, s, i)
    case OpAbort(e, id) => s.(clock := s.clock + e, store := Abort(s.store, s.clock + e, id).0)
    case OpLook(e) => s.(clock := s.clock + e, store := Sweep(s.store, s.clock + e))
    case OpWait(e) => s.(clock := s.clock + e)
    case OpRestart(e) => s.(clock := s.clock + e, store := Reopen(s.store, s.clock + e), writers := [], finishers := [])
  }

  function Initial(now: int): System
  {
    System(Store([], map[], map[], {}), map[], [], [], now, map[])
  }

  // ---------------------------------------------------------------- the job table by id

  function JobAt(jobs: seq<Job>, id: string): (r: Option<Job>)
    ensures r.Some? ==> r.value in jobs && r.value.id == id
  {
    match Find(jobs, id)
    case None => None
    case Some(i) => Some(jobs[i])
  }

  lemma {:induction false} JobAtUnique(jobs: seq<Job>, j: Job)
    requires UniqueIds(jobs) && j in jobs
    ensures JobAt(jobs, j.id) == Some(j)
  {
    var i := Find(jobs, j.id).value;
    var k :| 0 <= k < |jobs| && jobs[k] == j;
    assert jobs[i].id == jobs[k].id;
  }

  lemma {:induction false} FindSame(a: seq<Job>, b: seq<Job>, id: string)
    requires |a| == |b| && forall i :: 0 <= i < |a| ==> a[i].id == b[i].id
    ensures Find(a, id) == Find(b, id)
  {
    if a != [] {
      FindSame(a[..|a| - 1], b[..|b| - 1], id);
    }
  }

  lemma JobAtSwept(jobs: seq<Job>, now: int, id: string)
    ensures JobAt(SweepJobs(jobs, now), id) ==
            match JobAt(jobs, id) case None => None case Some(j) => Some(SweepJob(j, now))
  {
    FindSame(jobs, SweepJobs(jobs, now), id);
  }

  lemma DueIdAt(jobs: seq<Job>, now: int, id: string)
    requires UniqueIds(jobs)
    ensures DueId(jobs, now, id) <==> JobAt(jobs, id).Some? && Due(JobAt(jobs, id).value, now)
  {
    if DueId(jobs, now, id) {
      var j :| j in jobs && j.id == id && Due(j, now);
      JobAtUnique(jobs, j);
    }
  }

  lemma JobAtUpdated(jobs: seq<Job>, i: nat, j: Job, id: string)
    requires UniqueIds(jobs) && i < |jobs| && jobs[i].id == j.id
    ensures UniqueIds(jobs[i := j])
    ensures JobAt(jobs[i := j], id) == if id == j.id then Some(j) else JobAt(jobs, id)
  {
    FindSame(jobs, jobs[i := j], id);
    if id == j.id {
      assert jobs[i] in jobs;
      JobAtUnique(jobs, jobs[i]);
      var k := Find(jobs, id).value;
      assert k == i;
    }
  }

  lemma JobAtAppended(jobs: seq<Job>, j: Job, id: string)
    ensures JobAt(jobs + [j], id) == if id == j.id then Some(j) else JobAt(jobs, id)
  {
    assert (jobs + [j])[..|jobs|] == jobs;
  }
}
