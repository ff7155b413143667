/** What holds of uploads at every moment of every run. */
module VideoSafety {
  import opened Bytes
  import opened Outcome
  import opened VideoStore
  import opened VideoRuns

  // ---------------------------------------------------------------- the invariant

  ghost predicate Injective(cidOf: bytes -> string) { forall a, b :: cidOf(a) == cidOf(b) ==> a == b }

  /** The first `n` committed parts of a job, in order. */
  ghost function Concat(committed: map<Key, bytes>, id: string, n: nat): bytes
  {
    if n == 0 then []
    else Concat(committed, id, n - 1) + if (id, n) in committed then committed[(id, n)] else []
  }

  predicate JobOk(j: Job)
  {
    && 0 < j.size <= MAX_BYTES && j.partCount == PartCount(j.size)
    && j.expiresAt == j.createdAt + LIFETIME
    && (j.state == Completed <==> j.cid.Some?)
  }

  predicate Live(state: State) { state == Created || state == Finishing }

  /** A part row names a part of an existing job and the length of what was committed for it;
      while the job can still finish, the part file holds exactly that. */
  ghost predicate RowOk(s: System, k: Key)
    requires k in s.store.rows
  {
    var job := JobAt(s.store.jobs, k.0);
    && job.Some? && 1 <= k.1 <= job.value.partCount
    && s.store.rows[k] == PartSize(job.value.size, job.value.partCount, k.1)
    && k in s.committed && |s.committed[k]| == s.store.rows[k]
    && (Live(job.value.state) ==> k in s.store.files && s.store.files[k] == s.committed[k])
  }

  ghost predicate WriterOk(s: System, w: Writer)
  {
    !w.freed ==>
      var job := JobAt(s.store.jobs, w.id);
      && (w.id, w.part) in s.store.active
      && job.Some? && 1 <= w.part <= job.value.partCount
      && w.expected == PartSize(job.value.size, job.value.partCount, w.part)
      && |w.data| <= w.expected
  }

  ghost predicate AllRows(store: Store, id: string, count: nat)
  {
    forall n: nat {:trigger (id, n)} :: 1 <= n <= count ==> (id, n) in store.rows
  }

  ghost predicate FinisherOk(cidOf: bytes -> string, s: System, f: Finisher)
  {
    f.stage != Done ==>
      var job := JobAt(s.store.jobs, f.id);
      && job.Some? && job.value.state == Finishing && job.value.size == f.size && job.value.partCount == f.count
      && AllRows(s.store, f.id, f.count)
      && 1 <= f.next <= f.count + 1
      && f.acc.data == Concat(s.committed, f.id, f.next - 1)
      && f.acc.verdict == Success
      && (f.next == 1 ==> !f.acc.header)
      && (f.next > 1 ==> (f.id, 1) in s.committed && f.acc.header == HeaderAt(s.committed[(f.id, 1)]))
      && (f.stage != Reading ==> f.next == f.count + 1)
      && (f.stage.Judged? ==> f.stage.verdict == if f.acc.header then Success else UnsupportedContentType)
      && (f.stage.Stored? ==> f.acc.header && (f.stage.verdict == Success || f.stage.verdict == ServiceOverloaded))
      && (f.stage == Stored(Success) ==> cidOf(f.acc.data) in s.blobs && s.blobs[cidOf(f.acc.data)] == f.acc.data)
  }

  /** The promise of a finished upload. */
  ghost predicate CompletedOk(cidOf: bytes -> string, s: System, j: Job)
  {
    j.state == Completed ==>
      var whole := Concat(s.committed, j.id, j.partCount);
      && AllRows(s.store, j.id, j.partCount)
      && |whole| == j.size
      && j.cid == Some(cidOf(whole)) && cidOf(whole) in s.blobs && s.blobs[cidOf(whole)] == whole
      && ((j.id, 1) in s.committed && HeaderAt(s.committed[(j.id, 1)]))
  }

  ghost predicate Claimed(s: System, id: string)
  {
    exists f :: f in s.finishers && f.stage != Done && f.id == id
  }

  ghost predicate JobsInv(cidOf: bytes -> string, s: System)
  {
    && UniqueIds(s.store.jobs)
    && forall j <- s.store.jobs :: JobOk(j) && CompletedOk(cidOf, s, j) && (j.state == Finishing ==> Claimed(s, j.id))
  }

  ghost predicate RowsInv(s: System) { forall k <- s.store.rows :: RowOk(s, k) }

  ghost predicate WritersInv(s: System)
  {
    && (forall w <- s.writers :: WriterOk(s, w))
    && (forall i, j :: 0 <= i < j < |s.writers| && !s.writers[i].freed && !s.writers[j].freed ==>
          (s.writers[i].id, s.writers[i].part) != (s.writers[j].id, s.writers[j].part))
  }

  /** The active keys are those of the writers at work, and none belongs to a job being finished. */
  ghost predicate ActiveInv(s: System)
  {
    forall k <- s.store.active ::
      && (exists w :: w in s.writers && !w.freed && (w.id, w.part) == k)
      && JobAt(s.store.jobs, k.0).Some? && JobAt(s.store.jobs, k.0).value.state != Finishing
  }

  ghost predicate FinishersInv(cidOf: bytes -> string, s: System)
  {
    && (forall f <- s.finishers :: FinisherOk(cidOf, s, f))
    && (forall i, j :: 0 <= i < j < |s.finishers| && s.finishers[i].stage != Done && s.finishers[j].stage != Done ==>
          s.finishers[i].id != s.finishers[j].id)
  }

  ghost predicate BlobsInv(cidOf: bytes -> string, blobs: map<string, bytes>)
  {
    forall c <- blobs :: cidOf(blobs[c]) == c
  }

  ghost predicate Inv(cidOf: bytes -> string, s: System)
  {
    JobsInv(cidOf, s) && RowsInv(s) && WritersInv(s) && ActiveInv(s) && FinishersInv(cidOf, s) && BlobsInv(cidOf, s.blobs)
  }

  // ---------------------------------------------------------------- sums over parts

  lemma {:induction false} ConcatFrame(a: map<Key, bytes>, b: map<Key, bytes>, id: string, n: nat)
    requires forall m: nat {:trigger (id, m)} :: 1 <= m <= n ==>
               ((id, m) in a <==> (id, m) in b) && ((id, m) in a ==> a[(id, m)] == b[(id, m)])
    ensures Concat(a, id, n) == Concat(b, id, n)
  {
    if n > 0 {
      ConcatFrame(a, b, id, n - 1);
      assert (id, n) in a <==> (id, n) in b;
    }
  }

  /** Committed parts of the right lengths make up the declared size. */
  lemma {:induction false} ConcatSize(committed: map<Key, bytes>, id: string, size: nat, count: nat, n: nat)
    requires forall m: nat {:trigger (id, m)} :: 1 <= m <= n ==> (id, m) in committed && |committed[(id, m)]| == PartSize(size, count, m)
    ensures |Concat(committed, id, n)| == SizeOfFirst(size, count, n)
  {
    if n > 0 {
      ConcatSize(committed, id, size, count, n - 1);
      assert (id, n) in committed;
    }
  }

  lemma {:induction false} SizesGrow(size: nat, count: nat, m: nat, n: nat)
    requires 0 < size <= MAX_BYTES && count == PartCount(size) && m <= n <= count
    ensures 0 <= SizeOfFirst(size, count, m) <= SizeOfFirst(size, count, n) <= size
  {
    if n < count {
      FullParts(size, count, n);
      FullParts(size, count, m);
    } else {
      PartSizesSum(size);
      if m < count {
        FullParts(size, count, m);
      }
    }
  }

  /** With every row there, everything committed for the job has its length. */
  lemma WholeSize(cidOf: bytes -> string, s: System, id: string, n: nat)
    requires Inv(cidOf, s) && JobAt(s.store.jobs, id).Some?
    requires AllRows(s.store, id, JobAt(s.store.jobs, id).value.partCount)
    requires n <= JobAt(s.store.jobs, id).value.partCount
    ensures var j := JobAt(s.store.jobs, id).value;
            && |Concat(s.committed, id, n)| == SizeOfFirst(j.size, j.partCount, n) <= j.size
            && (n == j.partCount ==> |Concat(s.committed, id, n)| == j.size)
            && forall m: nat {:trigger (id, m)} :: 1 <= m <= j.partCount ==>
                 (id, m) in s.committed && |s.committed[(id, m)]| == PartSize(j.size, j.partCount, m)
  {
    var j := JobAt(s.store.jobs, id).value;
    assert JobOk(j);
    forall m: nat {:trigger (id, m)} | 1 <= m <= j.partCount
      ensures (id, m) in s.committed && |s.committed[(id, m)]| == PartSize(j.size, j.partCount, m)
    {
      assert (id, m) in s.store.rows && RowOk(s, (id, m));
    }
    ConcatSize(s.committed, id, j.size, j.partCount, n);
    SizesGrow(j.size, j.partCount, n, j.partCount);
    PartSizesSum(j.size);
  }

  // ---------------------------------------------------------------- carrying the parts over

  /** The same upload, in whatever state. */
  predicate Kin(a: Job, b: Job) { b.id == a.id && b.size == a.size && b.partCount == a.partCount }

  /** Every job is still there, and none has come back to life. */
  ghost predicate JobsCarried(s: Store, t: Store)
  {
    forall id {:trigger JobAt(t.jobs, id)} :: JobAt(s.jobs, id).Some? ==>
      && JobAt(t.jobs, id).Some? && Kin(JobAt(s.jobs, id).value, JobAt(t.jobs, id).value)
      && (Live(JobAt(t.jobs, id).value.state) ==> Live(JobAt(s.jobs, id).value.state))
  }

  lemma RowsCarried(s: System, t: System)
    requires RowsInv(s) && JobsCarried(s.store, t.store) && t.committed == s.committed
    requires forall k <- t.store.rows :: k in s.store.rows && t.store.rows[k] == s.store.rows[k]
    requires forall k <- t.store.rows :: JobAt(t.store.jobs, k.0).Some? && Live(JobAt(t.store.jobs, k.0).value.state) && k in s.store.files
               ==> k in t.store.files && t.store.files[k] == s.store.files[k]
    ensures RowsInv(t)
  {
    hide JobAt;
    forall k | k in t.store.rows ensures RowOk(t, k) {
      assert RowOk(s, k);
    }
  }

  lemma WritersCarried(s: System, t: System)
    requires WritersInv(s) && JobsCarried(s.store, t.store) && t.writers == s.writers && s.store.active <= t.store.active
    ensures WritersInv(t)
  {
    hide JobAt;
    forall w | w in t.writers ensures WriterOk(t, w) {
      assert WriterOk(s, w);
    }
  }

  lemma ActiveCarried(s: System, t: System)
    requires ActiveInv(s) && JobsCarried(s.store, t.store) && t.writers == s.writers && t.store.active <= s.store.active
    requires forall k <- t.store.active :: JobAt(t.store.jobs, k.0).Some? ==> JobAt(t.store.jobs, k.0).value.state != Finishing
    ensures ActiveInv(t)
  {
    hide JobAt;
  }

  /** Nothing a finisher relies on has moved. */
  ghost predicate FinisherUntouched(s: System, t: System, f: Finisher)
  {
    f.stage != Done ==>
      && JobAt(t.store.jobs, f.id) == JobAt(s.store.jobs, f.id)
      && (forall n: nat {:trigger (f.id, n)} :: (f.id, n) in s.store.rows ==> (f.id, n) in t.store.rows)
      && (forall n: nat {:trigger (f.id, n)} :: ((f.id, n) in s.committed <==> (f.id, n) in t.committed)
            && ((f.id, n) in s.committed ==> s.committed[(f.id, n)] == t.committed[(f.id, n)]))
  }

  lemma FinisherCarried(cidOf: bytes -> string, s: System, t: System, f: Finisher)
    requires FinisherOk(cidOf, s, f) && FinisherUntouched(s, t, f)
    requires forall c <- s.blobs :: c in t.blobs && t.blobs[c] == s.blobs[c]
    ensures FinisherOk(cidOf, t, f)
  {
    hide JobAt, HeaderAt;
    if f.stage != Done {
      ConcatFrame(s.committed, t.committed, f.id, f.next - 1);
    }
  }

  lemma FinishersCarried(cidOf: bytes -> string, s: System, t: System)
    requires FinishersInv(cidOf, s) && t.finishers == s.finishers && t.blobs == s.blobs
    requires forall f <- s.finishers :: FinisherUntouched(s, t, f)
    ensures FinishersInv(cidOf, t)
  {
    hide FinisherOk, FinisherUntouched;
    forall f | f in t.finishers ensures FinisherOk(cidOf, t, f) {
      FinisherCarried(cidOf, s, t, f);
    }
  }

  /** Nothing a completed job's promise rests on has moved. */
  ghost predicate CompletedUntouched(s: System, t: System, j: Job)
  {
    j.state == Completed ==>
      && (forall n: nat {:trigger (j.id, n)} :: (j.id, n) in s.store.rows ==> (j.id, n) in t.store.rows)
      && (forall n: nat {:trigger (j.id, n)} :: ((j.id, n) in s.committed <==> (j.id, n) in t.committed)
            && ((j.id, n) in s.committed ==> s.committed[(j.id, n)] == t.committed[(j.id, n)]))
  }

  lemma CompletedCarried(cidOf: bytes -> string, s: System, t: System, j: Job)
    requires CompletedOk(cidOf, s, j) && CompletedUntouched(s, t, j)
    requires forall c <- s.blobs :: c in t.blobs && t.blobs[c] == s.blobs[c]
    ensures CompletedOk(cidOf, t, j)
  {
    hide HeaderAt;
    if j.state == Completed {
      ConcatFrame(s.committed, t.committed, j.id, j.partCount);
    }
  }

  /** With the job table unchanged, its part of the invariant only needs the histories to stand still. */
  lemma JobsCarriedOver(cidOf: bytes -> string, s: System, t: System)
    requires JobsInv(cidOf, s) && t.store.jobs == s.store.jobs
    requires forall x <- s.store.jobs :: CompletedUntouched(s, t, x)
    requires forall c <- s.blobs :: c in t.blobs && t.blobs[c] == s.blobs[c]
    requires forall f <- s.finishers :: f.stage != Done ==> Claimed(t, f.id)
    ensures JobsInv(cidOf, t)
  {
    hide CompletedOk, CompletedUntouched;
    forall x | x in s.store.jobs ensures CompletedOk(cidOf, t, x) {
      CompletedCarried(cidOf, s, t, x);
    }
  }

  lemma ClaimsStay(s: System, t: System)
    requires t.finishers == s.finishers
    ensures forall f <- s.finishers :: f.stage != Done ==> Claimed(t, f.id)
  {
  }

  // ---------------------------------------------------------------- the sweep

  lemma SweptJobs(s: Store, now: int)
    requires UniqueIds(s.jobs)
    ensures var t := Sweep(s, now);
            && JobsCarried(s, t)
            && (forall id {:trigger JobAt(t.jobs, id)} :: JobAt(t.jobs, id) ==
                  match JobAt(s.jobs, id) case None => None case Some(j) => Some(SweepJob(j, now)))
            && (forall k <- s.files :: JobAt(t.jobs, k.0).Some? && Live(JobAt(t.jobs, k.0).value.state) ==>
                  k in t.files && t.files[k] == s.files[k])
  {
    var t := Sweep(s, now);
    forall id ensures JobAt(t.jobs, id) ==
                      match JobAt(s.jobs, id) case None => None case Some(j) => Some(SweepJob(j, now)) {
      JobAtSwept(s.jobs, now, id);
    }
    forall k | k in s.files && JobAt(t.jobs, k.0).Some? && Live(JobAt(t.jobs, k.0).value.state)
      ensures k in t.files && t.files[k] == s.files[k]
    {
      DueIdAt(s.jobs, now, k.0);
    }
  }

  lemma SweptJobsInv(cidOf: bytes -> string, s: System, t: System, now: int)
    requires JobsInv(cidOf, s) && t == s.(store := Sweep(s.store, now), clock := now)
    ensures JobsInv(cidOf, t)
  {
    forall j | j in t.store.jobs
      ensures JobOk(j) && CompletedOk(cidOf, t, j) && (j.state == Finishing ==> Claimed(t, j.id))
    {
      var i :| 0 <= i < |t.store.jobs| && t.store.jobs[i] == j;
      var was := s.store.jobs[i];
      assert was in s.store.jobs && j == SweepJob(was, now);
      CompletedCarried(cidOf, s, t, was);
      assert was.state == Finishing ==> Claimed(s, was.id);
      assert Claimed(s, was.id) ==> Claimed(t, was.id);
    }
  }

  /** The clock may move and the sweep may run at any time. */
  lemma SweepKeeps(cidOf: bytes -> string, s: System, now: int)
    requires Inv(cidOf, s)
    ensures Inv(cidOf, s.(store := Sweep(s.store, now), clock := now))
  {
    var t := s.(store := Sweep(s.store, now), clock := now);
    SweptJobsInv(cidOf, s, t, now);
    SweptJobs(s.store, now);
    hide JobAt, CompletedOk, FinisherOk, WriterOk, RowOk, Claimed;
    RowsCarried(s, t) by {
      assert forall k <- t.store.rows :: k in s.store.files ==> true;
    }
    WritersCarried(s, t);
    ActiveCarried(s, t);
    forall f | f in s.finishers ensures FinisherUntouched(s, t, f) {
      FinisherSwept(cidOf, s, f, now);
    }
    FinishersCarried(cidOf, s, t);
  }

  lemma FinisherSwept(cidOf: bytes -> string, s: System, f: Finisher, now: int)
    requires FinisherOk(cidOf, s, f) && UniqueIds(s.store.jobs)
    ensures FinisherUntouched(s, s.(store := Sweep(s.store, now), clock := now), f)
  {
    SweptJobs(s.store, now);
    hide JobAt;
  }

  // ---------------------------------------------------------------- starting a session

  lemma StartKeeps(cidOf: bytes -> string, s: System, t: System, j: Job)
    requires Inv(cidOf, s) && Find(s.store.jobs, j.id).None? && JobOk(j) && j.state == Created
    requires t == s.(store := s.store.(jobs := s.store.jobs + [j]))
    ensures Inv(cidOf, t)
  {
    StartedJobs(cidOf, s, t, j);
    hide JobAt, JobsInv, FinisherOk, WriterOk, RowOk;
    RowsCarried(s, t);
    WritersCarried(s, t);
    ActiveCarried(s, t);
    FinishersElsewhere(cidOf, s, t, j.id);
    FinishersCarried(cidOf, s, t);
  }

  lemma StartedJobs(cidOf: bytes -> string, s: System, t: System, j: Job)
    requires JobsInv(cidOf, s) && Find(s.store.jobs, j.id).None? && JobOk(j) && j.state == Created
    requires t == s.(store := s.store.(jobs := s.store.jobs + [j]))
    ensures JobsInv(cidOf, t) && JobsCarried(s.store, t.store) && JobAt(s.store.jobs, j.id).None?
    ensures forall id {:trigger JobAt(t.store.jobs, id)} ::
              JobAt(t.store.jobs, id) == if id == j.id then Some(j) else JobAt(s.store.jobs, id)
  {
    forall id ensures JobAt(t.store.jobs, id) == if id == j.id then Some(j) else JobAt(s.store.jobs, id) {
      JobAtAppended(s.store.jobs, j, id);
    }
    hide JobAt;
    forall x | x in s.store.jobs ensures CompletedOk(cidOf, t, x) && (x.state == Finishing ==> Claimed(t, x.id)) {
      CompletedCarried(cidOf, s, t, x);
      ClaimKept(s, t, x.id);
    }
  }

  /** A finisher at work belongs to a job that is FINISHING, so a step on any other job leaves it alone. */
  lemma FinishersElsewhere(cidOf: bytes -> string, s: System, t: System, id: string)
    requires FinishersInv(cidOf, s)
    requires JobAt(s.store.jobs, id).None? || JobAt(s.store.jobs, id).value.state != Finishing
    requires forall x {:trigger JobAt(t.store.jobs, x)} :: x != id ==> JobAt(t.store.jobs, x) == JobAt(s.store.jobs, x)
    requires forall k <- s.store.rows :: k.0 != id ==> k in t.store.rows
    requires forall k <- s.committed :: k in t.committed && (k.0 != id ==> t.committed[k] == s.committed[k])
    requires forall k <- t.committed :: k.0 != id ==> k in s.committed
    ensures forall f <- s.finishers :: FinisherUntouched(s, t, f)
  {
    hide JobAt;
    forall f | f in s.finishers ensures FinisherUntouched(s, t, f) {
      assert FinisherOk(cidOf, s, f);
    }
  }

  // ---------------------------------------------------------------- receiving parts

  lemma PartBeginKeeps(cidOf: bytes -> string, s: System, t: System, w: Writer)
    requires Inv(cidOf, s) && JobAt(s.store.jobs, w.id).Some?
    requires var j := JobAt(s.store.jobs, w.id).value;
             j.state == Created && 1 <= w.part <= j.partCount && w.expected == PartSize(j.size, j.partCount, w.part)
    requires w.data == [] && w.open && !w.freed && (w.id, w.part) !in s.store.active
    requires t == s.(store := s.store.(active := s.store.active + {(w.id, w.part)}), writers := s.writers + [w])
    ensures Inv(cidOf, t)
  {
    hide JobAt, CompletedOk, FinisherOk, Claimed;
    ClaimsStay(s, t);
    JobsCarriedOver(cidOf, s, t);
    RowsCarried(s, t);
    forall x | x in t.writers ensures WriterOk(t, x) {
      assert x == w || WriterOk(s, x);
    }
    forall i, j | 0 <= i < j < |t.writers| && !t.writers[i].freed && !t.writers[j].freed
      ensures (t.writers[i].id, t.writers[i].part) != (t.writers[j].id, t.writers[j].part)
    {
      assert t.writers[i] in s.writers;
    }
    forall k | k in t.store.active ensures exists x :: x in t.writers && !x.freed && (x.id, x.part) == k {
      assert w in t.writers;
      if k != (w.id, w.part) {
        var x :| x in s.writers && !x.freed && (x.id, x.part) == k;
        assert x in t.writers;
      }
    }
    FinishersCarried(cidOf, s, t);
  }

  lemma ClaimKept(s: System, t: System, id: string)
    requires forall f <- s.finishers :: f.stage != Done && f.id == id ==> f in t.finishers
    ensures Claimed(s, id) ==> Claimed(t, id)
  {
  }

  /** Replacing one writer by a later state of itself. */
  lemma WriterKeeps(cidOf: bytes -> string, s: System, t: System, i: nat, w: Writer)
    requires Inv(cidOf, s) && i < |s.writers| && !s.writers[i].freed && !w.freed
    requires w.id == s.writers[i].id && w.part == s.writers[i].part && w.expected == s.writers[i].expected && |w.data| <= w.expected
    requires t == s.(writers := s.writers[i := w])
    ensures Inv(cidOf, t)
  {
    hide JobAt, CompletedOk, FinisherOk, Claimed;
    ClaimsStay(s, t);
    JobsCarriedOver(cidOf, s, t);
    RowsCarried(s, t);
    assert WriterOk(s, s.writers[i]);
    forall x | x in t.writers ensures WriterOk(t, x) {
      assert x == w || WriterOk(s, x);
    }
    forall k | k in t.store.active ensures exists x :: x in t.writers && !x.freed && (x.id, x.part) == k {
      var x :| x in s.writers && !x.freed && (x.id, x.part) == k;
      var m :| 0 <= m < |s.writers| && s.writers[m] == x;
      assert t.writers[m] in t.writers;
    }
    FinishersCarried(cidOf, s, t);
  }

  /** A part is committed only while its job is CREATED, so nothing finished or finishing sees it. */
  lemma PartCommitKeeps(cidOf: bytes -> string, s: System, t: System, id: string, part: nat, data: bytes)
    requires Inv(cidOf, s) && JobAt(s.store.jobs, id).Some?
    requires var j := JobAt(s.store.jobs, id).value;
             j.state == Created && 1 <= part <= j.partCount && |data| == PartSize(j.size, j.partCount, part)
    requires t == s.(store := s.store.(files := s.store.files[(id, part) := data], rows := s.store.rows[(id, part) := |data|]),
                     committed := s.committed[(id, part) := data])
    ensures Inv(cidOf, t)
  {
    forall x | x in s.store.jobs ensures CompletedUntouched(s, t, x) {
      JobAtUnique(s.store.jobs, x);
    }
    ClaimsStay(s, t);
    JobsCarriedOver(cidOf, s, t);
    PartCommitRows(s, t, id, part, data);
    assert JobsCarried(s.store, t.store);
    hide RowsInv, Live, JobOk;
    hide JobAt, JobsInv, CompletedUntouched, FinisherOk, WriterOk, RowOk;
    WritersCarried(s, t);
    ActiveCarried(s, t);
    FinishersElsewhere(cidOf, s, t, id);
    FinishersCarried(cidOf, s, t);
  }

  lemma PartCommitRows(s: System, t: System, id: string, part: nat, data: bytes)
    requires RowsInv(s) && JobAt(s.store.jobs, id).Some?
    requires var j := JobAt(s.store.jobs, id).value;
             1 <= part <= j.partCount && |data| == PartSize(j.size, j.partCount, part)
    requires t == s.(store := s.store.(files := s.store.files[(id, part) := data], rows := s.store.rows[(id, part) := |data|]),
                     committed := s.committed[(id, part) := data])
    ensures RowsInv(t)
  {
    hide JobAt;
    forall k | k in t.store.rows ensures RowOk(t, k) {
      assert k == (id, part) || RowOk(s, k);
    }
  }

  lemma PartFreeKeeps(cidOf: bytes -> string, s: System, t: System, i: nat)
    requires Inv(cidOf, s) && i < |s.writers| && !s.writers[i].freed
    requires t == s.(store := PartFree(s.store, s.writers[i].id, s.writers[i].part),
                     writers := s.writers[i := s.writers[i].(open := false, freed := true)])
    ensures Inv(cidOf, t)
  {
    hide JobAt, CompletedOk, FinisherOk, Claimed;
    ClaimsStay(s, t);
    JobsCarriedOver(cidOf, s, t);
    RowsCarried(s, t);
    forall m | 0 <= m < |t.writers| ensures WriterOk(t, t.writers[m]) {
      assert WriterOk(s, s.writers[m]);
      if m != i && !s.writers[m].freed {
        assert (s.writers[m].id, s.writers[m].part) != (s.writers[i].id, s.writers[i].part);
      }
    }
    forall k | k in t.store.active ensures exists x :: x in t.writers && !x.freed && (x.id, x.part) == k {
      var x :| x in s.writers && !x.freed && (x.id, x.part) == k;
      var m :| 0 <= m < |s.writers| && s.writers[m] == x;
      assert t.writers[m] in t.writers;
    }
    FinishersCarried(cidOf, s, t);
  }
}
