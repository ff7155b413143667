/** Finishing, aborting and restarting keep the invariant; the results for whole runs. */
module VideoFinish {
  import opened Bytes
  import opened Outcome
  import opened VideoStore
  import opened VideoRuns
  import opened VideoSafety

  // ---------------------------------------------------------------- counting rows

  function PartKeys(id: string, count: nat): (r: set<Key>)
    ensures |r| == count
    ensures forall k :: k in r <==> k.0 == id && 1 <= k.1 <= count
  {
    if count == 0 then {} else PartKeys(id, count - 1) + {(id, count)}
  }

  lemma SubsetOfSameSize<T>(a: set<T>, b: set<T>)
    requires a <= b
    ensures |a| == |b| <==> a == b
    ensures |a| <= |b|
  {
    assert b == a + (b - a);
  }

  /** Since only parts 1 to n get rows, the number of rows is n exactly when every part has one. */
  lemma RowCountComplete(cidOf: bytes -> string, s: System, id: string)
    requires Inv(cidOf, s) && JobAt(s.store.jobs, id).Some?
    ensures var count := JobAt(s.store.jobs, id).value.partCount;
            |RowsOf(s.store, id)| == count <==> AllRows(s.store, id, count)
  {
    var count := JobAt(s.store.jobs, id).value.partCount;
    var rows, all := RowsOf(s.store, id), PartKeys(id, count);
    forall k | k in rows ensures k in all {
      assert RowOk(s, k);
    }
    SubsetOfSameSize(rows, all);
    if AllRows(s.store, id, count) {
      forall k | k in all ensures k in rows {
        assert (id, k.1) in s.store.rows;
      }
    }
    if rows == all {
      forall n: nat {:trigger (id, n)} | 1 <= n <= count ensures (id, n) in s.store.rows {
        assert (id, n) in all;
      }
    }
  }

  // ---------------------------------------------------------------- changing one job

  /** Putting a job into another state. */
  lemma ChangedJobs(s: Store, t: Store, i: nat, j: Job)
    requires UniqueIds(s.jobs) && i < |s.jobs| && Kin(s.jobs[i], j)
    requires t.jobs == s.jobs[i := j] && (Live(j.state) ==> Live(s.jobs[i].state))
    ensures UniqueIds(t.jobs) && JobsCarried(s, t) && JobAt(s.jobs, j.id) == Some(s.jobs[i])
    ensures forall id {:trigger JobAt(t.jobs, id)} :: JobAt(t.jobs, id) == if id == j.id then Some(j) else JobAt(s.jobs, id)
  {
    assert s.jobs[i] in s.jobs;
    JobAtUnique(s.jobs, s.jobs[i]);
    forall id ensures JobAt(t.jobs, id) == if id == j.id then Some(j) else JobAt(s.jobs, id) {
      JobAtUpdated(s.jobs, i, j, id);
    }
  }

  lemma ChangedJobsInv(cidOf: bytes -> string, s: System, t: System, i: nat, j: Job)
    requires JobsInv(cidOf, s) && i < |s.store.jobs| && t.store.jobs == s.store.jobs[i := j] && UniqueIds(t.store.jobs)
    requires JobOk(j) && CompletedOk(cidOf, t, j) && (j.state == Finishing ==> Claimed(t, j.id))
    requires forall x <- s.store.jobs :: x.id != j.id ==> CompletedUntouched(s, t, x)
    requires forall c <- s.blobs :: c in t.blobs && t.blobs[c] == s.blobs[c]
    requires forall f <- s.finishers :: f.stage != Done && f.id != j.id ==> Claimed(t, f.id)
    requires s.store.jobs[i].id == j.id
    ensures JobsInv(cidOf, t)
  {
    hide CompletedOk, CompletedUntouched;
    forall x | x in t.store.jobs
      ensures JobOk(x) && CompletedOk(cidOf, t, x) && (x.state == Finishing ==> Claimed(t, x.id))
    {
      if x != j {
        var m :| 0 <= m < |t.store.jobs| && t.store.jobs[m] == x;
        assert s.store.jobs[m] == x && x in s.store.jobs && x.id != j.id;
        CompletedCarried(cidOf, s, t, x);
        assert x.state == Finishing ==> Claimed(s, x.id);
      }
    }
  }

  // ---------------------------------------------------------------- marking

  lemma MarkKeeps(cidOf: bytes -> string, s: System, t: System, i: nat)
    requires Inv(cidOf, s) && i < |s.store.jobs| && s.store.jobs[i].state == Created
    requires var j := s.store.jobs[i];
             && !HasActivePart(s.store, j.id) && |RowsOf(s.store, j.id)| == j.partCount
             && t == s.(store := SetState(s.store, i, Finishing), finishers := s.finishers + [NewFinisher(j)])
    ensures Inv(cidOf, t)
  {
    var j := s.store.jobs[i];
    ChangedJobs(s.store, t.store, i, j.(state := Finishing));
    MarkedJobs(cidOf, s, t, i);
    MarkedFinishers(cidOf, s, t, i);
    hide JobAt, JobsInv, FinishersInv, CompletedOk, WriterOk, RowOk, FinisherOk;
    RowsCarried(s, t);
    WritersCarried(s, t);
    ActiveCarried(s, t);
  }

  function NewFinisher(j: Job): Finisher
  {
    Finisher(j.id, j.size, j.partCount, 1, Assembly([], false, Success), Reading)
  }

  lemma MarkedJobs(cidOf: bytes -> string, s: System, t: System, i: nat)
    requires JobsInv(cidOf, s) && i < |s.store.jobs| && s.store.jobs[i].state == Created
    requires t == s.(store := SetState(s.store, i, Finishing), finishers := s.finishers + [NewFinisher(s.store.jobs[i])])
    ensures JobsInv(cidOf, t)
  {
    hide JobAt;
    var j := s.store.jobs[i];
    assert JobOk(j) by { assert j in s.store.jobs; }
    assert NewFinisher(j) in t.finishers;
    forall g | g in s.finishers && g.stage != Done ensures Claimed(t, g.id) {
      assert g in t.finishers;
    }
    ChangedJobsInv(cidOf, s, t, i, j.(state := Finishing));
  }

  lemma MarkedFinishers(cidOf: bytes -> string, s: System, t: System, i: nat)
    requires Inv(cidOf, s) && i < |s.store.jobs| && s.store.jobs[i].state == Created
    requires |RowsOf(s.store, s.store.jobs[i].id)| == s.store.jobs[i].partCount
    requires t == s.(store := SetState(s.store, i, Finishing), finishers := s.finishers + [NewFinisher(s.store.jobs[i])])
    ensures FinishersInv(cidOf, t)
  {
    var j := s.store.jobs[i];
    ChangedJobs(s.store, t.store, i, j.(state := Finishing));
    NewFinisherOk(cidOf, s, t, i);
    hide JobAt, JobsInv, RowsOf;
    FinishersElsewhere(cidOf, s, t, j.id);
    forall g | g in t.finishers ensures FinisherOk(cidOf, t, g) {
      if g in s.finishers {
        FinisherCarried(cidOf, s, t, g);
      }
    }
    forall a | 0 <= a < |s.finishers| && s.finishers[a].stage != Done ensures s.finishers[a].id != j.id {
      assert FinisherOk(cidOf, s, s.finishers[a]);
    }
  }

  /** The call that marked an upload has all its rows, and has read nothing yet. */
  lemma NewFinisherOk(cidOf: bytes -> string, s: System, t: System, i: nat)
    requires Inv(cidOf, s) && i < |s.store.jobs| && s.store.jobs[i].state == Created
    requires |RowsOf(s.store, s.store.jobs[i].id)| == s.store.jobs[i].partCount
    requires t == s.(store := SetState(s.store, i, Finishing), finishers := s.finishers + [NewFinisher(s.store.jobs[i])])
    requires JobAt(t.store.jobs, s.store.jobs[i].id) == Some(s.store.jobs[i].(state := Finishing))
    ensures FinisherOk(cidOf, t, NewFinisher(s.store.jobs[i]))
  {
    RowCountComplete(cidOf, s, s.store.jobs[i].id);
    ChangedJobs(s.store, t.store, i, s.store.jobs[i].(state := Finishing));
    hide RowsOf;
  }

  // ---------------------------------------------------------------- assembling without the lock

  /** Replacing one finisher by a later stage of itself. */
  lemma FinisherKeeps(cidOf: bytes -> string, s: System, t: System, i: nat, g: Finisher)
    requires Inv(cidOf, s) && i < |s.finishers| && s.finishers[i].stage != Done && g.stage != Done
    requires g.id == s.finishers[i].id && FinisherOk(cidOf, t, g)
    requires t == s.(finishers := s.finishers[i := g], blobs := t.blobs)
    requires BlobsInv(cidOf, t.blobs) && forall c <- s.blobs :: c in t.blobs && t.blobs[c] == s.blobs[c]
    ensures Inv(cidOf, t)
  {
    hide JobAt, CompletedOk, FinisherOk, WriterOk, RowOk;
    FinishersReplaced(cidOf, s, t, i, g);
    forall f | f in s.finishers && f.stage != Done ensures Claimed(t, f.id) {
      var m :| 0 <= m < |s.finishers| && s.finishers[m] == f;
      assert t.finishers[m] in t.finishers;
    }
    hide Claimed, FinishersInv;
    JobsCarriedOver(cidOf, s, t);
    RowsCarried(s, t);
    WritersCarried(s, t);
    ActiveCarried(s, t);
  }

  lemma FinishersReplaced(cidOf: bytes -> string, s: System, t: System, i: nat, g: Finisher)
    requires FinishersInv(cidOf, s) && i < |s.finishers| && s.finishers[i].stage != Done
    requires g.id == s.finishers[i].id && FinisherOk(cidOf, t, g)
    requires t == s.(finishers := s.finishers[i := g], blobs := t.blobs)
    requires forall c <- s.blobs :: c in t.blobs && t.blobs[c] == s.blobs[c]
    ensures FinishersInv(cidOf, t)
  {
    hide FinisherOk;
    forall m | 0 <= m < |t.finishers| ensures FinisherOk(cidOf, t, t.finishers[m]) {
      if m != i {
        assert t.finishers[m] in s.finishers;
        FinisherCarried(cidOf, s, t, t.finishers[m]);
      }
    }
  }

  /** While the job is FINISHING its part files are what was committed, whoever else is at work. */
  lemma ReadPartKeeps(cidOf: bytes -> string, s: System, i: nat)
    requires Inv(cidOf, s)
    ensures Inv(cidOf, ReadPartStep(s, i))
  {
    var t := ReadPartStep(s, i);
    if t != s {
      NextPart(cidOf, s, s.finishers[i]);
      FinisherAlone(cidOf, s, t, t.finishers[i]);
      hide Inv, FinisherOk, ReadPart;
      FinisherKeeps(cidOf, s, t, i, t.finishers[i]) by { InvParts(cidOf, s); }
    }
  }

  lemma InvParts(cidOf: bytes -> string, s: System)
    requires Inv(cidOf, s)
    ensures BlobsInv(cidOf, s.blobs) && forall f <- s.finishers :: FinisherOk(cidOf, s, f)
  {
  }

  /** A finisher's own condition does not look at the other finishers. */
  lemma FinisherAlone(cidOf: bytes -> string, s: System, t: System, f: Finisher)
    requires FinisherOk(cidOf, s, f) && t == s.(finishers := t.finishers)
    ensures FinisherOk(cidOf, t, f)
  {
    hide JobAt, Concat, HeaderAt;
  }

  lemma NextPart(cidOf: bytes -> string, s: System, f: Finisher)
    requires Inv(cidOf, s) && f in s.finishers && f.stage == Reading && f.next <= f.count
    ensures var acc := ReadPart(f.acc, f.size, FileOf(s.store.files, (f.id, f.next)));
            FinisherOk(cidOf, s, f.(acc := acc, next := f.next + 1))
  {
    hide Inv;
    InvParts(cidOf, s);
    assert FinisherOk(cidOf, s, f);
    var k := (f.id, f.next);
    assert k in s.store.rows;
    RowIsOk(cidOf, s, k);
    var part := s.committed[k];
    var before, after := Concat(s.committed, f.id, f.next - 1), Concat(s.committed, f.id, f.next);
    assert after == before + part;
    RoomForPart(cidOf, s, f);
    hide JobAt, Concat;
    assert ReadPart(f.acc, f.size, Some(part)).data == after;
  }

  lemma RowIsOk(cidOf: bytes -> string, s: System, k: Key)
    requires Inv(cidOf, s) && k in s.store.rows
    ensures RowOk(s, k)
  {
  }

  lemma JobsAreOk(cidOf: bytes -> string, s: System)
    requires Inv(cidOf, s)
    ensures JobsInv(cidOf, s) && forall j <- s.store.jobs :: JobOk(j)
  {
  }

  /** The next part fits, and only the first one meets an empty buffer. */
  lemma RoomForPart(cidOf: bytes -> string, s: System, f: Finisher)
    requires Inv(cidOf, s) && FinisherOk(cidOf, s, f) && f.stage == Reading && f.next <= f.count
    ensures |Concat(s.committed, f.id, f.next)| <= f.size
    ensures f.next == 1 <==> Concat(s.committed, f.id, f.next - 1) == []
  {
    var j := JobAt(s.store.jobs, f.id).value;
    WholeSize(cidOf, s, f.id, f.next - 1);
    WholeSize(cidOf, s, f.id, f.next);
    assert JobOk(j);
    if f.next > 1 {
      PartSizesInRange(j.size, 1);
      SizesGrow(j.size, j.partCount, 1, f.next - 1);
      assert SizeOfFirst(j.size, j.partCount, 1) == PartSize(j.size, j.partCount, 1);
    }
  }

  lemma JudgeKeeps(cidOf: bytes -> string, s: System, i: nat)
    requires Inv(cidOf, s)
    ensures Inv(cidOf, JudgeStep(s, i))
  {
    var t := JudgeStep(s, i);
    if t != s {
      JudgedWell(cidOf, s, s.finishers[i]);
      FinisherAlone(cidOf, s, t, t.finishers[i]);
      hide Inv, FinisherOk, Verdict;
      FinisherKeeps(cidOf, s, t, i, t.finishers[i]) by { InvParts(cidOf, s); }
    }
  }

  /** The only verdicts are success and, for want of the MP4 header, an unsupported type. */
  lemma JudgedWell(cidOf: bytes -> string, s: System, f: Finisher)
    requires Inv(cidOf, s) && f in s.finishers && f.stage == Reading && (f.next > f.count || f.acc.verdict != Success)
    ensures FinisherOk(cidOf, s, f.(stage := Judged(Verdict(f.acc, f.size))))
  {
    hide Inv, JobAt, Concat, HeaderAt;
    InvParts(cidOf, s);
    assert FinisherOk(cidOf, s, f);
    WholeSize(cidOf, s, f.id, f.count);
  }

  lemma PutBlobKeeps(cidOf: bytes -> string, s: System, i: nat, stored: bool)
    requires Inv(cidOf, s) && Injective(cidOf)
    ensures Inv(cidOf, PutBlobStep(cidOf, s, i, stored))
  {
    var t := PutBlobStep(cidOf, s, i, stored);
    if t != s {
      var f := s.finishers[i];
      InvParts(cidOf, s);
      assert FinisherOk(cidOf, s, f);
      FinisherStored(cidOf, s, t, f, t.finishers[i]);
      hide Inv, FinisherOk;
      FinisherKeeps(cidOf, s, t, i, t.finishers[i]);
    }
  }

  lemma FinisherStored(cidOf: bytes -> string, s: System, t: System, f: Finisher, g: Finisher)
    requires FinisherOk(cidOf, s, f) && f.stage == Judged(Success)
    requires (g == f.(stage := Stored(Success)) && cidOf(f.acc.data) in t.blobs && t.blobs[cidOf(f.acc.data)] == f.acc.data)
             || g == f.(stage := Stored(ServiceOverloaded))
    requires t == s.(finishers := t.finishers, blobs := t.blobs)
    ensures FinisherOk(cidOf, t, g)
  {
    hide JobAt, Concat, HeaderAt;
  }

  // ---------------------------------------------------------------- committing

  lemma CommitKeeps(cidOf: bytes -> string, s: System, i: nat)
    requires Inv(cidOf, s)
    ensures Inv(cidOf, FinishCommitStep(cidOf, s, i))
  {
    var t := FinishCommitStep(cidOf, s, i);
    if t != s {
      hide FinishCommitStep, Committing, JobAt, JobsInv, RowsInv, WritersInv, ActiveInv, FinishersInv, BlobsInv;
      hide JobsCarried, FinisherOk, Find;
      var n := CommitTouches(cidOf, s, i);
      CommittedJobs(cidOf, s, t, i, n);
      CommittedFinishers(cidOf, s, t, i);
      CommittedOthers(s, t, s.finishers[i].id);
    }
  }

  lemma CommittedOthers(s: System, t: System, id: string)
    requires RowsInv(s) && WritersInv(s) && ActiveInv(s) && JobsCarried(s.store, t.store)
    requires t.writers == s.writers && t.committed == s.committed
    requires t.store.active == s.store.active && t.store.rows == s.store.rows
    requires forall x {:trigger JobAt(t.store.jobs, x)} :: x != id ==> JobAt(t.store.jobs, x) == JobAt(s.store.jobs, x)
    requires JobAt(s.store.jobs, id).Some? && JobAt(s.store.jobs, id).value.state == Finishing && JobAt(t.store.jobs, id).Some?
    requires var was, now := s.store.files, t.store.files;
             forall k <- was :: k.0 != id || Live(JobAt(t.store.jobs, id).value.state) ==> k in now && now[k] == was[k]
    ensures RowsInv(t) && WritersInv(t) && ActiveInv(t)
  {
    hide JobAt, WriterOk, RowOk;
    RowsCarried(s, t);
    WritersCarried(s, t);
    ActiveCarried(s, t);
  }

  lemma CommitTouches(cidOf: bytes -> string, s: System, i: nat) returns (n: nat)
    requires Inv(cidOf, s) && FinishCommitStep(cidOf, s, i) != s
    ensures var t := FinishCommitStep(cidOf, s, i);
            && i < |s.finishers| && Committing(cidOf, s, t, i, n) && s.finishers[i].stage != Done
            && JobAt(s.store.jobs, s.finishers[i].id).Some? && JobAt(s.store.jobs, s.finishers[i].id).value.state == Finishing
            && t.writers == s.writers && t.store.active == s.store.active && t.store.rows == s.store.rows
            && t.committed == s.committed && t.blobs == s.blobs
            && t.finishers == s.finishers[i := s.finishers[i].(stage := Done)]
  {
    hide Inv, Concat, HeaderAt, AllRows;
    InvParts(cidOf, s);
    assert FinisherOk(cidOf, s, s.finishers[i]);
    n := Find(s.store.jobs, s.finishers[i].id).value;
  }

  /** A commit acts on the job of its finisher. */
  ghost predicate Committing(cidOf: bytes -> string, s: System, t: System, i: nat, n: nat)
  {
    && i < |s.finishers| && ReadyToCommit(s.finishers[i]) && t == FinishCommitStep(cidOf, s, i)
    && FinisherOk(cidOf, s, s.finishers[i])
    && n < |s.store.jobs| && Find(s.store.jobs, s.finishers[i].id) == Some(n)
  }

  /** What a commit does to the tables. */
  lemma CommitEffect(cidOf: bytes -> string, s: System, t: System, i: nat, n: nat)
    requires Committing(cidOf, s, t, i, n) && JobOk(s.store.jobs[n])
    ensures |t.store.jobs| == |s.store.jobs|
    ensures var f, j, j' := s.finishers[i], s.store.jobs[n], t.store.jobs[n];
            && t.store.jobs == s.store.jobs[n := j'] && t.store.rows == s.store.rows
            && t.committed == s.committed && t.blobs == s.blobs
            && j.state == Finishing && j.id == f.id && j.size == f.size && j.partCount == f.count
            && Kin(j, j') && JobOk(j') && j'.state != Finishing
            && (j'.state == Completed ==> f.stage == Stored(Success) && j'.cid == Some(cidOf(f.acc.data)))
            && forall k <- s.store.files :: k.0 != f.id || Live(j'.state) ==> k in t.store.files && t.store.files[k] == s.store.files[k]
  {
    hide Concat, HeaderAt, AllRows;
  }

  lemma CommittedJobs(cidOf: bytes -> string, s: System, t: System, i: nat, n: nat)
    requires Inv(cidOf, s) && Committing(cidOf, s, t, i, n)
    ensures JobsInv(cidOf, t) && JobsCarried(s.store, t.store)
    ensures forall id {:trigger JobAt(t.store.jobs, id)} :: id != s.finishers[i].id ==> JobAt(t.store.jobs, id) == JobAt(s.store.jobs, id)
    ensures JobAt(t.store.jobs, s.finishers[i].id).Some?
    ensures var was, now := s.store.files, t.store.files;
            forall k <- was :: k.0 != s.finishers[i].id || Live(JobAt(t.store.jobs, s.finishers[i].id).value.state) ==>
              k in now && now[k] == was[k]
  {
    hide Inv, FinisherOk, JobOk, CompletedOk;
    var f := s.finishers[i];
    assert s.store.jobs[n] in s.store.jobs;
    JobsAreOk(cidOf, s);
    CommitEffect(cidOf, s, t, i, n);
    var j, j' := s.store.jobs[n], t.store.jobs[n];
    assert t.finishers == s.finishers[i := f.(stage := Done)];
    hide FinishCommitStep;
    CommittedPromise(cidOf, s, t, f, j');
    hide Find;
    ChangedJobs(s.store, t.store, n, j');
    hide JobAt;
    OtherClaimsStay(s, t, i);
    ChangedJobsInv(cidOf, s, t, n, j');
  }

  lemma OtherClaimsStay(s: System, t: System, i: nat)
    requires i < |s.finishers| && t.finishers == s.finishers[i := s.finishers[i].(stage := Done)]
    ensures forall g <- s.finishers :: g.stage != Done && g.id != s.finishers[i].id ==> Claimed(t, g.id)
  {
    forall g | g in s.finishers && g.stage != Done && g.id != s.finishers[i].id ensures Claimed(t, g.id) {
      var m :| 0 <= m < |s.finishers| && s.finishers[m] == g;
      assert t.finishers[m] in t.finishers;
    }
  }

  lemma CommittedFinishers(cidOf: bytes -> string, s: System, t: System, i: nat)
    requires FinishersInv(cidOf, s) && i < |s.finishers| && s.finishers[i].stage != Done
    requires t.finishers == s.finishers[i := s.finishers[i].(stage := Done)]
    requires t.blobs == s.blobs && t.committed == s.committed && t.store.rows == s.store.rows
    requires forall id {:trigger JobAt(t.store.jobs, id)} :: id != s.finishers[i].id ==> JobAt(t.store.jobs, id) == JobAt(s.store.jobs, id)
    ensures FinishersInv(cidOf, t)
  {
    hide JobAt;
    forall m | 0 <= m < |t.finishers| ensures FinisherOk(cidOf, t, t.finishers[m]) {
      if m != i && s.finishers[m].stage != Done {
        assert s.finishers[m].id != s.finishers[i].id;
        assert s.finishers[m] in s.finishers;
        FinisherCarried(cidOf, s, t, s.finishers[m]);
      }
    }
  }

  /** What the finisher assembled and stored is the whole of the committed parts. */
  lemma CommittedPromise(cidOf: bytes -> string, s: System, t: System, f: Finisher, j: Job)
    requires Inv(cidOf, s) && FinisherOk(cidOf, s, f) && f.stage != Done && f.stage != Reading
    requires j.id == f.id && j.partCount == f.count && j.size == f.size
    requires j.state == Completed ==> f.stage == Stored(Success) && j.cid == Some(cidOf(f.acc.data))
    requires t.store.rows == s.store.rows && t.committed == s.committed && t.blobs == s.blobs
    ensures CompletedOk(cidOf, t, j)
  {
    WholeSize(cidOf, s, f.id, f.count);
  }

  // ---------------------------------------------------------------- aborting

  lemma AbortKeeps(cidOf: bytes -> string, s: System, t: System, i: nat)
    requires Inv(cidOf, s) && i < |s.store.jobs| && s.store.jobs[i].state == Created
    requires var id := s.store.jobs[i].id;
             t == s.(store := SetState(s.store, i, Aborted).(files := WithoutFiles(s.store.files, id),
                                       rows := map k <- s.store.rows | k.0 != id :: s.store.rows[k]))
    ensures Inv(cidOf, t)
  {
    ChangedJobs(s.store, t.store, i, t.store.jobs[i]);
    AbortedJobs(cidOf, s, t, i);
    hide JobAt, JobsInv, WriterOk, RowOk, FinisherOk;
    FinishersElsewhere(cidOf, s, t, s.store.jobs[i].id);
    FinishersCarried(cidOf, s, t);
    hide FinishersInv;
    RowsCarried(s, t);
    WritersCarried(s, t);
    ActiveCarried(s, t);
  }

  lemma AbortedJobs(cidOf: bytes -> string, s: System, t: System, i: nat)
    requires JobsInv(cidOf, s) && i < |s.store.jobs| && s.store.jobs[i].state == Created
    requires t.store.jobs == s.store.jobs[i := s.store.jobs[i].(state := Aborted)]
    requires t.finishers == s.finishers && t.blobs == s.blobs && t.committed == s.committed
    requires forall k <- s.store.rows :: k.0 != s.store.jobs[i].id ==> k in t.store.rows
    ensures JobsInv(cidOf, t)
  {
    assert s.store.jobs[i] in s.store.jobs;
    ClaimsStay(s, t);
    ChangedJobsInv(cidOf, s, t, i, t.store.jobs[i]);
  }
}
