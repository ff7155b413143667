/** The upload store and the part writers as objects updated in place. */
module VideoObject {
  import opened Bytes
  import opened Outcome
  import opened VideoStore
  import VideoRuns

  const BLOCK := 65536

  class UploadStore {
    var jobs: seq<Job>
    var rows: map<Key, nat>
    var files: map<Key, bytes>
    var active: set<Key>

    ghost function View(): Store
      reads this
    {
      Store(jobs, rows, files, active)
    }

    constructor (stored: Store, now: int)
      ensures View() == Reopen(stored, now)
    {
      jobs, rows, files, active := ResetJobs(stored.jobs), stored.rows, stored.files, {};
      new;
      ExpireSessions(now);
    }

    /** Selects the sessions that are due, updates their state, then removes their directories one by one. */
    method ExpireSessions(now: int)
      modifies this`jobs, this`files
      ensures View() == Sweep(old(View()), now)
    {
      var expired: seq<string> := [];
      for i := 0 to |jobs|
        invariant forall id :: id in expired <==> exists k :: 0 <= k < i && jobs[k].id == id && Due(jobs[k], now)
      {
        if Due(jobs[i], now) {
          expired := expired + [jobs[i].id];
        }
      }
      assert forall id :: id in expired <==> DueId(jobs, now, id);
      jobs := SweepJobs(jobs, now);
      for i := 0 to |expired|
        invariant jobs == SweepJobs(old(jobs), now)
        invariant files == map k <- old(files) | k.0 !in expired[..i] :: old(files)[k]
      {
        files := WithoutFiles(files, expired[i]);
      }
      assert expired[..|expired|] == expired;
      assert files == map k <- old(files) | !DueId(old(jobs), now, k.0) :: old(files)[k];
    }

    method StartUpload(now: int, id: string, size: nat, mp4: bool, nameFits: bool) returns (reply: Reply)
      modifies this`jobs, this`files
      ensures (View(), reply) == Start(old(View()), now, id, size, mp4, nameFits)
    {
      if size == 0 { return InvalidRequest; }
      if size > MAX_BYTES { return TooLarge; }
      if !mp4 { return UnsupportedContentType; }
      if !nameFits { return InvalidRequest; }
      ExpireSessions(now);
      var left := LimitsOf(jobs, now);
      if left.open >= MAX_OPEN { return TooManyOpen; }
      if left.videos == 0 || size > left.bytes { return DailyLimit; }
      if Find(jobs, id).Some? { return ServiceOverloaded; }
      var count := (size + PART_BYTES - 1) / PART_BYTES;
      jobs := jobs + [Job(id, size, count, now, now + LIFETIME, Created, None)];
      return Success;
    }

    method BeginPart(now: int, id: string, part: nat, length: nat) returns (reply: Reply, writer: PartWriter?)
      modifies this`jobs, this`files, this`active
      ensures View() == PartBegin(old(View()), now, id, part, length).0
      ensures reply == PartBegin(old(View()), now, id, part, length).1
      ensures reply != Success ==> writer == null
      ensures reply == Success ==> writer != null && fresh(writer)
      ensures reply == Success ==>
                writer.View() == VideoRuns.Writer(id, part, PartBegin(old(View()), now, id, part, length).2, [], true, false)
    {
      writer := null;
      ExpireSessions(now);
      var found := Find(jobs, id);
      if found.None? { return NotFound, null; }
      var job := jobs[found.value];
      if job.state != Created { return ReplyFor(job.state), null; }
      if part == 0 || part > job.partCount { return InvalidPart, null; }
      var offset := (part - 1) * PART_BYTES;
      var expected := if part == job.partCount then job.size - offset else PART_BYTES;
      if length != expected { return PartSizeMismatch, null; }
      if (id, part) in active { return NotReady, null; }
      active := active + {(id, part)};
      writer := new PartWriter(id, part, length);
      reply := Success;
    }

    method MarkFinishing(now: int, id: string) returns (reply: Reply, marked: Option<Job>, missing: seq<nat>)
      modifies this`jobs, this`files
      ensures (View(), reply, marked) == FinishMark(old(View()), now, id)
      ensures reply == MissingParts ==> Find(jobs, id).Some?
      ensures reply == MissingParts ==>
                forall n :: n in missing <==> 1 <= n <= jobs[Find(jobs, id).value].partCount && (id, n) !in rows
    {
      missing := [];
      ExpireSessions(now);
      var found := Find(jobs, id);
      if found.None? { return NotFound, None, []; }
      var i := found.value;
      var job := jobs[i];
      if job.state == Completed { return Success, None, []; }
      if job.state != Created { return ReplyFor(job.state), None, []; }
      if HasActivePart(Store(jobs, rows, files, active), id) { return NotReady, None, []; }
      if |RowsOf(Store(jobs, rows, files, active), id)| != job.partCount {
        missing := ListMissing(id, job.partCount);
        return MissingParts, None, missing;
      }
      jobs := jobs[i := job.(state := Finishing)];
      return Success, Some(job), [];
    }

    /** The part numbers named in the refusal. */
    method ListMissing(id: string, count: nat) returns (missing: seq<nat>)
      ensures forall n :: n in missing <==> 1 <= n <= count && (id, n) !in rows
    {
      missing := [];
      for part := 1 to count + 1
        invariant forall n :: n in missing <==> 1 <= n < part && (id, n) !in rows
      {
        if (id, part) !in rows {
          missing := missing + [part];
        }
      }
    }

    method CommitFinish(id: string, outcome: Reply, cid: string)
      modifies this`jobs, this`files
      ensures View() == FinishCommit(old(View()), id, outcome, cid)
    {
      var found := Find(jobs, id);
      if found.None? { return; }
      var i := found.value;
      if outcome == Success {
        jobs := jobs[i := jobs[i].(state := Completed, cid := Some(cid))];
        files := WithoutFiles(files, id);
      } else if outcome == UnsupportedContentType {
        jobs := jobs[i := jobs[i].(state := Failed)];
      } else if jobs[i].state == Finishing {
        jobs := jobs[i := jobs[i].(state := Created)];
      }
    }

    method AbortUpload(now: int, id: string) returns (reply: Reply)
      modifies this`jobs, this`files, this`rows
      ensures (View(), reply) == Abort(old(View()), now, id)
    {
      ExpireSessions(now);
      var found := Find(jobs, id);
      if found.None? { return NotFound; }
      var i := found.value;
      if jobs[i].state == Finishing || HasActivePart(Store(jobs, rows, files, active), id) { return NotReady; }
      if jobs[i].state == Created {
        jobs := jobs[i := jobs[i].(state := Aborted)];
        files := WithoutFiles(files, id);
        rows := map k <- rows | k.0 != id :: rows[k];
      }
      return Success;
    }
  }

  /** A part being written to its temporary file. */
  class PartWriter {
    const id: string
    const part: nat
    const expected: nat
    var data: bytes
    var open: bool
    var freed: bool
    var committed: bool

    constructor (id: string, part: nat, expected: nat)
      ensures View() == VideoRuns.Writer(id, part, expected, [], true, false) && !committed
    {
      this.id, this.part, this.expected := id, part, expected;
      data, open, freed, committed := [], true, false, false;
    }

    ghost function View(): VideoRuns.Writer
      reads this
    {
      VideoRuns.Writer(id, part, expected, data, open, freed)
    }

    method Write(chunk: bytes) returns (reply: Reply)
      modifies this`data
      ensures (View(), reply) == VideoRuns.WriteChunk(old(View()), chunk)
    {
      if !open { return InvalidRequest; }
      if |data| > expected || |chunk| > expected - |data| { return PartSizeMismatch; }
      data := data + chunk;
      return Success;
    }

    method Finish(store: UploadStore) returns (reply: Reply)
      modifies this`open, this`committed, store`files, store`rows
      ensures !old(open) ==> reply == InvalidRequest && View() == old(View()) && store.View() == old(store.View())
      ensures old(open) && |data| != expected ==> reply == PartSizeMismatch && View() == old(View()) && store.View() == old(store.View())
      ensures old(open) && |data| == expected ==>
                && View() == old(View()).(open := false)
                && (store.View(), reply) == PartCommit(old(store.View()), id, part, data)
                && (reply == Success ==> committed)
    {
      if !open { return InvalidRequest; }
      if |data| != expected { return PartSizeMismatch; }
      open := false;
      var found := Find(store.jobs, id);
      if found.None? { return NotFound; }
      var current := ReplyFor(store.jobs[found.value].state);
      if current != Success { return current; }
      store.files := store.files[(id, part) := data];
      store.rows := store.rows[(id, part) := |data|];
      committed := true;
      return Success;
    }

    method Free(store: UploadStore)
      modifies this`open, this`freed, store`active
      ensures View() == old(View()).(open := false, freed := true)
      ensures store.View() == PartFree(old(store.View()), id, part)
    {
      open := false;
      store.active := store.active - {(id, part)};
      freed := true;
    }
  }

  // ---------------------------------------------------------------- assembling

  /** Reading parts `n` to `count` one after the other, stopping at the first that cannot be used. */
  function ReadParts(files: map<Key, bytes>, id: string, size: nat, n: nat, count: nat, a: Assembly): Assembly
    decreases count + 1 - n
  {
    if n > count || a.verdict != Success then a
    else ReadParts(files, id, size, n + 1, count, ReadPart(a, size, VideoRuns.FileOf(files, (id, n))))
  }

  /** The block loop over one part file: each block is checked against the declared size before it is written. */
  method CopyBlocks(before: Assembly, size: nat, file: bytes) returns (after: Assembly)
    requires before.verdict == Success && |before.data| <= size
    ensures after.verdict == ReadPart(before, size, Some(file)).verdict
    ensures after.verdict == Success ==> after == ReadPart(before, size, Some(file))
    ensures |after.data| <= size
  {
    var data, header := before.data, before.header;
    var at := 0;
    while true
      invariant at <= |file| && data == before.data + file[..at] && |data| <= size
      invariant header == if at > 0 && before.data == [] && |file| >= 12 then HeaderAt(file) else before.header
      decreases |file| - at
    {
      var got := if |file| - at < BLOCK then |file| - at else BLOCK;
      if got > 0 {
        var block := file[at..at + got];
        if |data| == 0 && got >= 12 {
          BlockHeader(file, got);
          header := block[4..8] == [0x66, 0x74, 0x79, 0x70];
        }
        if |data| > size || got > size - |data| {
          return Assembly(data, header, Internal);
        }
        data := data + block;
        TakeMore(before.data, file, at, got);
        at := at + got;
      }
      if got < BLOCK {
        break;
      }
    }
    assert file[..at] == file;
    return Assembly(data, header, Success);
  }

  lemma {:induction false} TakeMore(start: bytes, file: bytes, at: nat, got: nat)
    requires at + got <= |file|
    ensures start + file[..at] + file[at..at + got] == start + file[..at + got]
  {
    assert file[..at] + file[at..at + got] == file[..at + got];
  }

  lemma {:induction false} BlockHeader(file: bytes, got: nat)
    requires 12 <= got <= |file|
    ensures file[0..got][4..8] == file[4..8]
  {
  }

  method AssembleUpload(files: map<Key, bytes>, job: Job) returns (a: Assembly, verdict: Reply)
    ensures var r := ReadParts(files, job.id, job.size, 1, job.partCount, Assembly([], false, Success));
            && verdict == Verdict(r, job.size)
            && (verdict == Success ==> a == r)
  {
    ghost var r := ReadParts(files, job.id, job.size, 1, job.partCount, Assembly([], false, Success));
    a := Assembly([], false, Success);
    var part := 1;
    while part <= job.partCount && a.verdict == Success
      invariant 1 <= part && |a.data| <= job.size
      invariant a.verdict == Success || a.verdict == ServiceOverloaded || a.verdict == Internal
      invariant a.verdict == Success ==> r == ReadParts(files, job.id, job.size, part, job.partCount, a)
      invariant a.verdict == ServiceOverloaded ==> a == r
      invariant a.verdict == Internal ==> r.verdict == Internal
      decreases job.partCount + 1 - part
    {
      var file := VideoRuns.FileOf(files, (job.id, part));
      if file.None? {
        a := a.(verdict := ServiceOverloaded);
      } else {
        a := CopyBlocks(a, job.size, file.value);
      }
      part := part + 1;
    }
    if |a.data| != job.size {
      verdict := Internal;
    } else if a.verdict == Success && !a.header {
      verdict := UnsupportedContentType;
    } else {
      verdict := a.verdict;
    }
  }
}
