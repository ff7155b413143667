/** The tables, part files and blobs of multipart video uploads, one locked region to a function. */
module VideoStore {
  import opened Bytes
  import opened Outcome

  const MAX_BYTES := 300_000_000
  const PART_BYTES := 5_000_000
  const MAX_PARTS := 60
  const MAX_OPEN := 4
  const DAILY_BYTES := 1_073_741_824
  const DAILY_COUNT := 100
  const LIFETIME := 86400

  datatype State = Created | Finishing | Completed | Failed | Aborted | Expired

  datatype Reply =
    | Success | NotFound | ExpiredReply | InvalidPart | PartSizeMismatch | NotReady | FailedReply | AbortedReply
    | AlreadyCompleted | MissingParts | UnsupportedContentType | TooLarge | DailyLimit | TooManyOpen
    | ServiceOverloaded | InvalidRequest | Internal

  datatype Job = Job(id: string, size: nat, partCount: nat, createdAt: int, expiresAt: int, state: State, cid: Option<string>)

  type Key = (string, nat)

  /** The upload and part tables, the part files by job and number, and the keys of the active writers. */
  datatype Store = Store(jobs: seq<Job>, rows: map<Key, nat>, files: map<Key, bytes>, active: set<Key>)

  // ---------------------------------------------------------------- part sizes

  function PartCount(size: nat): nat { (size + PART_BYTES - 1) / PART_BYTES }

  /** The length part `n` must have. */
  function PartSize(size: nat, count: nat, n: nat): int
    requires n >= 1
  {
    if n == count then size - (n - 1) * PART_BYTES else PART_BYTES
  }

  lemma PartSizesInRange(size: nat, n: nat)
    requires 0 < size <= MAX_BYTES && 1 <= n <= PartCount(size)
    ensures 1 <= PartCount(size) <= MAX_PARTS
    ensures 1 <= PartSize(size, PartCount(size), n) <= PART_BYTES
  {
  }

  /** The sizes of the first `n` parts together. */
  function SizeOfFirst(size: nat, count: nat, n: nat): int
  {
    if n == 0 then 0 else SizeOfFirst(size, count, n - 1) + PartSize(size, count, n)
  }

  lemma {:induction false} FullParts(size: nat, count: nat, n: nat)
    requires n < count
    ensures SizeOfFirst(size, count, n) == n * PART_BYTES
  {
    if n > 0 {
      FullParts(size, count, n - 1);
    }
  }

  /** The parts add up to the declared size. */
  lemma PartSizesSum(size: nat)
    requires size > 0
    ensures SizeOfFirst(size, PartCount(size), PartCount(size)) == size
  {
    FullParts(size, PartCount(size), PartCount(size) - 1);
  }

  // ---------------------------------------------------------------- looking jobs up

  function Find(jobs: seq<Job>, id: string): (r: Option<nat>)
    ensures r.Some? ==> r.value < |jobs| && jobs[r.value].id == id
    ensures r.None? ==> forall j <- jobs :: j.id != id
  {
    if jobs == [] then None
    else if jobs[|jobs| - 1].id == id then Some(|jobs| - 1)
    else
      assert jobs == jobs[..|jobs| - 1] + [jobs[|jobs| - 1]];
      Find(jobs[..|jobs| - 1], id)
  }

  ghost predicate UniqueIds(jobs: seq<Job>)
  {
    forall i, j :: 0 <= i < j < |jobs| ==> jobs[i].id != jobs[j].id
  }

  function ReplyFor(state: State): Reply
  {
    match state
    case Created => Success
    case Finishing => NotReady
    case Completed => AlreadyCompleted
    case Failed => FailedReply
    case Aborted => AbortedReply
    case Expired => ExpiredReply
  }

  function SetState(s: Store, i: nat, state: State): Store
    requires i < |s.jobs|
  {
    s.(jobs := s.jobs[i := s.jobs[i].(state := state)])
  }

  function WithoutFiles(files: map<Key, bytes>, id: string): map<Key, bytes>
  {
    map k <- files | k.0 != id :: files[k]
  }

  // ---------------------------------------------------------------- expiry

  predicate Due(j: Job, now: int) { j.state == Created && j.expiresAt <= now }

  function SweepJob(j: Job, now: int): Job { if Due(j, now) then j.(state := Expired) else j }

  function SweepJobs(jobs: seq<Job>, now: int): (r: seq<Job>)
    ensures |r| == |jobs| && forall i :: 0 <= i < |r| ==> r[i] == SweepJob(jobs[i], now)
  {
    seq(|jobs|, i requires 0 <= i < |jobs| => SweepJob(jobs[i], now))
  }

  predicate DueId(jobs: seq<Job>, now: int, id: string) { exists j <- jobs :: j.id == id && Due(j, now) }

  /** Sessions past their time become EXPIRED and lose their files; their part rows stay. */
  function Sweep(s: Store, now: int): Store
  {
    s.(jobs := SweepJobs(s.jobs, now), files := map k <- s.files | !DueId(s.jobs, now, k.0) :: s.files[k])
  }

  // ---------------------------------------------------------------- quotas

  predicate Counted(j: Job, now: int)
  {
    (j.state == Created || j.state == Finishing || j.state == Completed) && j.createdAt > now - 86400
  }

  function UsedBytes(jobs: seq<Job>, now: int): nat
  {
    if jobs == [] then 0
    else UsedBytes(jobs[..|jobs| - 1], now) + if Counted(jobs[|jobs| - 1], now) then jobs[|jobs| - 1].size else 0
  }

  function UsedVideos(jobs: seq<Job>, now: int): nat
  {
    if jobs == [] then 0
    else UsedVideos(jobs[..|jobs| - 1], now) + if Counted(jobs[|jobs| - 1], now) then 1 else 0
  }

  function OpenUploads(jobs: seq<Job>, now: int): nat
  {
    if jobs == [] then 0
    else
      OpenUploads(jobs[..|jobs| - 1], now)
      + if Counted(jobs[|jobs| - 1], now) && jobs[|jobs| - 1].state != Completed then 1 else 0
  }

  datatype Limits = Limits(bytes: nat, videos: nat, open: nat)

  /** What is left of the day's allowance. */
  function LimitsOf(jobs: seq<Job>, now: int): Limits
  {
    var bytes, videos := UsedBytes(jobs, now), UsedVideos(jobs, now);
    Limits(if bytes >= DAILY_BYTES then 0 else DAILY_BYTES - bytes,
           if videos >= DAILY_COUNT then 0 else DAILY_COUNT - videos,
           OpenUploads(jobs, now))
  }

  // ---------------------------------------------------------------- operations

  /** `mp4` and `nameFits` stand for the checks of the media type and the name length. */
  function Start(s: Store, now: int, id: string, size: nat, mp4: bool, nameFits: bool): (Store, Reply)
  {
    if size == 0 then (s, InvalidRequest)
    else if size > MAX_BYTES then (s, TooLarge)
    else if !mp4 then (s, UnsupportedContentType)
    else if !nameFits then (s, InvalidRequest)
    else
      var t := Sweep(s, now);
      var left := LimitsOf(t.jobs, now);
      if left.open >= MAX_OPEN then (t, TooManyOpen)
      else if left.videos == 0 || size > left.bytes then (t, DailyLimit)
      else if Find(t.jobs, id).Some? then (t, ServiceOverloaded)
      else (t.(jobs := t.jobs + [Job(id, size, PartCount(size), now, now + LIFETIME, Created, None)]), Success)
  }

  /** On success the part's key is active and the returned length is what the writer must deliver. */
  function PartBegin(s: Store, now: int, id: string, part: nat, length: nat): (r: (Store, Reply, nat))
  {
    var t := Sweep(s, now);
    match Find(t.jobs, id)
    case None => (t, NotFound, 0)
    case Some(i) =>
      var job := t.jobs[i];
      if job.state != Created then (t, ReplyFor(job.state), 0)
      else if part == 0 || part > job.partCount then (t, InvalidPart, 0)
      else if length != PartSize(job.size, job.partCount, part) then (t, PartSizeMismatch, 0)
      else if (id, part) in t.active then (t, NotReady, 0)
      else (t.(active := t.active + {(id, part)}), Success, length)
  }

  /** The locked end of a part: the file takes its final name and the row is written. */
  function PartCommit(s: Store, id: string, part: nat, data: bytes): (Store, Reply)
  {
    match Find(s.jobs, id)
    case None => (s, NotFound)
    case Some(i) =>
      if s.jobs[i].state != Created then (s, ReplyFor(s.jobs[i].state))
      else (s.(files := s.files[(id, part) := data], rows := s.rows[(id, part) := |data|]), Success)
  }

  function PartFree(s: Store, id: string, part: nat): Store
  {
    s.(active := s.active - {(id, part)})
  }

  predicate HasActivePart(s: Store, id: string) { exists k <- s.active :: k.0 == id }

  function RowsOf(s: Store, id: string): set<Key> { set k <- s.rows.Keys | k.0 == id }

  /** The first region of finish. Success with a job means that job has been marked FINISHING. */
  function FinishMark(s: Store, now: int, id: string): (Store, Reply, Option<Job>)
  {
    var t := Sweep(s, now);
    match Find(t.jobs, id)
    case None => (t, NotFound, None)
    case Some(i) =>
      var job := t.jobs[i];
      if job.state == Completed then (t, Success, None)
      else if job.state != Created then (t, ReplyFor(job.state), None)
      else if HasActivePart(t, id) then (t, NotReady, None)
      else if |RowsOf(t, id)| != job.partCount then (t, MissingParts, None)
      else (SetState(t, i, Finishing), Success, Some(job))
  }

  /** The last region of finish, for a call that had marked the job. */
  function FinishCommit(s: Store, id: string, outcome: Reply, cid: string): Store
  {
    match Find(s.jobs, id)
    case None => s
    case Some(i) =>
      if outcome == Success then
        s.(jobs := s.jobs[i := s.jobs[i].(state := Completed, cid := Some(cid))], files := WithoutFiles(s.files, id))
      else if outcome == UnsupportedContentType then SetState(s, i, Failed)
      else if s.jobs[i].state == Finishing then SetState(s, i, Created)
      else s
  }

  function Abort(s: Store, now: int, id: string): (Store, Reply)
  {
    var t := Sweep(s, now);
    match Find(t.jobs, id)
    case None => (t, NotFound)
    case Some(i) =>
      if t.jobs[i].state == Finishing || HasActivePart(t, id) then (t, NotReady)
      else if t.jobs[i].state == Created then
        (SetState(t, i, Aborted).(files := WithoutFiles(t.files, id), rows := map k <- t.rows | k.0 != id :: t.rows[k]), Success)
      else (t, Success)
  }

  function ResetJob(j: Job): Job { if j.state == Finishing then j.(state := Created) else j }

  function ResetJobs(jobs: seq<Job>): (r: seq<Job>)
    ensures |r| == |jobs| && forall i :: 0 <= i < |r| ==> r[i] == ResetJob(jobs[i])
  {
    seq(|jobs|, i requires 0 <= i < |jobs| => ResetJob(jobs[i]))
  }

  /** Opening after a crash: interrupted finishes are taken back, nobody is writing. */
  function Reopen(s: Store, now: int): Store
  {
    Sweep(s.(jobs := ResetJobs(s.jobs), active := {}), now)
  }

  // ---------------------------------------------------------------- assembling

  /** Whether a file begins like an MP4 container. */
  predicate HeaderAt(first: bytes)
  {
    |first| >= 12 && first[4..8] == [0x66, 0x74, 0x79, 0x70]
  }

  /** Accumulated octets, header flag and verdict while parts are read. */
  datatype Assembly = Assembly(data: bytes, header: bool, verdict: Reply)

  /** Reading one part file. The header is judged on the first non-empty block of all. */
  function ReadPart(a: Assembly, size: nat, file: Option<bytes>): Assembly
  {
    if file.None? then a.(verdict := ServiceOverloaded)
    else
      var f := file.value;
      var header := if a.data == [] && |f| >= 12 then HeaderAt(f) else a.header;
      if |a.data| + |f| > size then a.(header := header, verdict := Internal)
      else a.(data := a.data + f, header := header)
  }

  /** The verdict once no more parts are read. */
  function Verdict(a: Assembly, size: nat): Reply
  {
    if |a.data| != size then Internal
    else if a.verdict == Success && !a.header then UnsupportedContentType
    else a.verdict
  }
}
