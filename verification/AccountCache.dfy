/** The reference-counted cache of open account contexts, over any interleaving of its callers. */
module AccountCache {
  import opened Outcome

  const DEFAULT_LIMIT := 256

  /** One open context: `refs` acquisitions not yet released, `touched` the stamp of its last use. */
  datatype Entry = Entry(did: string, ctx: nat, refs: nat, touched: nat)

  /** The list from its head, the counters, and what became of contexts that left the list. */
  datatype Cache = Cache(entries: seq<Entry>, touches: nat, idle: int, total: int, limit: nat,
                         closed: seq<nat>, lost: seq<nat>)

  /**
   * How a victim is taken out of the list: as the eviction scan is written, where the remembered predecessor
   * is the last idle entry before the victim, or after its true predecessor.
   */
  datatype Unlinking = AsWritten | TruePredecessor

  // ---------------------------------------------------------------- the list

  function Ctxs(e: seq<Entry>): (r: seq<nat>)
    ensures |r| == |e| && forall i :: 0 <= i < |r| ==> r[i] == e[i].ctx
  {
    seq(|e|, i requires 0 <= i < |e| => e[i].ctx)
  }

  /** The entries nobody holds, in list order. */
  function Idle(e: seq<Entry>): (r: seq<Entry>)
    ensures forall x <- r :: x in e && x.refs == 0
    ensures forall x <- e :: x.refs == 0 ==> x in r
  {
    if e == [] then []
    else
      assert e == e[..|e| - 1] + [e[|e| - 1]];
      Idle(e[..|e| - 1]) + if e[|e| - 1].refs == 0 then [e[|e| - 1]] else []
  }

  lemma {:induction false} IdleConcat(a: seq<Entry>, b: seq<Entry>)
    ensures Idle(a + b) == Idle(a) + Idle(b)
  {
    if b == [] {
      assert a + b == a && Idle(a) + Idle(b) == Idle(a);
    } else {
      var front, last := b[..|b| - 1], b[|b| - 1];
      assert (a + b)[..|a + b| - 1] == a + front && (a + b)[|a + b| - 1] == last;
      IdleConcat(a, front);
      IdleLast(a + b);
      IdleLast(b);
      hide Idle;
      assert Idle(a) + (Idle(front) + if last.refs == 0 then [last] else []) ==
             Idle(a) + Idle(front) + if last.refs == 0 then [last] else [];
    }
  }

  lemma IdleLast(e: seq<Entry>)
    requires e != []
    ensures Idle(e) == Idle(e[..|e| - 1]) + if e[|e| - 1].refs == 0 then [e[|e| - 1]] else []
  {
  }

  lemma {:induction false} IdleOfPinned(e: seq<Entry>)
    requires forall x <- e :: x.refs != 0
    ensures Idle(e) == []
  {
    if e != [] {
      IdleOfPinned(e[..|e| - 1]);
    }
  }

  function FindDid(e: seq<Entry>, did: string): (r: Option<nat>)
    ensures r.Some? ==> r.value < |e| && e[r.value].did == did && forall k :: 0 <= k < r.value ==> e[k].did != did
    ensures r.None? ==> forall k :: 0 <= k < |e| ==> e[k].did != did
  {
    if e == [] then None
    else if FindDid(e[..|e| - 1], did).Some? then FindDid(e[..|e| - 1], did)
    else if e[|e| - 1].did == did then Some(|e| - 1)
    else None
  }

  function FindCtx(e: seq<Entry>, ctx: nat): (r: Option<nat>)
    ensures r.Some? ==> r.value < |e| && e[r.value].ctx == ctx && forall k :: 0 <= k < r.value ==> e[k].ctx != ctx
    ensures r.None? ==> forall k :: 0 <= k < |e| ==> e[k].ctx != ctx
  {
    if e == [] then None
    else if FindCtx(e[..|e| - 1], ctx).Some? then FindCtx(e[..|e| - 1], ctx)
    else if e[|e| - 1].ctx == ctx then Some(|e| - 1)
    else None
  }

  // ---------------------------------------------------------------- eviction

  /** The idle entry with the smallest stamp, the first of them in the list. */
  function Victim(e: seq<Entry>): (r: Option<nat>)
    ensures r.None? ==> forall k :: 0 <= k < |e| ==> e[k].refs != 0
    ensures r.Some? ==> r.value < |e| && e[r.value].refs == 0
    ensures r.Some? ==> forall k :: 0 <= k < |e| && e[k].refs == 0 ==> e[r.value].touched <= e[k].touched
    ensures r.Some? ==> forall k :: 0 <= k < r.value && e[k].refs == 0 ==> e[r.value].touched < e[k].touched
  {
    if e == [] then None
    else
      var last := e[|e| - 1];
      var before := Victim(e[..|e| - 1]);
      if last.refs != 0 then before
      else if before.None? || last.touched < e[before.value].touched then Some(|e| - 1)
      else before
  }

  /** Where the list is cut before the entry at `v`: just after the last idle entry that precedes it. */
  function ScanCut(e: seq<Entry>, v: nat): (cut: nat)
    requires v <= |e|
    ensures cut <= v && forall k :: cut <= k < v ==> e[k].refs != 0
    ensures cut > 0 ==> e[cut - 1].refs == 0
  {
    if v == 0 then 0 else if e[v - 1].refs == 0 then v else ScanCut(e, v - 1)
  }

  function Cut(mode: Unlinking, e: seq<Entry>, v: nat): (cut: nat)
    requires v <= |e|
    ensures cut <= v && forall k :: cut <= k < v ==> e[k].refs != 0
  {
    if mode == AsWritten then ScanCut(e, v) else v
  }

  function Unlink(mode: Unlinking, e: seq<Entry>, v: nat): seq<Entry>
    requires v < |e|
  {
    e[..Cut(mode, e, v)] + e[v + 1..]
  }

  function EvictOne(mode: Unlinking, c: Cache): (r: Cache)
    requires Victim(c.entries).Some?
    ensures |r.entries| < |c.entries|
  {
    var v := Victim(c.entries).value;
    c.(entries := Unlink(mode, c.entries, v), idle := c.idle - 1, total := c.total - 1,
       closed := c.closed + [c.entries[v].ctx],
       lost := c.lost + Ctxs(c.entries[Cut(mode, c.entries, v)..v]))
  }

  function Evict(mode: Unlinking, c: Cache): Cache
    decreases |c.entries|
  {
    if c.total > c.limit && Victim(c.entries).Some? then Evict(mode, EvictOne(mode, c)) else c
  }

  // ---------------------------------------------------------------- operations

  /** One more reference on entry `i`, which becomes the most recently used. */
  function Acquire(c: Cache, i: nat): Cache
    requires i < |c.entries|
  {
    var x := c.entries[i];
    c.(entries := c.entries[i := x.(refs := x.refs + 1, touched := c.touches + 1)], touches := c.touches + 1,
       idle := if x.refs == 0 then c.idle - 1 else c.idle)
  }

  function Push(c: Cache, did: string, ctx: nat): Cache
  {
    c.(entries := [Entry(did, ctx, 1, c.touches + 1)] + c.entries, touches := c.touches + 1, total := c.total + 1)
  }

  /** The locked end of a miss: another caller may have won meanwhile, and then the context just opened is closed. */
  function Insert(mode: Unlinking, c: Cache, did: string, ctx: nat): (Cache, nat)
  {
    match FindDid(c.entries, did)
    case Some(i) => (Acquire(c, i).(closed := c.closed + [ctx]), c.entries[i].ctx)
    case None => (Evict(mode, Push(c, did, ctx)), ctx)
  }

  function LastRelease(c: Cache, i: nat): Cache
    requires i < |c.entries|
  {
    c.(entries := c.entries[i := c.entries[i].(refs := 0, touched := c.touches + 1)], touches := c.touches + 1,
       idle := c.idle + 1)
  }

  function Release(mode: Unlinking, c: Cache, ctx: nat): Cache
  {
    match FindCtx(c.entries, ctx)
    case None => c
    case Some(i) =>
      var refs := c.entries[i].refs;
      if refs == 0 then c
      else if refs == 1 then Evict(mode, LastRelease(c, i))
      else c.(entries := c.entries[i := c.entries[i].(refs := refs - 1)])
  }

  function SetLimit(c: Cache, limit: nat): Cache { c.(limit := if limit == 0 then DEFAULT_LIMIT else limit) }

  // ---------------------------------------------------------------- runs

  /**
   * `owners` names the account of every context ever opened, by context number. `waiting` are contexts opened
   * after a miss and not yet inserted, `held` the acquisitions not yet released.
   */
  datatype System = System(cache: Cache, owners: seq<string>, waiting: seq<nat>, held: multiset<nat>)

  /** A miss may also end without a context, when the account is unknown or cannot be opened. */
  datatype Op =
    | OpGet(did: string, opens: bool)
    | OpInsert(w: nat)
    | OpRelease(ctx: nat)
    | OpSetLimit(limit: nat)

  function Initial(): System { System(Cache([], 0, 0, 0, DEFAULT_LIMIT, [], []), [], [], multiset{}) }

  function GetStep(s: System, did: string, opens: bool): System
  {
    match FindDid(s.cache.entries, did)
    case Some(i) => s.(cache := Acquire(s.cache, i), held := s.held + multiset{s.cache.entries[i].ctx})
    case None =>
      if opens then s.(owners := s.owners + [did], waiting := s.waiting + [|s.owners|]) else s
  }

  function InsertStep(mode: Unlinking, s: System, w: nat): System
  {
    if w < |s.waiting| && s.waiting[w] < |s.owners| then
      var (cache, ctx) := Insert(mode, s.cache, s.owners[s.waiting[w]], s.waiting[w]);
      s.(cache := cache, waiting := s.waiting[..w] + s.waiting[w + 1..], held := s.held + multiset{ctx})
    else s
  }

  /** Callers release what they hold, once. */
  function ReleaseStep(mode: Unlinking, s: System, ctx: nat): System
  {
    if ctx in s.held then s.(cache := Release(mode, s.cache, ctx), held := s.held - multiset{ctx}) else s
  }

  function Step(mode: Unlinking, s: System, op: Op): System
  {
    match op
    case OpGet(did, opens) => GetStep(s, did, opens)
    case OpInsert(w) => InsertStep(mode, s, w)
    case OpRelease(ctx) => ReleaseStep(mode, s, ctx)
    case OpSetLimit(limit) => s.(cache := SetLimit(s.cache, limit))
  }

  function Run(mode: Unlinking, s: System, ops: seq<Op>): System
  {
    if ops == [] then s else Step(mode, Run(mode, s, ops[..|ops| - 1]), ops[|ops| - 1])
  }

  // ---------------------------------------------------------------- what every run keeps

  ghost predicate Stamped(c: Cache)
  {
    && (forall i :: 0 <= i < |c.entries| ==> c.entries[i].touched <= c.touches)
    && (forall i, j :: 0 <= i < j < |c.entries| ==> c.entries[i].touched != c.entries[j].touched)
  }

  ghost predicate OneEntryPerDid(c: Cache)
  {
    forall i, j :: 0 <= i < j < |c.entries| ==> c.entries[i].did != c.entries[j].did
  }

  ghost predicate Counted(c: Cache, held: multiset<nat>, owners: seq<string>)
  {
    forall i :: 0 <= i < |c.entries| ==>
      var x := c.entries[i]; x.refs == held[x.ctx] && x.ctx < |owners| && x.did == owners[x.ctx]
  }

  ghost predicate Tallied(mode: Unlinking, c: Cache)
  {
    && c.idle == |Idle(c.entries)|
    && c.total == |c.entries| + |c.lost|
    && (mode == TruePredecessor ==> c.lost == [])
  }

  ghost predicate HeldSomewhere(c: Cache, held: multiset<nat>)
  {
    forall x :: x in held ==> x in Ctxs(c.entries) || x in c.lost
  }

  function Upto(n: nat): seq<nat> { if n == 0 then [] else Upto(n - 1) + [n - 1] }

  /** Every context opened so far is in exactly one place, once. */
  ghost predicate Placed(c: Cache, waiting: seq<nat>, n: nat)
  {
    multiset(Ctxs(c.entries)) + multiset(waiting) + multiset(c.closed) + multiset(c.lost) == multiset(Upto(n))
  }

  ghost predicate Sound(mode: Unlinking, c: Cache, owners: seq<string>, waiting: seq<nat>, held: multiset<nat>)
  {
    && Stamped(c) && OneEntryPerDid(c) && Counted(c, held, owners) && Tallied(mode, c)
    && HeldSomewhere(c, held) && Placed(c, waiting, |owners|)
  }

  ghost predicate Inv(mode: Unlinking, s: System)
  {
    Sound(mode, s.cache, s.owners, s.waiting, s.held)
  }

  lemma {:induction false} UptoCounts(n: nat, x: nat)
    ensures multiset(Upto(n))[x] == if x < n then 1 else 0
  {
    if n > 0 {
      UptoCounts(n - 1, x);
    }
  }

  /** How often a context occurs in all places together. */
  lemma PlacedOnce(c: Cache, waiting: seq<nat>, n: nat, x: nat)
    requires Placed(c, waiting, n)
    ensures multiset(Ctxs(c.entries))[x] + multiset(waiting)[x] + multiset(c.closed)[x] + multiset(c.lost)[x]
            == if x < n then 1 else 0
  {
    UptoCounts(n, x);
  }

  lemma CountTwice(s: seq<nat>, i: nat, j: nat)
    requires i < j < |s| && s[i] == s[j]
    ensures multiset(s)[s[i]] >= 2
  {
    assert s == s[..j] + [s[j]] + s[j + 1..];
    assert s[i] in s[..j];
  }

  lemma CtxsDistinct(c: Cache, waiting: seq<nat>, n: nat, i: nat, j: nat)
    requires Placed(c, waiting, n) && i < j < |c.entries|
    ensures c.entries[i].ctx != c.entries[j].ctx
  {
    PlacedOnce(c, waiting, n, c.entries[i].ctx);
    if c.entries[i].ctx == c.entries[j].ctx {
      CountTwice(Ctxs(c.entries), i, j);
    }
  }

  // ---------------------------------------------------------------- eviction keeps it

  lemma IdleOfOne(x: Entry)
    ensures Idle([x]) == if x.refs == 0 then [x] else []
  {
    assert [x][..0] == [];
  }

  /** The idle entries before, at and after a position. */
  lemma {:induction false} IdleAround(e: seq<Entry>, v: nat)
    requires v < |e|
    ensures Idle(e) == Idle(e[..v]) + (if e[v].refs == 0 then [e[v]] else []) + Idle(e[v + 1..])
  {
    hide Idle;
    assert e == (e[..v] + [e[v]]) + e[v + 1..];
    IdleConcat(e[..v] + [e[v]], e[v + 1..]);
    IdleConcat(e[..v], [e[v]]);
    IdleOfOne(e[v]);
  }

  /** Whichever way the victim is unlinked, every other idle entry stays, in place. */
  lemma {:induction false} UnlinkIdle(mode: Unlinking, e: seq<Entry>, v: nat)
    requires v < |e|
    ensures Idle(Unlink(mode, e, v)) == Idle(e[..v]) + Idle(e[v + 1..])
  {
    hide Idle;
    var cut := Cut(mode, e, v);
    assert e[..v] == e[..cut] + e[cut..v];
    IdleConcat(e[..cut], e[v + 1..]);
    IdleConcat(e[..cut], e[cut..v]);
    IdleOfPinned(e[cut..v]);
  }

  lemma CtxsConcat(a: seq<Entry>, b: seq<Entry>)
    ensures Ctxs(a + b) == Ctxs(a) + Ctxs(b)
  {
  }

  lemma {:induction false} UnlinkPlaces(mode: Unlinking, e: seq<Entry>, v: nat)
    requires v < |e|
    ensures multiset(Ctxs(e)) == multiset(Ctxs(Unlink(mode, e, v))) + multiset(Ctxs(e[Cut(mode, e, v)..v])) + multiset{e[v].ctx}
  {
    hide Cut;
    var cut := Cut(mode, e, v);
    assert e == e[..cut] + e[cut..v] + [e[v]] + e[v + 1..];
    CtxsConcat(e[..cut] + e[cut..v] + [e[v]], e[v + 1..]);
    CtxsConcat(e[..cut] + e[cut..v], [e[v]]);
    CtxsConcat(e[..cut], e[cut..v]);
    CtxsConcat(e[..cut], e[v + 1..]);
    assert Ctxs([e[v]]) == [e[v].ctx];
  }

  /** The entries that stay keep their order. */
  lemma {:induction false} UnlinkKeeps(mode: Unlinking, c: Cache, owners: seq<string>, held: multiset<nat>)
    requires Stamped(c) && OneEntryPerDid(c) && Counted(c, held, owners) && Victim(c.entries).Some?
    ensures var d := EvictOne(mode, c); Stamped(d) && OneEntryPerDid(d) && Counted(d, held, owners)
  {
    hide Victim, Cut;
    var e, d := c.entries, EvictOne(mode, c);
    var v := Victim(e).value;
    var cut := Cut(mode, e, v);
    assert |d.entries| == |e| - (v + 1 - cut);
    assert forall k :: 0 <= k < |d.entries| ==> d.entries[k] == e[if k < cut then k else k + v + 1 - cut];
  }

  lemma {:induction false} EvictOneTallies(mode: Unlinking, c: Cache)
    requires Tallied(mode, c) && Victim(c.entries).Some?
    ensures Tallied(mode, EvictOne(mode, c))
  {
    hide Victim, Idle;
    var v := Victim(c.entries).value;
    UnlinkIdle(mode, c.entries, v);
    IdleAround(c.entries, v);
  }

  lemma {:induction false} EvictOnePlaces(mode: Unlinking, c: Cache, waiting: seq<nat>, n: nat)
    requires Placed(c, waiting, n) && Victim(c.entries).Some?
    ensures Placed(EvictOne(mode, c), waiting, n)
  {
    hide Victim, Cut, Unlink, Upto;
    UnlinkPlaces(mode, c.entries, Victim(c.entries).value);
  }

  lemma {:induction false} EvictOneHolds(mode: Unlinking, c: Cache, owners: seq<string>, held: multiset<nat>)
    requires HeldSomewhere(c, held) && Counted(c, held, owners) && Victim(c.entries).Some?
    ensures HeldSomewhere(EvictOne(mode, c), held)
  {
    hide Victim, Cut, Unlink;
    var e, d := c.entries, EvictOne(mode, c);
    var v := Victim(e).value;
    UnlinkPlaces(mode, e, v);
    forall x | x in held
      ensures x in Ctxs(d.entries) || x in d.lost
    {
      if x in Ctxs(e) {
        assert x in multiset(Ctxs(e));
        assert held[e[v].ctx] == 0;
      }
    }
  }

  lemma {:induction false} EvictOneKeeps(mode: Unlinking, c: Cache, owners: seq<string>, waiting: seq<nat>, held: multiset<nat>)
    requires Sound(mode, c, owners, waiting, held) && Victim(c.entries).Some?
    ensures Sound(mode, EvictOne(mode, c), owners, waiting, held)
  {
    hide Stamped, OneEntryPerDid, Counted, Tallied, HeldSomewhere, Placed, EvictOne;
    UnlinkKeeps(mode, c, owners, held);
    EvictOneTallies(mode, c);
    EvictOnePlaces(mode, c, waiting, |owners|);
    EvictOneHolds(mode, c, owners, held);
  }

  lemma {:induction false} EvictKeeps(mode: Unlinking, c: Cache, owners: seq<string>, waiting: seq<nat>, held: multiset<nat>)
    requires Sound(mode, c, owners, waiting, held)
    ensures Sound(mode, Evict(mode, c), owners, waiting, held)
    decreases |c.entries|
  {
    hide Sound;
    if c.total > c.limit && Victim(c.entries).Some? {
      EvictOneKeeps(mode, c, owners, waiting, held);
      EvictKeeps(mode, EvictOne(mode, c), owners, waiting, held);
    }
  }

  // ---------------------------------------------------------------- the other operations keep it

  lemma {:induction false} IdleReplaced(e: seq<Entry>, i: nat, x: Entry)
    requires i < |e|
    ensures |Idle(e[i := x])| == |Idle(e)| - (if e[i].refs == 0 then 1 else 0) + (if x.refs == 0 then 1 else 0)
  {
    hide Idle;
    IdleAround(e, i);
    IdleAround(e[i := x], i);
    assert e[i := x][..i] == e[..i] && e[i := x][i + 1..] == e[i + 1..];
  }

  lemma {:induction false} TouchKeeps(c: Cache, d: Cache, i: nat, refs: nat)
    requires Stamped(c) && OneEntryPerDid(c) && i < |c.entries|
    requires d.entries == c.entries[i := c.entries[i].(refs := refs, touched := c.touches + 1)] && d.touches == c.touches + 1
    ensures Stamped(d) && OneEntryPerDid(d) && Ctxs(d.entries) == Ctxs(c.entries)
  {
  }

  lemma {:induction false} DropKeeps(c: Cache, d: Cache, i: nat, refs: nat)
    requires Stamped(c) && OneEntryPerDid(c) && i < |c.entries|
    requires d.entries == c.entries[i := c.entries[i].(refs := refs)] && d.touches == c.touches
    ensures Stamped(d) && OneEntryPerDid(d) && Ctxs(d.entries) == Ctxs(c.entries)
  {
  }

  /** Changing how often one listed context is held. */
  lemma {:induction false} RefsKeep(c: Cache, d: Cache, i: nat, waiting: seq<nat>, owners: seq<string>,
                                    held: multiset<nat>, after: multiset<nat>)
    requires Counted(c, held, owners) && Placed(c, waiting, |owners|) && i < |c.entries| && |d.entries| == |c.entries|
    requires forall k :: 0 <= k < |c.entries| ==>
               d.entries[k].ctx == c.entries[k].ctx && d.entries[k].did == c.entries[k].did
               && (k != i ==> d.entries[k].refs == c.entries[k].refs)
    requires forall x :: x != c.entries[i].ctx ==> after[x] == held[x]
    requires d.entries[i].refs == after[c.entries[i].ctx]
    ensures Counted(d, after, owners)
  {
    hide Placed;
    forall k | 0 <= k < |c.entries| && k != i
      ensures c.entries[k].ctx != c.entries[i].ctx
    {
      if k < i {
        CtxsDistinct(c, waiting, |owners|, k, i);
      } else {
        CtxsDistinct(c, waiting, |owners|, i, k);
      }
    }
  }

  lemma {:induction false} AcquireKeeps(mode: Unlinking, c: Cache, i: nat, owners: seq<string>, waiting: seq<nat>, held: multiset<nat>)
    requires Sound(mode, c, owners, waiting, held) && i < |c.entries|
    ensures Sound(mode, Acquire(c, i), owners, waiting, held + multiset{c.entries[i].ctx})
  {
    var d, after := Acquire(c, i), held + multiset{c.entries[i].ctx};
    assert Stamped(d) && OneEntryPerDid(d) && Ctxs(d.entries) == Ctxs(c.entries) by {
      TouchKeeps(c, d, i, c.entries[i].refs + 1);
    }
    assert Counted(d, after, owners) by {
      RefsKeep(c, d, i, waiting, owners, held, after);
    }
    assert Tallied(mode, d) by {
      IdleReplaced(c.entries, i, d.entries[i]);
    }
    hide Stamped, OneEntryPerDid, Counted, Tallied, Idle;
    assert Ctxs(c.entries)[i] == c.entries[i].ctx;
  }

  lemma {:induction false} LastReleaseKeeps(mode: Unlinking, c: Cache, i: nat, owners: seq<string>, waiting: seq<nat>, held: multiset<nat>)
    requires Sound(mode, c, owners, waiting, held) && i < |c.entries| && c.entries[i].refs == 1
    ensures Sound(mode, LastRelease(c, i), owners, waiting, held - multiset{c.entries[i].ctx})
  {
    var d, after := LastRelease(c, i), held - multiset{c.entries[i].ctx};
    assert Stamped(d) && OneEntryPerDid(d) && Ctxs(d.entries) == Ctxs(c.entries) by {
      TouchKeeps(c, d, i, 0);
    }
    assert Counted(d, after, owners) by {
      RefsKeep(c, d, i, waiting, owners, held, after);
    }
    assert Tallied(mode, d) by {
      IdleReplaced(c.entries, i, d.entries[i]);
    }
    hide Stamped, OneEntryPerDid, Counted, Tallied, Idle;
  }

  lemma {:induction false} EarlierReleaseKeeps(mode: Unlinking, c: Cache, i: nat, owners: seq<string>, waiting: seq<nat>, held: multiset<nat>)
    requires Sound(mode, c, owners, waiting, held) && i < |c.entries| && c.entries[i].refs > 1
    ensures Sound(mode, c.(entries := c.entries[i := c.entries[i].(refs := c.entries[i].refs - 1)]), owners, waiting,
                  held - multiset{c.entries[i].ctx})
  {
    var d := c.(entries := c.entries[i := c.entries[i].(refs := c.entries[i].refs - 1)]);
    var after := held - multiset{c.entries[i].ctx};
    assert Stamped(d) && OneEntryPerDid(d) && Ctxs(d.entries) == Ctxs(c.entries) by {
      DropKeeps(c, d, i, c.entries[i].refs - 1);
    }
    assert Counted(d, after, owners) by {
      RefsKeep(c, d, i, waiting, owners, held, after);
    }
    assert Tallied(mode, d) by {
      IdleReplaced(c.entries, i, d.entries[i]);
    }
    hide Stamped, OneEntryPerDid, Counted, Tallied, Idle;
  }

  lemma {:induction false} ReleaseKeeps(mode: Unlinking, c: Cache, ctx: nat, owners: seq<string>, waiting: seq<nat>, held: multiset<nat>)
    requires Sound(mode, c, owners, waiting, held) && ctx in held
    ensures Sound(mode, Release(mode, c, ctx), owners, waiting, held - multiset{ctx})
  {
    hide Stamped, OneEntryPerDid, Tallied, Placed, Evict, LastRelease;
    match FindCtx(c.entries, ctx) {
      case None =>
        var after := held - multiset{ctx};
        assert ctx in c.lost;
        assert Counted(c, after, owners);
      case Some(i) =>
        assert c.entries[i].refs == held[ctx];
        if held[ctx] == 1 {
          LastReleaseKeeps(mode, c, i, owners, waiting, held);
          EvictKeeps(mode, LastRelease(c, i), owners, waiting, held - multiset{ctx});
        } else {
          EarlierReleaseKeeps(mode, c, i, owners, waiting, held);
        }
    }
  }

  /** Taking the `w`-th context out of those waiting. */
  lemma TakeWaiting(waiting: seq<nat>, w: nat)
    requires w < |waiting|
    ensures multiset(waiting) == multiset(waiting[..w] + waiting[w + 1..]) + multiset{waiting[w]}
  {
    assert waiting == waiting[..w] + [waiting[w]] + waiting[w + 1..];
  }

  /** A context still waiting is not in the list, not lost and not held. */
  lemma {:induction false} WaitingIsNew(mode: Unlinking, c: Cache, owners: seq<string>, waiting: seq<nat>, held: multiset<nat>, w: nat)
    requires Sound(mode, c, owners, waiting, held) && w < |waiting|
    ensures waiting[w] < |owners| && waiting[w] !in Ctxs(c.entries) && waiting[w] !in c.lost && waiting[w] !in held
  {
    hide Stamped, OneEntryPerDid, Counted, Tallied, Placed;
    var x := waiting[w];
    PlacedOnce(c, waiting, |owners|, x);
    assert x in multiset(waiting);
    assert x in Ctxs(c.entries) ==> x in multiset(Ctxs(c.entries));
    assert x in c.lost ==> x in multiset(c.lost);
  }

  lemma {:induction false} PushStamps(c: Cache, did: string, ctx: nat)
    requires Stamped(c)
    ensures Stamped(Push(c, did, ctx))
  {
    var d := Push(c, did, ctx);
    assert forall k :: 1 <= k < |d.entries| ==> d.entries[k] == c.entries[k - 1];
  }

  lemma {:induction false} PushDids(c: Cache, did: string, ctx: nat)
    requires OneEntryPerDid(c) && FindDid(c.entries, did).None?
    ensures OneEntryPerDid(Push(c, did, ctx))
  {
    var d := Push(c, did, ctx);
    assert forall k :: 1 <= k < |d.entries| ==> d.entries[k] == c.entries[k - 1];
  }

  lemma {:induction false} PushCounts(c: Cache, owners: seq<string>, held: multiset<nat>, ctx: nat)
    requires Counted(c, held, owners) && ctx < |owners| && ctx !in held && ctx !in Ctxs(c.entries)
    ensures Counted(Push(c, owners[ctx], ctx), held + multiset{ctx}, owners)
  {
    var d := Push(c, owners[ctx], ctx);
    forall k | 1 <= k < |d.entries|
      ensures d.entries[k] == c.entries[k - 1] && d.entries[k].ctx != ctx
    {
      assert Ctxs(c.entries)[k - 1] == c.entries[k - 1].ctx;
    }
  }

  lemma {:induction false} PushTallies(mode: Unlinking, c: Cache, did: string, ctx: nat)
    requires Tallied(mode, c)
    ensures Tallied(mode, Push(c, did, ctx))
  {
    hide Idle;
    var head := [Entry(did, ctx, 1, c.touches + 1)];
    IdleConcat(head, c.entries);
    IdleOfPinned(head);
  }

  lemma {:induction false} PushKeeps(mode: Unlinking, c: Cache, owners: seq<string>, waiting: seq<nat>, held: multiset<nat>, w: nat)
    requires Sound(mode, c, owners, waiting, held) && w < |waiting| && waiting[w] < |owners|
    requires FindDid(c.entries, owners[waiting[w]]).None?
    ensures Sound(mode, Push(c, owners[waiting[w]], waiting[w]), owners, waiting[..w] + waiting[w + 1..],
                  held + multiset{waiting[w]})
  {
    hide Stamped, OneEntryPerDid, Counted, Tallied;
    var ctx := waiting[w];
    WaitingIsNew(mode, c, owners, waiting, held, w);
    PushStamps(c, owners[ctx], ctx);
    PushDids(c, owners[ctx], ctx);
    PushCounts(c, owners, held, ctx);
    PushTallies(mode, c, owners[ctx], ctx);
    TakeWaiting(waiting, w);
    assert Ctxs(Push(c, owners[ctx], ctx).entries) == [ctx] + Ctxs(c.entries);
  }

  lemma {:induction false} InsertKeeps(mode: Unlinking, s: System, w: nat)
    requires Inv(mode, s)
    ensures Inv(mode, InsertStep(mode, s, w))
  {
    hide Stamped, OneEntryPerDid, Counted, Tallied, HeldSomewhere, Evict, Push;
    if w < |s.waiting| && s.waiting[w] < |s.owners| {
      var ctx := s.waiting[w];
      match FindDid(s.cache.entries, s.owners[ctx]) {
        case Some(i) =>
          AcquireKeeps(mode, s.cache, i, s.owners, s.waiting, s.held);
          var d := Acquire(s.cache, i);
          var rest := s.waiting[..w] + s.waiting[w + 1..];
          TakeWaiting(s.waiting, w);
          CloseKeeps(mode, d, ctx, s.owners, s.waiting, rest, s.held + multiset{s.cache.entries[i].ctx});
        case None =>
          PushKeeps(mode, s.cache, s.owners, s.waiting, s.held, w);
          EvictKeeps(mode, Push(s.cache, s.owners[ctx], ctx), s.owners, s.waiting[..w] + s.waiting[w + 1..], s.held + multiset{ctx});
      }
    }
  }

  /** Closing a context that never entered the list. */
  lemma {:induction false} CloseKeeps(mode: Unlinking, c: Cache, ctx: nat, owners: seq<string>, waiting: seq<nat>, rest: seq<nat>, held: multiset<nat>)
    requires Sound(mode, c, owners, waiting, held)
    requires multiset(waiting) == multiset(rest) + multiset{ctx}
    ensures Sound(mode, c.(closed := c.closed + [ctx]), owners, rest, held)
  {
    hide Idle;
  }

  /** Another context opened: it waits, and nothing else changes. */
  lemma {:induction false} MissKeeps(mode: Unlinking, c: Cache, owners: seq<string>, did: string, waiting: seq<nat>, held: multiset<nat>)
    requires Sound(mode, c, owners, waiting, held)
    ensures Sound(mode, c, owners + [did], waiting + [|owners|], held)
  {
    hide Idle, Stamped, OneEntryPerDid, Tallied, HeldSomewhere;
    var n := |owners|;
    assert Upto(n + 1) == Upto(n) + [n];
    assert Placed(c, waiting + [n], n + 1);
    hide Placed;
    assert Counted(c, held, owners + [did]);
  }

  lemma {:induction false} GetKeeps(mode: Unlinking, s: System, did: string, opens: bool)
    requires Inv(mode, s)
    ensures Inv(mode, GetStep(s, did, opens))
  {
    hide Sound, Acquire;
    match FindDid(s.cache.entries, did) {
      case Some(i) => AcquireKeeps(mode, s.cache, i, s.owners, s.waiting, s.held);
      case None => MissKeeps(mode, s.cache, s.owners, did, s.waiting, s.held);
    }
  }

  lemma {:induction false} StepKeeps(mode: Unlinking, s: System, op: Op)
    requires Inv(mode, s)
    ensures Inv(mode, Step(mode, s, op))
  {
    match op {
      case OpGet(did, opens) => GetKeeps(mode, s, did, opens);
      case OpInsert(w) => InsertKeeps(mode, s, w);
      case OpRelease(ctx) =>
        hide Sound, Release;
        if ctx in s.held {
          ReleaseKeeps(mode, s.cache, ctx, s.owners, s.waiting, s.held);
        }
      case OpSetLimit(_) =>
        hide Idle;
    }
  }

  /** Every run keeps the books, whichever way victims are unlinked. */
  lemma {:induction false} RunKeeps(mode: Unlinking, ops: seq<Op>)
    ensures Inv(mode, Run(mode, Initial(), ops))
  {
    if ops == [] {
    } else {
      hide Inv, Step;
      RunKeeps(mode, ops[..|ops| - 1]);
      StepKeeps(mode, Run(mode, Initial(), ops[..|ops| - 1]), ops[|ops| - 1]);
    }
  }
}
