/** What follows for callers of the account cache, and what the eviction scan loses. */
module AccountCacheResults {
  import opened Outcome
  import opened AccountCache

  // ---------------------------------------------------------------- what an eviction does

  /** The entries in `e` with a stamp below `t`. */
  function Older(e: seq<Entry>, t: nat): nat
  {
    if e == [] then 0 else Older(e[..|e| - 1], t) + if e[|e| - 1].touched < t then 1 else 0
  }

  lemma {:induction false} OlderConcat(a: seq<Entry>, b: seq<Entry>, t: nat)
    ensures Older(a + b, t) == Older(a, t) + Older(b, t)
  {
    if b == [] {
      assert a + b == a;
    } else {
      assert (a + b)[..|a + b| - 1] == a + b[..|b| - 1];
      OlderConcat(a, b[..|b| - 1], t);
    }
  }

  lemma {:induction false} NoneOlder(e: seq<Entry>, t: nat)
    requires forall x <- e :: t <= x.touched
    ensures Older(e, t) == 0
  {
    if e != [] {
      NoneOlder(e[..|e| - 1], t);
    }
  }

  ghost predicate DistinctStamps(e: seq<Entry>)
  {
    forall i, j :: 0 <= i < j < |e| ==> e[i].touched != e[j].touched
  }

  /** One eviction removes the victim and some entries in use, and keeps the order of the rest. */
  lemma {:induction false} EvictOneShape(mode: Unlinking, c: Cache)
    requires Victim(c.entries).Some? && DistinctStamps(c.entries)
    ensures var d := EvictOne(mode, c); var v := Victim(c.entries).value;
            && DistinctStamps(d.entries)
            && (forall x <- d.entries :: x in c.entries && x != c.entries[v])
            && (forall x <- c.entries :: x.refs == 0 && x != c.entries[v] ==> x in d.entries)
            && (forall t :: Older(Idle(c.entries), t) == Older(Idle(d.entries), t) + if c.entries[v].touched < t then 1 else 0)
  {
    hide Victim, Cut, Idle;
    var e, d := c.entries, EvictOne(mode, c);
    var v := Victim(e).value;
    var cut := Cut(mode, e, v);
    assert d.entries == Unlink(mode, e, v);
    assert forall k :: 0 <= k < |d.entries| ==> d.entries[k] == e[if k < cut then k else k + v + 1 - cut];
    forall x | x in e && x.refs == 0 && x != e[v]
      ensures x in d.entries
    {
      var k :| 0 <= k < |e| && e[k] == x;
      assert x == if k < cut then d.entries[k] else d.entries[k - (v + 1 - cut)];
    }
    hide EvictOne, DistinctStamps;
    forall t
      ensures Older(Idle(e), t) == Older(Idle(d.entries), t) + if e[v].touched < t then 1 else 0
    {
      OlderWithout(mode, e, v, t);
    }
  }

  lemma OlderWithout(mode: Unlinking, e: seq<Entry>, v: nat, t: nat)
    requires v < |e| && e[v].refs == 0
    ensures Older(Idle(e), t) == Older(Idle(Unlink(mode, e, v)), t) + if e[v].touched < t then 1 else 0
  {
    UnlinkIdle(mode, e, v);
    IdleAround(e, v);
    hide Idle, Unlink;
    OlderConcat(Idle(e[..v]) + [e[v]], Idle(e[v + 1..]), t);
    OlderConcat(Idle(e[..v]), [e[v]], t);
    OlderConcat(Idle(e[..v]), Idle(e[v + 1..]), t);
    assert [e[v]][..0] == [];
  }

  /** Eviction closes the oldest idle entries, exactly as many as the cache is over budget, as long as there are any. */
  lemma {:induction false} EvictedExactly(mode: Unlinking, c: Cache, x: Entry)
    requires DistinctStamps(c.entries) && x in Idle(c.entries)
    ensures x in Evict(mode, c).entries <==> Older(Idle(c.entries), x.touched) >= c.total - c.limit
    decreases |c.entries|
  {
    hide Victim, Idle;
    if c.total > c.limit && Victim(c.entries).Some? {
      var v, d := Victim(c.entries).value, EvictOne(mode, c);
      EvictOneShape(mode, c);
      assert d.total == c.total - 1 && d.limit == c.limit;
      hide EvictOne;
      if x == c.entries[v] {
        NoneOlder(Idle(c.entries), x.touched);
        EvictSubset(mode, d);
      } else {
        assert x in Idle(d.entries);
        EvictedExactly(mode, d, x);
        assert c.entries[v].touched < x.touched;
      }
    }
  }

  lemma {:induction false} EvictSubset(mode: Unlinking, c: Cache)
    requires DistinctStamps(c.entries)
    ensures forall x <- Evict(mode, c).entries :: x in c.entries
    decreases |c.entries|
  {
    hide Victim, Idle;
    if c.total > c.limit && Victim(c.entries).Some? {
      EvictOneShape(mode, c);
      EvictSubset(mode, EvictOne(mode, c));
    }
  }

  /** Eviction stops within budget or with nothing idle, and never evicts more than that needs. */
  lemma {:induction false} EvictEnds(mode: Unlinking, c: Cache)
    ensures var d := Evict(mode, c); var over := c.total - c.limit; var idle := |Idle(c.entries)|;
            && d.total == c.total - (if over <= 0 then 0 else if over <= idle then over else idle)
            && |Idle(d.entries)| == idle - (c.total - d.total)
            && |d.closed| == |c.closed| + (c.total - d.total)
            && (d.total <= d.limit || Idle(d.entries) == [])
    decreases |c.entries|
  {
    hide Victim, Idle;
    if c.total > c.limit && Victim(c.entries).Some? {
      var v := Victim(c.entries).value;
      UnlinkIdle(mode, c.entries, v);
      IdleAround(c.entries, v);
      EvictEnds(mode, EvictOne(mode, c));
    } else if c.total > c.limit {
      IdleOfPinned(c.entries);
    }
  }

  // ---------------------------------------------------------------- the two ways to unlink, compared

  /** The scan finds the true predecessor just when the victim is at the head or right after another idle entry. */
  lemma UnlinkAgrees(e: seq<Entry>)
    requires Victim(e).Some?
    ensures var v := Victim(e).value;
            Unlink(AsWritten, e, v) == Unlink(TruePredecessor, e, v) <==> v == 0 || e[v - 1].refs == 0
  {
    var v := Victim(e).value;
    var cut := ScanCut(e, v);
    assert |Unlink(AsWritten, e, v)| == cut + |e| - v - 1;
    assert |Unlink(TruePredecessor, e, v)| == |e| - 1;
  }

  /** The place of the victim among the idle entries. */
  ghost predicate FirstOldest(idle: seq<Entry>, k: nat)
  {
    && k < |idle|
    && (forall j :: 0 <= j < |idle| ==> idle[k].touched <= idle[j].touched)
    && (forall j :: 0 <= j < k ==> idle[k].touched < idle[j].touched)
  }

  lemma {:induction false} VictimAmongIdle(e: seq<Entry>)
    requires Victim(e).Some?
    ensures var v := Victim(e).value; var k := |Idle(e[..v])|;
            && FirstOldest(Idle(e), k) && Idle(e)[k] == e[v]
            && Idle(e[..v]) == Idle(e)[..k] && Idle(e[v + 1..]) == Idle(e)[k + 1..]
  {
    hide Idle, Victim, FirstOldest;
    var v := Victim(e).value;
    IdleAround(e, v);
    OldestAround(e, v);
    OldestBetween(Idle(e[..v]), e[v], Idle(e[v + 1..]));
  }

  lemma OldestBetween(before: seq<Entry>, x: Entry, after: seq<Entry>)
    requires forall y <- before :: x.touched < y.touched
    requires forall y <- after :: x.touched <= y.touched
    ensures var all := before + [x] + after;
            FirstOldest(all, |before|) && all[|before|] == x && all[..|before|] == before && all[|before| + 1..] == after
  {
    var all := before + [x] + after;
    assert forall j :: 0 <= j < |all| ==>
        all[j] == if j < |before| then before[j] else if j == |before| then x else after[j - |before| - 1];
  }

  lemma {:induction false} OldestAround(e: seq<Entry>, v: nat)
    requires Victim(e) == Some(v)
    ensures forall x <- Idle(e[..v]) :: e[v].touched < x.touched
    ensures forall x <- Idle(e[v + 1..]) :: e[v].touched <= x.touched
  {
    forall x | x in Idle(e[..v])
      ensures e[v].touched < x.touched
    {
      assert x in e[..v];
    }
    forall x | x in Idle(e[v + 1..])
      ensures e[v].touched <= x.touched
    {
      assert x in e[v + 1..];
    }
  }

  lemma FirstOldestUnique(idle: seq<Entry>, j: nat, k: nat)
    requires FirstOldest(idle, j) && FirstOldest(idle, k)
    ensures j == k
  {
    assert idle[j].touched == idle[k].touched;
  }

  lemma VictimFromIdle(e: seq<Entry>, f: seq<Entry>)
    requires Idle(e) == Idle(f) && Victim(e).Some?
    ensures Victim(f).Some?
  {
    assert e[Victim(e).value] in Idle(f);
  }

  lemma {:induction false} SameChoice(m: Unlinking, n: Unlinking, e: seq<Entry>, f: seq<Entry>)
    requires Idle(e) == Idle(f) && Victim(e).Some?
    ensures Victim(f).Some? && e[Victim(e).value] == f[Victim(f).value]
    ensures Idle(Unlink(m, e, Victim(e).value)) == Idle(Unlink(n, f, Victim(f).value))
  {
    hide Victim, Idle, Unlink, FirstOldest;
    VictimFromIdle(e, f);
    var v, w := Victim(e).value, Victim(f).value;
    VictimAmongIdle(e);
    VictimAmongIdle(f);
    FirstOldestUnique(Idle(e), |Idle(e[..v])|, |Idle(f[..w])|);
    UnlinkIdle(m, e, v);
    UnlinkIdle(n, f, w);
  }

  /** Lists with the same idle entries, however unlinked, have the same contexts closed in the same order. */
  lemma {:induction false} SameVictims(m: Unlinking, n: Unlinking, c: Cache, d: Cache)
    requires Idle(c.entries) == Idle(d.entries) && c.total == d.total && c.limit == d.limit && c.closed == d.closed && c.idle == d.idle
    ensures var x, y := Evict(m, c), Evict(n, d);
            Idle(x.entries) == Idle(y.entries) && x.total == y.total && x.closed == y.closed && x.idle == y.idle
    decreases |c.entries|
  {
    hide Victim, Idle, Unlink;
    if c.total > c.limit && Victim(c.entries).Some? {
      SameChoice(m, n, c.entries, d.entries);
      SameVictims(m, n, EvictOne(m, c), EvictOne(n, d));
    } else if c.total > c.limit && Victim(d.entries).Some? {
      SameChoice(m, n, d.entries, c.entries);
    }
  }

  /** The first idle entry after position `i`. */
  function NextIdle(e: seq<Entry>, i: nat): (r: Option<nat>)
    requires i < |e|
    ensures r.Some? ==> i < r.value < |e| && e[r.value].refs == 0 && forall k :: i < k < r.value ==> e[k].refs != 0
    ensures r.None? ==> forall k :: i < k < |e| ==> e[k].refs != 0
    decreases |e| - i
  {
    if i + 1 == |e| then None
    else if e[i + 1].refs == 0 then Some(i + 1)
    else NextIdle(e, i + 1)
  }

  /**
   * An entry in use drops out of the list, unclosed, just when the first idle entry behind it is evicted. That is
   * so if fewer idle entries are older than that one than the cache is over budget. With the true predecessor
   * nothing in use drops out.
   */
  lemma {:induction false} LostExactly(c: Cache, i: nat)
    requires DistinctStamps(c.entries) && i < |c.entries| && c.entries[i].refs != 0
    ensures c.entries[i] in Evict(TruePredecessor, c).entries
    ensures c.entries[i] !in Evict(AsWritten, c).entries <==>
            var next := NextIdle(c.entries, i);
            next.Some? && Older(Idle(c.entries), c.entries[next.value].touched) < c.total - c.limit
  {
    InUseStays(c, i);
    LostWithNext(c, i);
    var next := NextIdle(c.entries, i);
    if next.Some? {
      EvictedExactly(AsWritten, c, c.entries[next.value]);
    }
  }

  lemma {:induction false} InUseStays(c: Cache, i: nat)
    requires DistinctStamps(c.entries) && i < |c.entries| && c.entries[i].refs != 0
    ensures c.entries[i] in Evict(TruePredecessor, c).entries
    decreases |c.entries|
  {
    hide Victim;
    if c.total > c.limit && Victim(c.entries).Some? {
      var v, d := Victim(c.entries).value, EvictOne(TruePredecessor, c);
      EvictOneShape(TruePredecessor, c);
      var j := if i < v then i else i - 1;
      assert d.entries[j] == c.entries[i];
      InUseStays(d, j);
    }
  }

  /** Entries away from the cut keep the idle entry behind them. */
  lemma {:induction false} NextIdleMoved(e: seq<Entry>, d: seq<Entry>, i: nat, j: nat, cut: nat, gap: nat)
    requires cut + gap <= |e| && |d| == |e| - gap && gap > 0
    requires forall k :: 0 <= k < |d| ==> d[k] == e[if k < cut then k else k + gap]
    requires e[cut + gap - 1].refs == 0 && (cut > 0 ==> e[cut - 1].refs == 0)
    requires i < |e| && e[i].refs != 0 && j < |d|
    requires (i < cut && j == i) || (i >= cut + gap && j == i - gap)
    ensures NextIdle(e, i).None? == NextIdle(d, j).None?
    ensures NextIdle(e, i).Some? ==> e[NextIdle(e, i).value] == d[NextIdle(d, j).value]
  {
    var a, b := NextIdle(e, i), NextIdle(d, j);
    if i < cut {
      assert i < cut - 1 && d[cut - 1] == e[cut - 1];
      assert a.Some? && a.value < cut && b.Some? && b.value < cut;
      assert d[a.value] == e[a.value] && d[b.value] == e[b.value];
    } else {
      if a.Some? {
        assert d[a.value - gap] == e[a.value];
      }
      if b.Some? {
        assert d[b.value] == e[b.value + gap];
      }
    }
  }

  /** One eviction drops the entries in use whose next idle entry is the victim; the others keep theirs. */
  lemma {:induction false} LostWithNextStep(c: Cache, i: nat) returns (j: nat)
    requires DistinctStamps(c.entries) && i < |c.entries| && c.entries[i].refs != 0 && Victim(c.entries).Some?
    ensures var d, next := EvictOne(AsWritten, c), NextIdle(c.entries, i);
            if c.entries[i] in d.entries then
              && j < |d.entries| && d.entries[j] == c.entries[i]
              && NextIdle(d.entries, j).None? == next.None?
              && (next.Some? ==> d.entries[NextIdle(d.entries, j).value] == c.entries[next.value])
            else next == Victim(c.entries)
  {
    hide Victim, Idle, NextIdle;
    var e, d := c.entries, EvictOne(AsWritten, c).entries;
    var v := Victim(e).value;
    var cut := ScanCut(e, v);
    var gap := v + 1 - cut;
    assert |d| == |e| - gap && forall k :: 0 <= k < |d| ==> d[k] == e[if k < cut then k else k + gap];
    hide EvictOne, ScanCut;
    if cut <= i < v {
      j := 0;
      DroppedByGap(e, d, i, cut, gap);
    } else {
      j := if i < cut then i else i - gap;
      NextIdleMoved(e, d, i, j, cut, gap);
      assert d[j] == e[i];
    }
  }

  lemma {:induction false} DroppedByGap(e: seq<Entry>, d: seq<Entry>, i: nat, cut: nat, gap: nat)
    requires DistinctStamps(e) && cut + gap <= |e| && |d| == |e| - gap && cut <= i < cut + gap - 1
    requires forall k :: 0 <= k < |d| ==> d[k] == e[if k < cut then k else k + gap]
    requires e[cut + gap - 1].refs == 0 && forall k :: cut <= k < cut + gap - 1 ==> e[k].refs != 0
    ensures e[i] !in d && NextIdle(e, i) == Some(cut + gap - 1)
  {
    forall k | 0 <= k < |d|
      ensures d[k] != e[i]
    {
      assert d[k].touched == e[if k < cut then k else k + gap].touched;
    }
  }

  lemma {:induction false} LostWithNext(c: Cache, i: nat)
    requires DistinctStamps(c.entries) && i < |c.entries| && c.entries[i].refs != 0
    ensures c.entries[i] in Evict(AsWritten, c).entries <==>
            NextIdle(c.entries, i).None? || c.entries[NextIdle(c.entries, i).value] in Evict(AsWritten, c).entries
    decreases |c.entries|
  {
    hide Victim, Idle, NextIdle;
    if c.total > c.limit && Victim(c.entries).Some? {
      var d := EvictOne(AsWritten, c);
      EvictOneShape(AsWritten, c);
      var j := LostWithNextStep(c, i);
      hide EvictOne;
      EvictSubset(AsWritten, d);
      if c.entries[i] in d.entries {
        LostWithNext(d, j);
      }
    }
  }

  lemma {:induction false} FirstIdle(x: Entry, e: seq<Entry>)
    requires x.refs != 0
    ensures Idle([x] + e) == Idle(e)
    ensures var next := NextIdle([x] + e, 0);
            if next.None? then Idle(e) == [] else Idle(e) != [] && Idle(e)[0] == ([x] + e)[next.value]
  {
    hide Idle, NextIdle;
    var d, next := [x] + e, NextIdle([x] + e, 0);
    IdleConcat([x], e);
    IdleOfPinned([x]);
    if next.Some? {
      IdleAround(d, next.value);
      IdleOfPinned(d[..next.value]);
    } else {
      IdleOfPinned(d);
    }
  }

  /** The entry an insertion has just put at the head is lost if the eviction takes the first idle entry of the list. */
  lemma {:induction false} FreshEntryLost(c: Cache, did: string, ctx: nat)
    requires Stamped(c)
    ensures var d := Push(c, did, ctx);
            d.entries[0] !in Evict(AsWritten, d).entries <==>
            Idle(c.entries) != [] && Older(Idle(c.entries), Idle(c.entries)[0].touched) <= c.total - c.limit
  {
    hide Idle, NextIdle, Evict, Older;
    var d := Push(c, did, ctx);
    FirstIdle(d.entries[0], c.entries);
    PushStamps(c, did, ctx);
    LostExactly(d, 0);
  }

  /** With room for one account: A comes and goes, B is inserted and lost, and the next caller opens B again. */
  function Visits(): seq<Op>
  {
    [OpSetLimit(1), OpGet("A", true), OpInsert(0), OpRelease(0), OpGet("B", true), OpInsert(0), OpGet("B", true), OpInsert(0)]
  }

  function AfterVisit(k: nat): System
  {
    if k == 0 then Initial()
    else if k == 1 then System(Cache([], 0, 0, 0, 1, [], []), [], [], multiset{})
    else if k == 2 then System(Cache([], 0, 0, 0, 1, [], []), ["A"], [0], multiset{})
    else if k == 3 then System(Cache([Entry("A", 0, 1, 1)], 1, 0, 1, 1, [], []), ["A"], [], multiset{0})
    else if k == 4 then System(Cache([Entry("A", 0, 0, 2)], 2, 1, 1, 1, [], []), ["A"], [], multiset{})
    else if k == 5 then System(Cache([Entry("A", 0, 0, 2)], 2, 1, 1, 1, [], []), ["A", "B"], [1], multiset{})
    else if k == 6 then System(Cache([], 3, 0, 1, 1, [0], [1]), ["A", "B"], [], multiset{1})
    else if k == 7 then System(Cache([], 3, 0, 1, 1, [0], [1]), ["A", "B", "B"], [2], multiset{1})
    else System(Cache([Entry("B", 2, 1, 4)], 4, 0, 2, 1, [0], [1]), ["A", "B", "B"], [], multiset{1, 2})
  }

  lemma BReplacesA()
    ensures Evict(AsWritten, Cache([Entry("B", 1, 1, 3), Entry("A", 0, 0, 2)], 3, 1, 2, 1, [], [])) == Cache([], 3, 0, 1, 1, [0], [1])
  {
    var e := [Entry("B", 1, 1, 3), Entry("A", 0, 0, 2)];
    var c := Cache(e, 3, 1, 2, 1, [], []);
    assert Victim(e) == Some(1);
    hide Victim;
    assert ScanCut(e, 1) == 0 by {
      assert ScanCut(e, 1) == ScanCut(e, 0);
    }
    assert Unlink(AsWritten, e, 1) == [];
    assert EvictOne(AsWritten, c) == Cache([], 3, 0, 1, 1, [0], [1]);
  }

  lemma VisitOfB()
    ensures InsertStep(AsWritten, AfterVisit(5), 0) == AfterVisit(6)
  {
    hide Evict;
    BReplacesA();
    assert FindDid(AfterVisit(5).cache.entries, "B").None?;
    assert Push(AfterVisit(5).cache, "B", 1).entries == [Entry("B", 1, 1, 3), Entry("A", 0, 0, 2)];
  }

  lemma VisitOfA()
    ensures InsertStep(AsWritten, AfterVisit(2), 0) == AfterVisit(3)
  {
    hide Victim;
  }

  lemma AReleased()
    ensures ReleaseStep(AsWritten, AfterVisit(3), 0) == AfterVisit(4)
  {
    hide Victim;
  }

  lemma SecondVisitOfB()
    ensures InsertStep(AsWritten, AfterVisit(7), 0) == AfterVisit(8)
  {
    var c := Push(AfterVisit(7).cache, "B", 2);
    assert Victim(c.entries).None?;
  }

  lemma VisitStep(k: nat)
    requires k < 8
    ensures Step(AsWritten, AfterVisit(k), Visits()[k]) == AfterVisit(k + 1)
  {
    hide InsertStep, ReleaseStep;
    VisitOfA();
    AReleased();
    VisitOfB();
    SecondVisitOfB();
  }

  lemma {:induction false} VisitsRun(k: nat)
    requires k <= 8
    ensures Run(AsWritten, Initial(), Visits()[..k]) == AfterVisit(k)
  {
    if k == 0 {
    } else {
      hide Step, AfterVisit;
      assert Visits()[..k][..k - 1] == Visits()[..k - 1];
      VisitsRun(k - 1);
      VisitStep(k - 1);
    }
  }

  /** As written, one account can be open twice at a time: both contexts are held and only the second is listed. */
  lemma TwoContextsForOneAccount()
    ensures var s := Run(AsWritten, Initial(), Visits());
            && s.owners == ["A", "B", "B"] && s.held == multiset{1, 2}
            && s.cache.closed == [0] && s.cache.lost == [1]
  {
    VisitsRun(8);
    assert Visits()[..8] == Visits();
    hide Run, Step;
  }

  // ---------------------------------------------------------------- every run

  /** A context is never closed while somebody holds it, not even by the scan as written. */
  lemma {:induction false} NeverClosedWhileHeld(mode: Unlinking, ops: seq<Op>, ctx: nat)
    ensures var s := Run(mode, Initial(), ops); ctx in s.held ==> ctx < |s.owners| && ctx !in s.cache.closed && ctx !in s.waiting
  {
    hide Run, Stamped, OneEntryPerDid, Counted, Tallied;
    var s := Run(mode, Initial(), ops);
    RunKeeps(mode, ops);
    if ctx in s.held {
      PlacedOnce(s.cache, s.waiting, |s.owners|, ctx);
      assert ctx in Ctxs(s.cache.entries) ==> ctx in multiset(Ctxs(s.cache.entries));
      assert ctx in s.cache.lost ==> ctx in multiset(s.cache.lost);
      assert ctx in s.cache.closed ==> ctx in multiset(s.cache.closed);
      assert ctx in s.waiting ==> ctx in multiset(s.waiting);
    }
  }

  /** The counters: idle entries are counted exactly, the total counts the list and what was lost from it. */
  lemma {:induction false} CountersAreExact(mode: Unlinking, ops: seq<Op>, i: nat)
    ensures var c := Run(mode, Initial(), ops).cache;
            && c.idle == |Idle(c.entries)| && c.total == |c.entries| + |c.lost|
            && (mode == TruePredecessor ==> c.total == |c.entries|)
            && (i < |c.entries| ==> c.entries[i].refs == Run(mode, Initial(), ops).held[c.entries[i].ctx])
  {
    hide Run, Idle, Stamped, OneEntryPerDid, HeldSomewhere, Placed;
    RunKeeps(mode, ops);
  }

  /** Two holders of one account share a context, unless one of the two was lost. */
  lemma {:induction false} HoldersShare(mode: Unlinking, ops: seq<Op>, x: nat, y: nat)
    ensures var s := Run(mode, Initial(), ops);
            (x in s.held && y in s.held && x < |s.owners| && y < |s.owners| && s.owners[x] == s.owners[y]
              && x !in s.cache.lost && y !in s.cache.lost) ==> x == y
  {
    hide Run, Stamped, Tallied, Placed;
    RunKeeps(mode, ops);
  }

  /** With the true predecessor nothing is lost: whoever holds a context of an account holds the listed one. */
  lemma {:induction false} OneContextPerAccount(ops: seq<Op>, x: nat, y: nat)
    requires var s := Run(TruePredecessor, Initial(), ops); x in s.held && y in s.held
    ensures var s := Run(TruePredecessor, Initial(), ops);
            && x < |s.owners| && y < |s.owners| && FindDid(s.cache.entries, s.owners[x]).Some?
            && s.cache.entries[FindDid(s.cache.entries, s.owners[x]).value].ctx == x
            && (s.owners[x] == s.owners[y] ==> x == y)
  {
    hide Run, Stamped, Placed;
    RunKeeps(TruePredecessor, ops);
    NeverClosedWhileHeld(TruePredecessor, ops, x);
    NeverClosedWhileHeld(TruePredecessor, ops, y);
    HoldersShare(TruePredecessor, ops, x, y);
  }

  /** With the true predecessor every context ever opened is listed, waiting or closed, in one place and once. */
  lemma {:induction false} NothingLeaks(ops: seq<Op>, ctx: nat)
    ensures var s := Run(TruePredecessor, Initial(), ops);
            multiset(Ctxs(s.cache.entries))[ctx] + multiset(s.waiting)[ctx] + multiset(s.cache.closed)[ctx]
            == if ctx < |s.owners| then 1 else 0
  {
    hide Run, Stamped, OneEntryPerDid, Counted, HeldSomewhere;
    RunKeeps(TruePredecessor, ops);
    var s := Run(TruePredecessor, Initial(), ops);
    PlacedOnce(s.cache, s.waiting, |s.owners|, ctx);
  }

  predicate KeepsLimit(ops: seq<Op>) { forall op <- ops :: !op.OpSetLimit? }

  lemma {:induction false} RunConcat(mode: Unlinking, s: System, a: seq<Op>, b: seq<Op>)
    ensures Run(mode, s, a + b) == Run(mode, Run(mode, s, a), b)
  {
    hide Step;
    if b == [] {
      assert a + b == a;
    } else {
      assert (a + b)[..|a + b| - 1] == a + b[..|b| - 1];
      RunConcat(mode, s, a, b[..|b| - 1]);
    }
  }

  /** From any state within budget: while the limit is not changed the cache stays within budget or has nothing idle. */
  lemma {:induction false} BudgetHolds(mode: Unlinking, s: System, ops: seq<Op>)
    requires WithinBudget(s.cache) && KeepsLimit(ops)
    ensures WithinBudget(Run(mode, s, ops).cache)
  {
    if ops != [] {
      var n := |ops| - 1;
      BudgetHolds(mode, s, ops[..n]);
      hide Step, WithinBudget;
      BudgetStep(mode, Run(mode, s, ops[..n]), ops[n]);
    }
  }

  /** So it does in every run of a cache that is given its limit, whichever, at the start. */
  lemma BudgetFromTheStart(mode: Unlinking, limit: nat, ops: seq<Op>)
    requires KeepsLimit(ops)
    ensures var c := Run(mode, Initial(), [OpSetLimit(limit)] + ops).cache;
            WithinBudget(c) && c.limit == if limit == 0 then DEFAULT_LIMIT else limit
  {
    var s := Run(mode, Initial(), [OpSetLimit(limit)]);
    assert [OpSetLimit(limit)][..0] == [];
    assert s == Step(mode, Run(mode, Initial(), []), OpSetLimit(limit));
    assert Run(mode, Initial(), []) == Initial();
    RunConcat(mode, Initial(), [OpSetLimit(limit)], ops);
    BudgetHolds(mode, s, ops);
    LimitStays(mode, s, ops);
  }

  lemma {:induction false} LimitStays(mode: Unlinking, s: System, ops: seq<Op>)
    requires KeepsLimit(ops)
    ensures Run(mode, s, ops).cache.limit == s.cache.limit
  {
    if ops != [] {
      var n := |ops| - 1;
      LimitStays(mode, s, ops[..n]);
      hide Run;
      LimitStep(mode, Run(mode, s, ops[..n]), ops[n]);
    }
  }

  lemma LimitStep(mode: Unlinking, s: System, op: Op)
    requires !op.OpSetLimit?
    ensures Step(mode, s, op).cache.limit == s.cache.limit
  {
    EvictKeepsLimit(mode, s.cache);
    match op {
      case OpInsert(w) =>
        if w < |s.waiting| && s.waiting[w] < |s.owners| {
          EvictKeepsLimit(mode, Push(s.cache, s.owners[s.waiting[w]], s.waiting[w]));
        }
      case OpRelease(ctx) =>
        if FindCtx(s.cache.entries, ctx).Some? {
          EvictKeepsLimit(mode, LastRelease(s.cache, FindCtx(s.cache.entries, ctx).value));
        }
      case _ =>
    }
  }

  lemma {:induction false} EvictKeepsLimit(mode: Unlinking, c: Cache)
    ensures Evict(mode, c).limit == c.limit
    decreases |c.entries|
  {
    hide Victim;
    if c.total > c.limit && Victim(c.entries).Some? {
      EvictKeepsLimit(mode, EvictOne(mode, c));
    }
  }

  /** A step that ends with an eviction: the insertion of a context that is not listed yet, or the last release of one. */
  predicate Evicts(s: System, op: Op)
  {
    match op
    case OpInsert(w) =>
      w < |s.waiting| && s.waiting[w] < |s.owners| && FindDid(s.cache.entries, s.owners[s.waiting[w]]).None?
    case OpRelease(ctx) =>
      var i := FindCtx(s.cache.entries, ctx);
      ctx in s.held && i.Some? && s.cache.entries[i.value].refs == 1
    case _ => false
  }

  /** A lower limit evicts nothing by itself. However often the limit was changed before, the next eviction brings the
      cache within budget again, and there it stays until the limit is changed once more. */
  lemma BudgetSinceEviction(mode: Unlinking, before: seq<Op>, op: Op, after: seq<Op>)
    requires Evicts(Run(mode, Initial(), before), op) && KeepsLimit(after)
    ensures WithinBudget(Run(mode, Initial(), before + [op] + after).cache)
  {
    var s := Run(mode, Initial(), before);
    RunConcat(mode, Initial(), before + [op], after);
    assert (before + [op])[..|before|] == before;
    EvictionRestores(mode, s, op);
    hide Step;
    BudgetHolds(mode, Step(mode, s, op), after);
  }

  lemma EvictionRestores(mode: Unlinking, s: System, op: Op)
    requires Evicts(s, op)
    ensures WithinBudget(Step(mode, s, op).cache)
  {
    hide Idle, Evict;
    match op {
      case OpInsert(w) => EvictEnds(mode, Push(s.cache, s.owners[s.waiting[w]], s.waiting[w]));
      case OpRelease(ctx) => EvictEnds(mode, LastRelease(s.cache, FindCtx(s.cache.entries, ctx).value));
    }
  }

  ghost predicate WithinBudget(c: Cache) { c.total <= c.limit || Idle(c.entries) == [] }

  lemma {:induction false} StillNothingIdle(e: seq<Entry>, i: nat, x: Entry)
    requires i < |e| && x.refs != 0 && Idle(e) == []
    ensures Idle(e[i := x]) == []
  {
    IdleReplaced(e, i, x);
  }

  lemma {:induction false} BudgetStep(mode: Unlinking, s: System, op: Op)
    requires WithinBudget(s.cache) && !op.OpSetLimit?
    ensures WithinBudget(Step(mode, s, op).cache)
  {
    hide Idle, Evict;
    var e, c := s.cache.entries, s.cache;
    match op {
      case OpGet(did, _) =>
        if FindDid(e, did).Some? && Idle(e) == [] {
          var i := FindDid(e, did).value;
          StillNothingIdle(e, i, Acquire(c, i).entries[i]);
        }
      case OpInsert(w) =>
        if w < |s.waiting| && s.waiting[w] < |s.owners| {
          var did, ctx := s.owners[s.waiting[w]], s.waiting[w];
          if FindDid(e, did).None? {
            EvictEnds(mode, Push(c, did, ctx));
          } else if Idle(e) == [] {
            var i := FindDid(e, did).value;
            StillNothingIdle(e, i, Acquire(c, i).entries[i]);
          }
        }
      case OpRelease(ctx) =>
        if ctx in s.held && FindCtx(e, ctx).Some? {
          var i := FindCtx(e, ctx).value;
          if e[i].refs == 1 {
            EvictEnds(mode, LastRelease(c, i));
          } else if e[i].refs > 1 && Idle(e) == [] {
            StillNothingIdle(e, i, e[i].(refs := e[i].refs - 1));
          }
        }
    }
  }

  /** As written, once as many contexts are lost as the limit allows, a cache within budget keeps nothing idle any more,
      whatever limits it was given before. */
  lemma LossesUseUpTheBudget(ops: seq<Op>)
    ensures var c := Run(AsWritten, Initial(), ops).cache;
            WithinBudget(c) && |c.lost| >= c.limit ==> Idle(c.entries) == []
  {
    hide Run, Idle;
    CountersAreExact(AsWritten, ops, 0);
    var c := Run(AsWritten, Initial(), ops).cache;
    if |c.entries| == 0 {
      IdleOfPinned(c.entries);
    }
  }

  /** So it is in every run of a cache that is given its limit at the start. */
  lemma LossesFromTheStart(limit: nat, ops: seq<Op>)
    requires KeepsLimit(ops)
    ensures var c := Run(AsWritten, Initial(), [OpSetLimit(limit)] + ops).cache;
            |c.lost| >= c.limit ==> Idle(c.entries) == []
  {
    hide Run;
    BudgetFromTheStart(AsWritten, limit, ops);
    LossesUseUpTheBudget([OpSetLimit(limit)] + ops);
  }
}
