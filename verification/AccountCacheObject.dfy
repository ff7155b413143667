/** The account cache as a linked list under its lock, and the buffer of acquisitions of one thread. */
module AccountCacheObject {
  import opened Outcome
  import opened AccountCache

  class Node {
    const did: string
    const ctx: nat
    var next: Node?
    var refs: nat
    var touched: nat

    constructor (did: string, ctx: nat, touched: nat, next: Node?)
      ensures View() == Entry(did, ctx, 1, touched) && this.next == next
    {
      this.did, this.ctx, this.touched, this.next := did, ctx, touched, next;
      refs := 1;
    }

    function View(): Entry
      reads this
    {
      Entry(did, ctx, refs, touched)
    }
  }

  ghost predicate Distinct(nodes: seq<Node>)
  {
    forall i, j :: 0 <= i < j < |nodes| ==> nodes[i] != nodes[j]
  }

  lemma DistinctOthers(nodes: seq<Node>, i: nat)
    requires Distinct(nodes) && i < |nodes|
    ensures forall k :: 0 <= k < |nodes| && k != i ==> nodes[k] != nodes[i]
  {
  }

  /** A sequence without the part from `cut` to `end`. */
  function Without<T>(s: seq<T>, cut: nat, end: nat): (r: seq<T>)
    requires cut <= end <= |s|
    ensures |r| == |s| - (end - cut)
    ensures forall k :: 0 <= k < |r| ==> r[k] == s[if k < cut then k else k + (end - cut)]
  {
    s[..cut] + s[end..]
  }

  lemma DistinctWithout(nodes: seq<Node>, cut: nat, end: nat)
    requires Distinct(nodes) && cut <= end <= |nodes|
    ensures Distinct(Without(nodes, cut, end))
  {
    hide Without;
  }

  lemma DistinctPush(node: Node, nodes: seq<Node>)
    requires Distinct(nodes) && node !in nodes
    ensures Distinct([node] + nodes)
  {
  }

  /** The nodes are chained in this order and hold these entries. */
  ghost predicate Linked(nodes: seq<Node>, list: seq<Entry>)
    reads nodes
  {
    && |nodes| == |list|
    && Distinct(nodes)
    && (forall i {:trigger nodes[i].next} :: 0 <= i < |nodes| ==> nodes[i].next == From(nodes, i + 1))
    && (forall i {:trigger list[i]} :: 0 <= i < |nodes| ==> nodes[i].View() == list[i])
  }

  /** The node at position `i`, none at the end. */
  ghost function From(nodes: seq<Node>, i: nat): Node? { if i < |nodes| then nodes[i] else null }

  /** The node before position `i`, none at the head. */
  ghost function Before(nodes: seq<Node>, i: nat): Node?
    requires i <= |nodes|
  {
    if i == 0 then null else nodes[i - 1]
  }

  /** Nodes chained past the part that is taken out are linked without it. */
  lemma Relinked(was: seq<Node>, entries: seq<Entry>, cut: nat, v: nat)
    requires cut <= v < |was| == |entries| && Distinct(was)
    requires forall k {:trigger was[k].next} :: 0 <= k < |was| && k + 1 != cut ==> was[k].next == From(was, k + 1)
    requires cut > 0 ==> was[cut - 1].next == From(was, v + 1)
    requires forall k {:trigger entries[k]} :: 0 <= k < |was| ==> was[k].View() == entries[k]
    ensures Linked(Without(was, cut, v + 1), Without(entries, cut, v + 1))
  {
    hide Distinct, Without;
    DistinctWithout(was, cut, v + 1);
    var nodes, list := Without(was, cut, v + 1), Without(entries, cut, v + 1);
    forall i | 0 <= i < |nodes|
      ensures nodes[i].next == From(nodes, i + 1) && nodes[i].View() == list[i]
    {
      var k := if i < cut then i else i + (v + 1 - cut);
      assert nodes[i] == was[k] && list[i] == entries[k];
      if i + 1 != cut {
        assert was[k].next == From(was, k + 1);
      }
    }
  }

  lemma LinkedPush(node: Node, nodes: seq<Node>, list: seq<Entry>)
    requires Linked(nodes, list) && node !in nodes && node.next == From(nodes, 0)
    ensures Linked([node] + nodes, [node.View()] + list)
  {
    hide Distinct;
    DistinctPush(node, nodes);
    var longer := [node] + nodes;
    forall i | 0 <= i < |longer|
      ensures longer[i].next == From(longer, i + 1) && longer[i].View() == ([node.View()] + list)[i]
    {
      if i > 0 {
        assert longer[i] == nodes[i - 1] && ([node.View()] + list)[i] == list[i - 1];
        assert nodes[i - 1].next == From(nodes, i);
      }
    }
  }

  class ContextCache {
    var head: Node?
    var touches: nat
    var idleCount: int
    var totalCount: int
    var limit: nat
    /** The contexts this cache has closed, in order. */
    var closed: seq<nat>
    ghost var nodes: seq<Node>
    ghost var list: seq<Entry>
    ghost var lost: seq<nat>
    /** All nodes ever listed. */
    ghost var repr: set<Node>

    ghost predicate Valid()
      reads this, repr
    {
      (forall n <- nodes :: n in repr) && Linked(nodes, list) && head == From(nodes, 0)
    }

    ghost function View(): Cache
      reads this
    {
      Cache(list, touches, idleCount, totalCount, limit, closed, lost)
    }

    constructor ()
      ensures Valid() && View() == Initial().cache && fresh(repr)
    {
      head, touches, idleCount, totalCount, limit, closed := null, 0, 0, 0, DEFAULT_LIMIT, [];
      nodes, list, lost, repr := [], [], [], {};
    }

    method SetMaxResident(resident: nat)
      requires Valid()
      modifies this`limit
      ensures Valid() && View() == SetLimit(old(View()), resident)
    {
      limit := if resident == 0 then DEFAULT_LIMIT else resident;
    }

    method Stats() returns (resident: int, idle: int)
      ensures resident == View().total && idle == View().idle
    {
      return totalCount, idleCount;
    }

    /** One pass over the list for the oldest idle node and the idle node last seen before it. */
    method Scan() returns (oldest: Node?, oldestPrev: Node?)
      requires Valid()
      ensures match Victim(list)
              case None => oldest == null
              case Some(v) => oldest == nodes[v] && oldestPrev == Before(nodes, ScanCut(list, v))
    {
      hide Victim, ScanCut, Distinct;
      oldest, oldestPrev := null, null;
      var prev: Node? := null;
      var e := head;
      ghost var i: nat := 0;
      ScanStart(list);
      while e != null
        invariant i <= |nodes| && e == From(nodes, i)
        invariant prev == Before(nodes, ScanCut(list, i))
        invariant match Victim(list[..i])
                  case None => oldest == null
                  case Some(v) => oldest == nodes[v] && oldestPrev == Before(nodes, ScanCut(list, v))
        decreases |nodes| - i
      {
        assert nodes[i].View() == list[i];
        ScanNext(list, i);
        if e.refs == 0 {
          if oldest == null || e.touched < oldest.touched {
            oldest, oldestPrev := e, prev;
          }
          prev := e;
        }
        e := e.next;
        i := i + 1;
      }
      assert list[..i] == list;
    }

    /** Chains `prev`, or the head, to what follows the node at `v`. */
    method ChainPast(prev: Node?, node: Node, ghost cut: nat, ghost v: nat)
      requires Valid() && cut <= v < |nodes| && node == nodes[v] && prev == Before(nodes, cut)
      modifies this, prev
      ensures Valid() && repr == old(repr)
      ensures View() == old(View()).(entries := Without(old(list), cut, v + 1))
    {
      hide Distinct, Without;
      ghost var was, entries := nodes, list;
      if prev != null {
        DistinctOthers(nodes, cut - 1);
        prev.next := node.next;
      } else {
        head := node.next;
      }
      Relinked(was, entries, cut, v);
      nodes, list := Without(was, cut, v + 1), Without(entries, cut, v + 1);
    }

    /** Takes the victim out after the node the scan remembered. */
    method UnlinkAndClose(oldest: Node, oldestPrev: Node?)
      requires Valid() && Victim(list).Some?
      requires oldest == nodes[Victim(list).value] && oldestPrev == Before(nodes, ScanCut(list, Victim(list).value))
      modifies this, repr
      ensures Valid() && View() == EvictOne(AsWritten, old(View())) && repr == old(repr)
    {
      hide Victim, ScanCut, Distinct;
      ghost var v := Victim(list).value;
      ghost var cut := ScanCut(list, v);
      assert nodes[v].View() == list[v];
      ghost var gone := Ctxs(list[cut..v]);
      ChainPast(oldestPrev, oldest, cut, v);
      lost := lost + gone;
      idleCount := idleCount - 1;
      totalCount := totalCount - 1;
      closed := closed + [oldest.ctx];
    }

    method EvictIfOverBudget()
      requires Valid()
      modifies this, repr
      ensures Valid() && View() == Evict(AsWritten, old(View()))
      ensures repr == old(repr)
    {
      hide Victim, EvictOne;
      while totalCount > limit && head != null
        invariant Valid() && repr == old(repr)
        invariant Evict(AsWritten, View()) == Evict(AsWritten, old(View()))
        decreases |list|
      {
        var oldest, oldestPrev := Scan();
        if oldest == null {
          break;
        }
        UnlinkAndClose(oldest, oldestPrev);
      }
      if head == null {
        assert list == [];
        EmptyHasNoVictim(list);
      }
    }

    /** The locked search of `get`: a hit takes one more reference. */
    method AcquireListed(did: string) returns (ctx: Option<nat>)
      requires Valid()
      modifies this, repr
      ensures Valid() && repr == old(repr)
      ensures match FindDid(old(list), did)
              case None => ctx == None && View() == old(View())
              case Some(i) => ctx == Some(old(list)[i].ctx) && View() == Acquire(old(View()), i)
    {
      var e := head;
      ghost var i: nat := 0;
      while e != null && e.did != did
        invariant i <= |nodes| && e == From(nodes, i)
        invariant forall k :: 0 <= k < i ==> list[k].did != did
        decreases |nodes| - i
      {
        assert nodes[i].View() == list[i];
        e := e.next;
        i := i + 1;
      }
      if e == null {
        return None;
      }
      assert nodes[i].View() == list[i] && FindDid(list, did) == Some(i);
      TakeReference(e, i);
      return Some(e.ctx);
    }

    /** One more reference on a listed node, which becomes the most recently used. */
    method TakeReference(e: Node, ghost i: nat)
      requires Valid() && i < |nodes| && e == nodes[i]
      modifies this, e
      ensures Valid() && nodes == old(nodes) && repr == old(repr)
      ensures View() == Acquire(old(View()), i)
    {
      hide Distinct;
      DistinctOthers(nodes, i);
      if e.refs == 0 {
        idleCount := idleCount - 1;
      }
      e.refs := e.refs + 1;
      touches := touches + 1;
      e.touched := touches;
      list := list[i := e.View()];
    }

    /** The second locked region of `get`, with a context opened meanwhile. */
    method InsertOpened(did: string, loaded: nat) returns (ctx: nat)
      requires Valid()
      modifies this, repr
      ensures Valid() && (View(), ctx) == Insert(AsWritten, old(View()), did, loaded)
      ensures old(repr) <= repr && fresh(repr - old(repr))
    {
      hide FindDid, Evict;
      var existing := AcquireListed(did);
      if existing.Some? {
        closed := closed + [loaded];
        return existing.value;
      }
      PushNode(did, loaded);
      EvictIfOverBudget();
      return loaded;
    }

    /** A new node at the head. */
    method PushNode(did: string, ctx: nat)
      requires Valid()
      modifies this
      ensures Valid() && View() == Push(old(View()), did, ctx)
      ensures old(repr) <= repr && fresh(repr - old(repr))
    {
      hide Distinct, Linked;
      var node := new Node(did, ctx, touches + 1, head);
      LinkedPush(node, nodes, list);
      touches := touches + 1;
      head := node;
      nodes, list, repr := [node] + nodes, [node.View()] + list, repr + {node};
      totalCount := totalCount + 1;
    }

    method ReleaseContext(ctx: nat)
      requires Valid()
      modifies this, repr
      ensures Valid() && View() == Release(AsWritten, old(View()), ctx)
      ensures repr == old(repr)
    {
      hide Evict;
      var e := head;
      ghost var i: nat := 0;
      while e != null && e.ctx != ctx
        invariant i <= |nodes| && e == From(nodes, i)
        invariant forall k :: 0 <= k < i ==> list[k].ctx != ctx
        decreases |nodes| - i
      {
        assert nodes[i].View() == list[i];
        e := e.next;
        i := i + 1;
      }
      if e == null {
        return;
      }
      assert nodes[i].View() == list[i] && FindCtx(list, ctx) == Some(i);
      hide FindCtx;
      if e.refs > 0 {
        DropReference(e, i);
        if e.refs == 0 {
          EvictIfOverBudget();
        }
      }
    }

    /** One reference less on a listed node; the last one makes it idle. */
    method DropReference(e: Node, ghost i: nat)
      requires Valid() && i < |nodes| && e == nodes[i] && e.refs > 0
      modifies this, e
      ensures Valid() && nodes == old(nodes) && repr == old(repr) && e.refs == old(e.refs) - 1
      ensures View() == if old(e.refs) == 1 then LastRelease(old(View()), i)
                        else old(View()).(entries := old(list)[i := old(list)[i].(refs := old(list)[i].refs - 1)])
    {
      hide Distinct;
      DistinctOthers(nodes, i);
      e.refs := e.refs - 1;
      if e.refs == 0 {
        idleCount := idleCount + 1;
        touches := touches + 1;
        e.touched := touches;
      }
      list := list[i := e.View()];
    }
  }

  lemma ScanStart(e: seq<Entry>)
    ensures ScanCut(e, 0) == 0 && Victim(e[..0]).None?
  {
  }

  lemma EmptyHasNoVictim(e: seq<Entry>)
    requires e == []
    ensures Victim(e).None?
  {
  }

  /** One more entry looked at. */
  lemma ScanNext(e: seq<Entry>, i: nat)
    requires i < |e|
    ensures ScanCut(e, i + 1) == if e[i].refs == 0 then i + 1 else ScanCut(e, i)
    ensures var before := Victim(e[..i]);
            Victim(e[..i + 1]) ==
            if e[i].refs == 0 && (before.None? || e[i].touched < e[before.value].touched) then Some(i) else before
  {
    assert e[..i + 1][..i] == e[..i];
  }

  /** What is left after releasing a list of references one by one. */
  function ReleaseAll(mode: Unlinking, c: Cache, refs: seq<nat>): Cache
  {
    if refs == [] then c else Release(mode, ReleaseAll(mode, c, refs[..|refs| - 1]), refs[|refs| - 1])
  }

  /** The references one thread has acquired and not yet given back. */
  class Acquired {
    var buf: array<nat>
    var len: nat

    ghost predicate Valid()
      reads this
    {
      len <= buf.Length
    }

    ghost function Contents(): seq<nat>
      reads this, buf
      requires Valid()
    {
      buf[..len]
    }

    constructor ()
      ensures Valid() && Contents() == [] && fresh(buf)
    {
      buf, len := new nat[0], 0;
    }

    /** The buffer doubles when it is full. */
    method Push(ctx: nat)
      requires Valid()
      modifies this, buf
      ensures Valid() && Contents() == old(Contents()) + [ctx]
      ensures if old(len) < old(buf.Length) then buf == old(buf)
              else fresh(buf) && buf.Length == if old(buf.Length) == 0 then 8 else 2 * old(buf.Length)
    {
      if len == buf.Length {
        var from := buf;
        var grown := new nat[if from.Length == 0 then 8 else from.Length * 2];
        for k := 0 to len
          invariant buf == from && len == old(len) == from.Length && from[..len] == old(Contents()) && grown[..k] == from[..k]
        {
          grown[k] := from[k];
        }
        buf := grown;
      }
      buf[len] := ctx;
      len := len + 1;
    }

    /** At the end of a request everything this thread acquired is released, in the order it was acquired. */
    method ReleaseThreadLocal(cache: ContextCache)
      requires Valid() && cache.Valid()
      modifies this`len, cache, cache.repr
      ensures Valid() && cache.Valid() && Contents() == []
      ensures cache.View() == ReleaseAll(AsWritten, old(cache.View()), old(Contents()))
    {
      hide Release;
      for i := 0 to len
        invariant len <= buf.Length && len == old(len)
        invariant cache.Valid() && cache.repr == old(cache.repr)
        invariant cache.View() == ReleaseAll(AsWritten, old(cache.View()), buf[..i])
      {
        cache.ReleaseContext(buf[i]);
        assert buf[..i + 1][..i] == buf[..i];
      }
      len := 0;
    }
  }

  function Releases(refs: seq<nat>): seq<Op>
  {
    if refs == [] then [] else Releases(refs[..|refs| - 1]) + [OpRelease(refs[|refs| - 1])]
  }

  /** Releasing what nobody holds any more does nothing, listed or not. */
  lemma StrayRelease(mode: Unlinking, s: System, ctx: nat)
    requires Inv(mode, s) && ctx !in s.held
    ensures Release(mode, s.cache, ctx) == s.cache
  {
    var i := FindCtx(s.cache.entries, ctx);
    assert i.Some? ==> s.cache.entries[i.value].refs == s.held[ctx];
  }

  lemma ReleaseAnyway(mode: Unlinking, s: System, ctx: nat)
    requires Inv(mode, s)
    ensures Inv(mode, Step(mode, s, OpRelease(ctx)))
    ensures Step(mode, s, OpRelease(ctx)) == s.(cache := Release(mode, s.cache, ctx), held := s.held - multiset{ctx})
  {
    hide Release, Inv;
    StepKeeps(mode, s, OpRelease(ctx));
    if ctx !in s.held {
      StrayRelease(mode, s, ctx);
    }
  }

  lemma RunThen(mode: Unlinking, s: System, ops: seq<Op>, op: Op)
    ensures Run(mode, s, ops + [op]) == Step(mode, Run(mode, s, ops), op)
  {
    hide Step;
    assert (ops + [op])[..|ops|] == ops;
  }

  lemma NothingReleased(mode: Unlinking, s: System)
    ensures Run(mode, s, []) == s && ReleaseAll(mode, s.cache, []) == s.cache
    ensures s.held - multiset([]) == s.held
  {
  }

  lemma ReleaseAllStep(mode: Unlinking, c: Cache, refs: seq<nat>)
    requires refs != []
    ensures ReleaseAll(mode, c, refs) == Release(mode, ReleaseAll(mode, c, refs[..|refs| - 1]), refs[|refs| - 1])
  {
    hide Release;
  }

  lemma TakenLast(held: multiset<nat>, refs: seq<nat>)
    requires refs != []
    ensures var n := |refs| - 1; held - multiset(refs[..n]) - multiset{refs[n]} == held - multiset(refs)
  {
    var n := |refs| - 1;
    assert refs == refs[..n] + [refs[n]];
  }

  /** The end of a thread's request is a run that takes away as many references as the buffer lists and as there are left,
      even if the thread has released some of them by hand before. */
  lemma {:induction false} ReleaseAllIsRun(mode: Unlinking, s: System, refs: seq<nat>)
    requires Inv(mode, s)
    ensures Inv(mode, Run(mode, s, Releases(refs)))
    ensures Run(mode, s, Releases(refs)) == s.(cache := ReleaseAll(mode, s.cache, refs), held := s.held - multiset(refs))
  {
    hide Release, Inv, Step, Run, ReleaseAll;
    if refs == [] {
      NothingReleased(mode, s);
    } else {
      var front, last := refs[..|refs| - 1], refs[|refs| - 1];
      ReleaseAllIsRun(mode, s, front);
      RunThen(mode, s, Releases(front), OpRelease(last));
      ReleaseAnyway(mode, Run(mode, s, Releases(front)), last);
      ReleaseAllStep(mode, s.cache, refs);
      TakenLast(s.held, refs);
    }
  }

  /** Of the references `mine` that a thread still has, its buffer may list more, if it released some by hand and left
      them there. What others hold stays theirs just when it lists none too many of any context that others hold. */
  lemma OthersKeepExactly(mode: Unlinking, s: System, refs: seq<nat>, mine: multiset<nat>)
    requires Inv(mode, s) && mine <= s.held
    ensures s.held - mine <= Run(mode, s, Releases(refs)).held
            <==> forall ctx :: ctx in s.held - mine ==> multiset(refs)[ctx] <= mine[ctx]
  {
    ReleaseAllIsRun(mode, s, refs);
    hide Run, Inv;
    var listed, others := multiset(refs), s.held - mine;
    assert Run(mode, s, Releases(refs)).held == s.held - listed;
    assert forall x :: others[x] == s.held[x] - mine[x];
    assert others <= s.held - listed <==> forall x :: others[x] <= (s.held - listed)[x];
    forall x ensures others[x] <= (s.held - listed)[x] <==> (x in others ==> listed[x] <= mine[x]) {
    }
  }

  /** A thread opens an account's context and releases it by hand, and another thread takes it up. */
  function TakenUp(did: string): seq<Op> { [OpGet(did, true), OpInsert(0), OpRelease(0), OpGet(did, true)] }

  /** Now the first thread's buffer is released, and nobody is left holding what the second thread uses. */
  lemma ReleasedTwice(mode: Unlinking, did: string)
    ensures var s := Run(mode, Initial(), TakenUp(did));
            s.held == multiset{0} && Run(mode, s, Releases([0])).held == multiset{}
  {
    var ops := TakenUp(did);
    assert ops[..1] == [] + [ops[0]] && ops[..2] == ops[..1] + [ops[1]] && ops[..3] == ops[..2] + [ops[2]] && ops == ops[..3] + [ops[3]];
    RunThen(mode, Initial(), [], ops[0]);
    RunThen(mode, Initial(), ops[..1], ops[1]);
    RunThen(mode, Initial(), ops[..2], ops[2]);
    RunThen(mode, Initial(), ops[..3], ops[3]);
    TakenUpSteps(mode, did);
    RunIsSound(mode, ops);
    ReleaseAllIsRun(mode, Run(mode, Initial(), ops), [0]);
  }

  lemma RunIsSound(mode: Unlinking, ops: seq<Op>)
    ensures Inv(mode, Run(mode, Initial(), ops))
  {
    RunKeeps(mode, ops);
  }

  /** The states that run passes through. */
  lemma TakenUpSteps(mode: Unlinking, did: string)
    ensures var missed := Initial().(owners := [did], waiting := [0]);
            var listed := System(Initial().cache.(entries := [Entry(did, 0, 1, 1)], touches := 1, total := 1), [did], [], multiset{0});
            var idle := System(Initial().cache.(entries := [Entry(did, 0, 0, 2)], touches := 2, total := 1, idle := 1), [did], [], multiset{});
            && Step(mode, Initial(), OpGet(did, true)) == missed && Step(mode, missed, OpInsert(0)) == listed
            && Step(mode, listed, OpRelease(0)) == idle && Step(mode, idle, OpGet(did, true)).held == multiset{0}
  {
  }

  // ---------------------------------------------------------------- addresses given out again

  /**
   * The program knows a context by its address. `at` gives the address of every context ever opened; that of a closed
   * context may be given out again, but contexts that are listed together have different ones.
   */
  ghost predicate Apart(at: nat -> nat, e: seq<Entry>)
  {
    forall i, j :: 0 <= i < j < |e| ==> at(e[i].ctx) != at(e[j].ctx)
  }

  function FindAddress(at: nat -> nat, e: seq<Entry>, address: nat): (r: Option<nat>)
    ensures r.Some? ==> r.value < |e| && at(e[r.value].ctx) == address
    ensures r.None? ==> forall k :: 0 <= k < |e| ==> at(e[k].ctx) != address
  {
    if e == [] then None
    else if at(e[|e| - 1].ctx) == address then Some(|e| - 1)
    else FindAddress(at, e[..|e| - 1], address)
  }

  /** The release as the program makes it: of whichever listed context has the address now. */
  function ReleaseAddress(mode: Unlinking, at: nat -> nat, c: Cache, address: nat): Cache
  {
    match FindAddress(at, c.entries, address)
    case None => c
    case Some(i) => Release(mode, c, c.entries[i].ctx)
  }

  function ReleaseAddresses(mode: Unlinking, at: nat -> nat, c: Cache, refs: seq<nat>): Cache
  {
    if refs == [] then c
    else ReleaseAddress(mode, at, ReleaseAddresses(mode, at, c, refs[..|refs| - 1]), at(refs[|refs| - 1]))
  }

  /** The contexts a buffer means by now: for each reference the one listed at its address, if there is one. */
  function Meant(at: nat -> nat, e: seq<Entry>, refs: seq<nat>): seq<nat>
  {
    if refs == [] then []
    else
      Meant(at, e, refs[..|refs| - 1])
      + match FindAddress(at, e, at(refs[|refs| - 1])) case None => [] case Some(i) => [e[i].ctx]
  }

  lemma {:induction false} EvictCtxs(mode: Unlinking, c: Cache)
    ensures forall x <- Ctxs(Evict(mode, c).entries) :: x in Ctxs(c.entries)
    decreases |c.entries|
  {
    hide Victim;
    if c.total > c.limit && Victim(c.entries).Some? {
      var d := EvictOne(mode, c);
      assert forall x <- d.entries :: x in c.entries;
      EvictCtxs(mode, d);
      CtxsOf(c.entries);
      CtxsOf(d.entries);
    }
  }

  lemma CtxsOf(e: seq<Entry>)
    ensures forall x :: x in Ctxs(e) <==> exists y :: y in e && y.ctx == x
  {
    forall x | x in Ctxs(e) ensures exists y :: y in e && y.ctx == x {
      var k :| 0 <= k < |e| && Ctxs(e)[k] == x;
      assert e[k] in e;
    }
    forall y | y in e ensures y.ctx in Ctxs(e) {
      var k :| 0 <= k < |e| && e[k] == y;
      assert Ctxs(e)[k] == y.ctx;
    }
  }

  lemma ReleaseCtxs(mode: Unlinking, c: Cache, ctx: nat)
    ensures forall x <- Ctxs(Release(mode, c, ctx).entries) :: x in Ctxs(c.entries)
  {
    var i := FindCtx(c.entries, ctx);
    if i.Some? && c.entries[i.value].refs > 0 {
      EvictCtxs(mode, LastRelease(c, i.value));
      var x := c.entries[i.value];
      assert Ctxs(c.entries[i.value := x.(refs := 0, touched := c.touches + 1)]) == Ctxs(c.entries);
      assert Ctxs(c.entries[i.value := x.(refs := x.refs - 1)]) == Ctxs(c.entries);
    }
  }

  lemma {:induction false} ReleaseAllCtxs(mode: Unlinking, c: Cache, refs: seq<nat>)
    ensures forall x <- Ctxs(ReleaseAll(mode, c, refs).entries) :: x in Ctxs(c.entries)
  {
    hide Release, Ctxs;
    if refs != [] {
      ReleaseAllCtxs(mode, c, refs[..|refs| - 1]);
      ReleaseCtxs(mode, ReleaseAll(mode, c, refs[..|refs| - 1]), refs[|refs| - 1]);
    }
  }

  lemma PlaceOf(e: seq<Entry>, ctx: nat) returns (k: nat)
    requires ctx in Ctxs(e)
    ensures k < |e| && e[k].ctx == ctx
  {
    k :| 0 <= k < |e| && Ctxs(e)[k] == ctx;
  }

  lemma ListedAt(e: seq<Entry>, k: nat)
    requires k < |e|
    ensures e[k].ctx in Ctxs(e)
  {
    assert Ctxs(e)[k] == e[k].ctx;
  }

  /** Some of the contexts listed before are left: what an address means then is what it meant before, or nothing. */
  lemma SameMeaning(mode: Unlinking, at: nat -> nat, e: seq<Entry>, c: Cache, address: nat)
    requires Apart(at, e) && forall x <- Ctxs(c.entries) :: x in Ctxs(e)
    ensures ReleaseAddress(mode, at, c, address) ==
            match FindAddress(at, e, address) case None => c case Some(j) => Release(mode, c, e[j].ctx)
  {
    hide FindAddress, Ctxs, Apart;
    var i, j := FindAddress(at, c.entries, address), FindAddress(at, e, address);
    if i.Some? {
      ListedAt(c.entries, i.value);
      var k := PlaceOf(e, c.entries[i.value].ctx);
      assert j.Some?;
      SameAddress(at, e, j.value, k);
    } else if j.Some? {
      assert FindCtx(c.entries, e[j.value].ctx).None?;
    }
  }

  lemma SameAddress(at: nat -> nat, e: seq<Entry>, i: nat, j: nat)
    requires Apart(at, e) && i < |e| && j < |e| && at(e[i].ctx) == at(e[j].ctx)
    ensures i == j
  {
  }

  /** Releasing a buffer by its addresses is releasing the contexts that those addresses mean by now. */
  lemma {:induction false} AddressesMeanContexts(mode: Unlinking, at: nat -> nat, c: Cache, refs: seq<nat>)
    requires Apart(at, c.entries)
    ensures ReleaseAddresses(mode, at, c, refs) == ReleaseAll(mode, c, Meant(at, c.entries, refs))
  {
    hide Apart, ReleaseAddress, FindAddress, Release, ReleaseAll, Ctxs;
    if refs == [] {
      ReleaseNothing(mode, c);
    } else {
      var front, last := refs[..|refs| - 1], refs[|refs| - 1];
      AddressesMeanContexts(mode, at, c, front);
      var meant := Meant(at, c.entries, front);
      ReleaseAllCtxs(mode, c, meant);
      SameMeaning(mode, at, c.entries, ReleaseAll(mode, c, meant), at(last));
      match FindAddress(at, c.entries, at(last)) {
        case None => assert meant + [] == meant;
        case Some(j) =>
          var longer := meant + [c.entries[j].ctx];
          assert longer[..|longer| - 1] == meant;
          ReleaseAllStep(mode, c, longer);
      }
    }
  }

  lemma ReleaseNothing(mode: Unlinking, c: Cache)
    ensures ReleaseAll(mode, c, []) == c
  {
  }

  lemma MeantNothing(at: nat -> nat, e: seq<Entry>)
    ensures Meant(at, e, []) == []
  {
  }

  lemma MeantLast(at: nat -> nat, e: seq<Entry>, refs: seq<nat>)
    requires refs != []
    ensures Meant(at, e, refs) == Meant(at, e, refs[..|refs| - 1]) + Meant(at, e, [refs[|refs| - 1]])
  {
    var last := refs[|refs| - 1];
    assert [last][..0] == [];
    assert Meant(at, e, [last]) == [] + match FindAddress(at, e, at(last)) case None => [] case Some(i) => [e[i].ctx];
    assert Meant(at, e, [last]) == match FindAddress(at, e, at(last)) case None => [] case Some(i) => [e[i].ctx];
  }

  /** A buffer of contexts that are all listed means just those. */
  lemma {:induction false} MeantAsListed(at: nat -> nat, e: seq<Entry>, refs: seq<nat>)
    requires Apart(at, e) && forall x <- refs :: x in Ctxs(e)
    ensures Meant(at, e, refs) == refs
  {
    hide FindAddress, Ctxs, Apart, Meant;
    if refs == [] {
      MeantNothing(at, e);
    } else {
      var front, last := refs[..|refs| - 1], refs[|refs| - 1];
      assert last in refs && forall x <- front :: x in refs;
      MeantAsListed(at, e, front);
      var k := PlaceOf(e, last);
      StaleReference(at, e, k, last);
      MeantLast(at, e, refs);
      assert front + [last] == refs;
    }
  }

  /** What others hold stays theirs just when the buffer means none too many references to any context that others hold. */
  lemma OthersKeepAtAddresses(mode: Unlinking, at: nat -> nat, s: System, refs: seq<nat>, mine: multiset<nat>)
    requires Inv(mode, s) && mine <= s.held && Apart(at, s.cache.entries)
    ensures var meant := Meant(at, s.cache.entries, refs);
            var t := Run(mode, s, Releases(meant));
            && t.cache == ReleaseAddresses(mode, at, s.cache, refs) && t.held == s.held - multiset(meant)
            && (s.held - mine <= t.held <==> forall ctx :: ctx in s.held - mine ==> multiset(meant)[ctx] <= mine[ctx])
  {
    hide Run, Inv, Apart, Releases, ReleaseAddresses, Meant;
    var meant := Meant(at, s.cache.entries, refs);
    AddressesMeanContexts(mode, at, s.cache, refs);
    ReleaseAllIsRun(mode, s, meant);
    OthersKeepExactly(mode, s, meant, mine);
  }

  /** A reference to a closed context whose address has been given out again means the context that has it now. */
  lemma StaleReference(at: nat -> nat, e: seq<Entry>, i: nat, stale: nat)
    requires Apart(at, e) && i < |e| && at(stale) == at(e[i].ctx)
    ensures Meant(at, e, [stale]) == [e[i].ctx]
  {
    hide FindAddress, Apart;
    var j := FindAddress(at, e, at(stale));
    assert j.Some?;
    SameAddress(at, e, j.value, i);
    assert [stale][..0] == [] && [] + [e[i].ctx] == [e[i].ctx];
  }
}
