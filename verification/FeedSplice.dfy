/** Splicing an account's own posts into a feed page the AppView served without them. */
module FeedSplice {
  import opened Bytes
  import opened KeyedSort
  import opened Outcome

  const POST_COLLECTION := "app.bsky.feed.post"

  /** Where a feed item comes from: the upstream page, or a local record with its CID. */
  datatype Content = Upstream(item: nat) | LocalPost(cid: bytes, record: nat)

  /** A feed item; the address and the time of its post are there when the page gives them as strings. */
  datatype Item = Item(uri: Option<bytes>, indexedAt: Option<bytes>, content: Content)

  /** A local record newer than what upstream has indexed, with the fields that are present and of the right type. */
  datatype Local = Local(collection: Option<string>, uri: Option<bytes>, cid: Option<bytes>, indexedAt: Option<bytes>, value: Option<nat>)

  // ---------------------------------------------------------------- what is inserted where

  /** Strictly earlier by string comparison. */
  predicate Earlier(x: Item, at: bytes) { x.indexedAt.Some? && LexLess(x.indexedAt.value, at) }

  function LastTime(feed: seq<Item>): Option<bytes> { if feed == [] then None else feed[|feed| - 1].indexedAt }

  predicate Qualifies(l: Local, lastTime: Option<bytes>)
  {
    && l.collection == Some(POST_COLLECTION) && l.uri.Some? && l.indexedAt.Some? && l.value.Some?
    && (lastTime.Some? ==> LexLess(lastTime.value, l.indexedAt.value))
  }

  predicate Has(feed: seq<Item>, uri: bytes) { exists x <- feed :: x.uri == Some(uri) }

  function LocalItem(l: Local): Item
    requires Qualifies(l, None)
  {
    Item(l.uri, l.indexedAt, LocalPost(if l.cid.Some? then l.cid.value else [], l.value.value))
  }

  /** The first position with an earlier item, or the end. */
  function Position(feed: seq<Item>, at: bytes): (i: nat)
    ensures i <= |feed| && (i < |feed| ==> Earlier(feed[i], at))
    ensures forall k :: 0 <= k < i ==> !Earlier(feed[k], at)
  {
    if feed == [] || Earlier(feed[0], at) then 0 else 1 + Position(feed[1..], at)
  }

  function InsertAt(feed: seq<Item>, i: nat, x: Item): seq<Item>
    requires i <= |feed|
  {
    feed[..i] + [x] + feed[i..]
  }

  function SpliceOne(feed: seq<Item>, lastTime: Option<bytes>, l: Local): seq<Item>
  {
    if Qualifies(l, lastTime) && !Has(feed, l.uri.value) then InsertAt(feed, Position(feed, l.indexedAt.value), LocalItem(l))
    else feed
  }

  function SpliceAll(feed: seq<Item>, lastTime: Option<bytes>, locals: seq<Local>): seq<Item>
  {
    if locals == [] then feed
    else SpliceOne(SpliceAll(feed, lastTime, locals[..|locals| - 1]), lastTime, locals[|locals| - 1])
  }

  /** The page that is returned. The time of the upstream page's last item bounds what belongs on it. */
  function Splice(feed: seq<Item>, locals: seq<Local>): seq<Item> { SpliceAll(feed, LastTime(feed), locals) }

  // ---------------------------------------------------------------- the loops

  class Feed {
    var items: seq<Item>

    constructor (items: seq<Item>)
      ensures this.items == items
    {
      this.items := items;
    }

    method InsertLocalPosts(locals: seq<Local>)
      modifies this
      ensures items == Splice(old(items), locals)
    {
      var lastTime := None;
      if |items| > 0 {
        lastTime := items[|items| - 1].indexedAt;
      }
      ghost var upstream := items;
      for n := 0 to |locals|
        invariant items == SpliceAll(upstream, lastTime, locals[..n])
      {
        assert locals[..n + 1][..n] == locals[..n];
        var l := locals[n];
        if Qualifies(l, lastTime) {
          var already := Holds(l.uri.value);
          if !already {
            var idx := FirstEarlier(l.indexedAt.value);
            if idx >= 0 {
              items := items[..idx] + [LocalItem(l)] + items[idx..];
            } else {
              assert items[..|items|] == items && items[|items|..] == [];
              items := items + [LocalItem(l)];
            }
          }
        }
      }
      assert locals[..|locals|] == locals;
    }

    method Holds(uri: bytes) returns (already: bool)
      ensures already == Has(items, uri)
    {
      for i := 0 to |items|
        invariant forall k :: 0 <= k < i ==> items[k].uri != Some(uri)
      {
        if items[i].uri == Some(uri) {
          return true;
        }
      }
      return false;
    }

    /** The index of the first earlier item, or a negative number. */
    method FirstEarlier(at: bytes) returns (idx: int)
      ensures idx == if Position(items, at) < |items| then Position(items, at) else -1
    {
      for i := 0 to |items|
        invariant forall k :: 0 <= k < i ==> !Earlier(items[k], at)
      {
        if Earlier(items[i], at) {
          return i;
        }
      }
      return -1;
    }
  }

  // ---------------------------------------------------------------- what was added

  /** The items the splice adds: of the records that qualify, those upstream does not have, the first for each address. */
  function Added(feed: seq<Item>, lastTime: Option<bytes>, locals: seq<Local>): seq<Item>
  {
    if locals == [] then []
    else
      var before, l := Added(feed, lastTime, locals[..|locals| - 1]), locals[|locals| - 1];
      if Qualifies(l, lastTime) && !Has(feed, l.uri.value) && !Has(before, l.uri.value) then before + [LocalItem(l)]
      else before
  }

  lemma MultisetInsert(feed: seq<Item>, i: nat, x: Item)
    requires i <= |feed|
    ensures multiset(InsertAt(feed, i, x)) == multiset(feed) + multiset{x}
  {
    assert feed == feed[..i] + feed[i..];
  }

  lemma HasMultiset(feed: seq<Item>, uri: bytes)
    ensures Has(feed, uri) <==> exists x <- multiset(feed) :: x.uri == Some(uri)
  {
    if Has(feed, uri) {
      var x :| x in feed && x.uri == Some(uri);
      assert x in multiset(feed);
    }
  }

  /** The page returned is the upstream page and what was added, nothing else and nothing twice. */
  lemma {:induction false} PageIsUpstreamAndAdded(feed: seq<Item>, lastTime: Option<bytes>, locals: seq<Local>)
    ensures multiset(SpliceAll(feed, lastTime, locals)) == multiset(feed) + multiset(Added(feed, lastTime, locals))
  {
    if locals != [] {
      var n := |locals| - 1;
      var l, before, added := locals[n], SpliceAll(feed, lastTime, locals[..n]), Added(feed, lastTime, locals[..n]);
      PageIsUpstreamAndAdded(feed, lastTime, locals[..n]);
      if Qualifies(l, lastTime) {
        HasMultiset(before, l.uri.value);
        HasMultiset(feed, l.uri.value);
        HasMultiset(added, l.uri.value);
        assert Has(before, l.uri.value) <==> Has(feed, l.uri.value) || Has(added, l.uri.value);
        if !Has(before, l.uri.value) {
          MultisetInsert(before, Position(before, l.indexedAt.value), LocalItem(l));
        }
      }
    }
  }

  /** The first record for an address that qualifies. */
  function FirstFor(locals: seq<Local>, lastTime: Option<bytes>, uri: bytes): (r: Option<nat>)
    ensures r.Some? ==> r.value < |locals| && Qualifies(locals[r.value], lastTime) && locals[r.value].uri == Some(uri)
    ensures forall k :: 0 <= k < (if r.Some? then r.value else |locals|) ==>
              !(Qualifies(locals[k], lastTime) && locals[k].uri == Some(uri))
  {
    if locals == [] then None
    else if FirstFor(locals[..|locals| - 1], lastTime, uri).Some? then FirstFor(locals[..|locals| - 1], lastTime, uri)
    else if Qualifies(locals[|locals| - 1], lastTime) && locals[|locals| - 1].uri == Some(uri) then Some(|locals| - 1)
    else None
  }

  /** An address is added once, if a record for it qualifies and upstream does not have it; the first such record is the one used. */
  lemma {:induction false} EachAddressOnce(feed: seq<Item>, lastTime: Option<bytes>, locals: seq<Local>, uri: bytes)
    ensures var added, first := Added(feed, lastTime, locals), FirstFor(locals, lastTime, uri);
            && (Has(added, uri) <==> first.Some? && !Has(feed, uri))
            && (Has(added, uri) ==> LocalItem(locals[first.value]) in added)
            && (forall i, j :: 0 <= i < j < |added| ==> added[i].uri != added[j].uri)
            && (forall x <- added :: x.uri.Some? && x.indexedAt.Some? && x.content.LocalPost?)
  {
    if locals != [] {
      var n := |locals| - 1;
      var before := Added(feed, lastTime, locals[..n]);
      EachAddressOnce(feed, lastTime, locals[..n], uri);
      var l := locals[n];
      if Added(feed, lastTime, locals) != before {
        assert forall x <- before :: x.uri != l.uri;
        assert LocalItem(l) in before + [LocalItem(l)];
      }
      assert forall x <- before :: x in Added(feed, lastTime, locals);
    }
  }

  function FromUpstream(feed: seq<Item>): seq<Item>
  {
    if feed == [] then []
    else FromUpstream(feed[..|feed| - 1]) + if feed[|feed| - 1].content.Upstream? then [feed[|feed| - 1]] else []
  }

  lemma {:induction false} FromUpstreamConcat(a: seq<Item>, b: seq<Item>)
    ensures FromUpstream(a + b) == FromUpstream(a) + FromUpstream(b)
  {
    if b == [] {
      assert a + b == a;
    } else {
      assert (a + b)[..|a + b| - 1] == a + b[..|b| - 1];
      FromUpstreamConcat(a, b[..|b| - 1]);
    }
  }

  lemma {:induction false} AllUpstream(feed: seq<Item>)
    requires forall x <- feed :: x.content.Upstream?
    ensures FromUpstream(feed) == feed
  {
    if feed != [] {
      var front, last := feed[..|feed| - 1], feed[|feed| - 1];
      assert last in feed && feed == front + [last];
      AllUpstream(front);
    }
  }

  lemma FromUpstreamOne(x: Item)
    requires x.content.LocalPost?
    ensures FromUpstream([x]) == []
  {
    assert FromUpstream([x]) == FromUpstream([x][..0]);
  }

  lemma FromUpstreamInsert(feed: seq<Item>, i: nat, x: Item)
    requires i <= |feed| && x.content.LocalPost?
    ensures FromUpstream(InsertAt(feed, i, x)) == FromUpstream(feed)
  {
    hide FromUpstream;
    FromUpstreamOne(x);
    FromUpstreamConcat(feed[..i] + [x], feed[i..]);
    FromUpstreamConcat(feed[..i], [x]);
    FromUpstreamConcat(feed[..i], feed[i..]);
    assert feed[..i] + feed[i..] == feed;
  }

  /** Every upstream item stays, in its original order. */
  lemma {:induction false} UpstreamOrderKept(feed: seq<Item>, lastTime: Option<bytes>, locals: seq<Local>)
    requires forall x <- feed :: x.content.Upstream?
    ensures FromUpstream(SpliceAll(feed, lastTime, locals)) == feed
  {
    hide FromUpstream, InsertAt;
    if locals == [] {
      AllUpstream(feed);
    } else {
      var n := |locals| - 1;
      var before, l := SpliceAll(feed, lastTime, locals[..n]), locals[n];
      UpstreamOrderKept(feed, lastTime, locals[..n]);
      if Qualifies(l, lastTime) && !Has(before, l.uri.value) {
        FromUpstreamInsert(before, Position(before, l.indexedAt.value), LocalItem(l));
      }
    }
  }

  /** No item is followed by a later one. */
  ghost predicate Descending(feed: seq<Item>)
  {
    forall i, j :: 0 <= i < j < |feed| && feed[i].indexedAt.Some? && feed[j].indexedAt.Some? ==>
      !LexLess(feed[i].indexedAt.value, feed[j].indexedAt.value)
  }

  lemma {:induction false} InsertKeepsOrder(feed: seq<Item>, at: bytes, x: Item)
    requires Descending(feed) && x.indexedAt == Some(at)
    ensures Descending(InsertAt(feed, Position(feed, at), x))
  {
    hide Position;
    var i := Position(feed, at);
    forall k | i <= k < |feed| && feed[k].indexedAt.Some?
      ensures !LexLess(at, feed[k].indexedAt.value)
    {
      var first, t := feed[i].indexedAt.value, feed[k].indexedAt.value;
      LexTotal(first, at);
      if LexLess(at, t) {
        LexTransitive(first, at, t);
      }
    }
    var page := InsertAt(feed, i, x);
    assert forall k :: 0 <= k < |page| ==> page[k] == if k < i then feed[k] else if k == i then x else feed[k - 1];
  }

  /** A page in descending order stays so. */
  lemma {:induction false} OrderKept(feed: seq<Item>, lastTime: Option<bytes>, locals: seq<Local>)
    requires Descending(feed)
    ensures Descending(SpliceAll(feed, lastTime, locals))
  {
    hide Descending, InsertAt;
    if locals != [] {
      var n := |locals| - 1;
      var before, l := SpliceAll(feed, lastTime, locals[..n]), locals[n];
      OrderKept(feed, lastTime, locals[..n]);
      if Qualifies(l, lastTime) && !Has(before, l.uri.value) {
        InsertKeepsOrder(before, l.indexedAt.value, LocalItem(l));
      }
    }
  }

  ghost predicate HasEarlier(feed: seq<Item>, at: bytes) { exists y <- feed :: Earlier(y, at) }

  ghost predicate AllHaveEarlier(feed: seq<Item>, added: seq<Item>)
  {
    forall x <- added :: x.indexedAt.Some? && HasEarlier(feed, x.indexedAt.value)
  }

  /** The last item stays last just when upstream has an earlier item for everything that is added. */
  lemma {:induction false} LastStaysLastExactly(feed: seq<Item>, lastTime: Option<bytes>, locals: seq<Local>)
    requires feed != [] && forall x <- feed :: x.content.Upstream?
    ensures var page := SpliceAll(feed, lastTime, locals);
            && page != []
            && (page[|page| - 1] == feed[|feed| - 1] <==> AllHaveEarlier(feed, Added(feed, lastTime, locals)))
            && (page[|page| - 1].content.Upstream? ==> page[|page| - 1] == feed[|feed| - 1])
  {
    hide HasEarlier, Has;
    if locals != [] {
      hide AllHaveEarlier, InsertAt, Position;
      var n := |locals| - 1;
      var before, added, l := SpliceAll(feed, lastTime, locals[..n]), Added(feed, lastTime, locals[..n]), locals[n];
      LastStaysLastExactly(feed, lastTime, locals[..n]);
      PageIsUpstreamAndAdded(feed, lastTime, locals[..n]);
      if Qualifies(l, lastTime) {
        SameAddresses(before, feed, added, l.uri.value);
        if !Has(before, l.uri.value) {
          LastAfterInsert(feed, before, added, LocalItem(l), l.indexedAt.value);
        }
      }
    }
  }

  lemma SameAddresses(page: seq<Item>, feed: seq<Item>, added: seq<Item>, uri: bytes)
    requires multiset(page) == multiset(feed) + multiset(added)
    ensures Has(page, uri) <==> Has(feed, uri) || Has(added, uri)
  {
    HasMultiset(page, uri);
    HasMultiset(feed, uri);
    HasMultiset(added, uri);
  }

  lemma {:induction false} LastAfterInsert(feed: seq<Item>, page: seq<Item>, added: seq<Item>, x: Item, at: bytes)
    requires multiset(page) == multiset(feed) + multiset(added)
    requires feed != [] && page != [] && feed[|feed| - 1].content.Upstream? && x.content.LocalPost? && x.indexedAt == Some(at)
    requires page[|page| - 1] == feed[|feed| - 1] <==> AllHaveEarlier(feed, added)
    requires page[|page| - 1].content.Upstream? ==> page[|page| - 1] == feed[|feed| - 1]
    ensures var after := InsertAt(page, Position(page, at), x);
            && (after[|after| - 1] == feed[|feed| - 1] <==> AllHaveEarlier(feed, added + [x]))
            && (after[|after| - 1].content.Upstream? ==> after[|after| - 1] == feed[|feed| - 1])
  {
    hide Position;
    var i := Position(page, at);
    var after := InsertAt(page, i, x);
    assert after[|after| - 1] == if i < |page| then page[|page| - 1] else x;
    assert x in added + [x] && forall z <- added :: z in added + [x];
    if HasEarlier(feed, at) {
      var y :| y in feed && Earlier(y, at);
      assert y in multiset(page);
      assert y in page;
      assert i < |page|;
    } else if AllHaveEarlier(feed, added) {
      NothingEarlier(feed, page, added, at);
    }
  }

  lemma {:induction false} NothingEarlier(feed: seq<Item>, page: seq<Item>, added: seq<Item>, at: bytes)
    requires multiset(page) == multiset(feed) + multiset(added) && AllHaveEarlier(feed, added) && !HasEarlier(feed, at)
    ensures forall z <- page :: !Earlier(z, at)
  {
    forall z | z in page && z.indexedAt.Some?
      ensures !LexLess(z.indexedAt.value, at)
    {
      assert z in multiset(page);
      assert z in feed || z in added;
      if z in added && LexLess(z.indexedAt.value, at) {
        var u :| u in feed && Earlier(u, z.indexedAt.value);
        LexTransitive(u.indexedAt.value, z.indexedAt.value, at);
      }
    }
  }

  /** The last item of a page that gives its time stays last. */
  lemma {:induction false} LastStaysLast(feed: seq<Item>, locals: seq<Local>)
    requires feed != [] && feed[|feed| - 1].indexedAt.Some? && forall x <- feed :: x.content.Upstream?
    ensures var page := Splice(feed, locals); page != [] && page[|page| - 1] == feed[|feed| - 1]
  {
    var last := feed[|feed| - 1];
    LastStaysLastExactly(feed, LastTime(feed), locals);
    AddedIsLater(feed, last.indexedAt.value, locals);
    forall x | x in Added(feed, LastTime(feed), locals)
      ensures x.indexedAt.Some? && HasEarlier(feed, x.indexedAt.value)
    {
      assert last in feed && Earlier(last, x.indexedAt.value);
    }
  }

  lemma {:induction false} AddedIsLater(feed: seq<Item>, time: bytes, locals: seq<Local>)
    ensures forall x <- Added(feed, Some(time), locals) :: x.indexedAt.Some? && LexLess(time, x.indexedAt.value)
  {
    if locals != [] {
      AddedIsLater(feed, time, locals[..|locals| - 1]);
    }
  }
}
