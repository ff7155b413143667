/** The label table, its pages, and walks that follow cursors while labels are still being added. */
module Labels {
  import opened Bytes
  import opened Outcome

  const STAR: byte := 42
  const DEFAULT_LIMIT := 50
  const MAX_LIMIT := 250

  datatype Label = Label(src: bytes, uri: bytes, val: bytes, neg: bool, cts: bytes)

  datatype Row = Row(id: nat, data: Label)

  /** Sources restrict the labels only when they are present. */
  datatype Query = Query(patterns: seq<bytes>, sources: seq<bytes>, sourcesPresent: bool, after: nat, limit: int)

  datatype Page = Page(labels: seq<Label>, cursor: Option<nat>)

  ghost predicate Increasing(rows: seq<Row>)
  {
    forall i, j :: 0 <= i < j < |rows| ==> rows[i].id < rows[j].id
  }

  // ---------------------------------------------------------------- which labels a query asks for

  /** An exact address, or everything that begins like a pattern ending in a star. */
  predicate PatternMatches(pattern: bytes, uri: bytes)
  {
    if |pattern| > 0 && pattern[|pattern| - 1] == STAR then pattern[..|pattern| - 1] <= uri else pattern == uri
  }

  predicate Wanted(l: Label, q: Query)
  {
    && (exists p <- q.patterns :: PatternMatches(p, l.uri))
    && (q.sourcesPresent ==> l.src in q.sources)
  }

  predicate Matches(r: Row, q: Query) { r.id > q.after && Wanted(r.data, q) }

  function Matching(rows: seq<Row>, q: Query): seq<Row>
  {
    if rows == [] then [] else (if Matches(rows[0], q) then [rows[0]] else []) + Matching(rows[1..], q)
  }

  lemma MatchingStep(rows: seq<Row>, q: Query)
    ensures Matching(rows, q) ==
            if rows == [] then [] else (if Matches(rows[0], q) then [rows[0]] else []) + Matching(rows[1..], q)
  {
  }

  function LimitOf(q: Query): (n: nat)
    ensures 1 <= n <= MAX_LIMIT
  {
    if q.limit <= 0 then DEFAULT_LIMIT else if q.limit > MAX_LIMIT then MAX_LIMIT else q.limit
  }

  function LabelsOf(rows: seq<Row>): (r: seq<Label>)
    ensures |r| == |rows| && forall i :: 0 <= i < |r| ==> r[i] == rows[i].data
  {
    seq(|rows|, i requires 0 <= i < |rows| => rows[i].data)
  }

  /** The rows of a page. */
  function PageRows(rows: seq<Row>, q: Query): seq<Row>
  {
    var all := Matching(rows, q);
    if |all| <= LimitOf(q) then all else all[..LimitOf(q)]
  }

  /** A page that leaves labels out names the last label it has. */
  function Cursor(rows: seq<Row>, q: Query): Option<nat>
  {
    var all := Matching(rows, q);
    if |all| <= LimitOf(q) then None else Some(all[LimitOf(q) - 1].id)
  }

  // ---------------------------------------------------------------- the store

  class LabelStore {
    var rows: seq<Row>
    /** The highest number ever given out. */
    var lastId: nat

    ghost predicate Valid()
      reads this
    {
      Increasing(rows) && forall r <- rows :: r.id <= lastId
    }

    constructor ()
      ensures Valid() && rows == []
    {
      rows, lastId := [], 0;
    }

    /** A label whose source, address and value are given is added with a number above all others. */
    method Insert(src: bytes, uri: bytes, val: bytes, neg: bool, cts: bytes, now: bytes) returns (ok: bool)
      requires Valid()
      modifies this
      ensures Valid() && ok == (src != [] && uri != [] && val != [])
      ensures !ok ==> rows == old(rows) && lastId == old(lastId)
      ensures ok ==> lastId > old(lastId)
      ensures ok ==>
                rows == old(rows) + [Row(lastId, Label(src, uri, val, neg, if cts == [] then now else cts))]
    {
      if src == [] || uri == [] || val == [] {
        return false;
      }
      lastId := lastId + 1;
      rows := rows + [Row(lastId, Label(src, uri, val, neg, if cts == [] then now else cts))];
      return true;
    }

    /** The statement: matching rows in order, at most `most` of them. */
    method Select(q: Query, most: nat) returns (found: seq<Row>)
      ensures found == if |Matching(rows, q)| <= most then Matching(rows, q) else Matching(rows, q)[..most]
    {
      hide Matching, Matches;
      found := [];
      var i := 0;
      assert rows[0..] == rows;
      while i < |rows| && |found| < most
        invariant i <= |rows| && |found| <= most
        invariant Matching(rows, q) == found + Matching(rows[i..], q)
        decreases |rows| - i
      {
        MatchingStep(rows[i..], q);
        assert rows[i..][0] == rows[i] && rows[i..][1..] == rows[i + 1..];
        if Matches(rows[i], q) {
          found := found + [rows[i]];
        }
        i := i + 1;
      }
      if i == |rows| {
        MatchingStep(rows[i..], q);
      }
    }

    /** One page: a row more than it holds is fetched to learn whether another follows. */
    method QueryPage(q: Query) returns (page: Page)
      ensures page == Page(LabelsOf(PageRows(rows, q)), Cursor(rows, q))
    {
      hide Matching;
      var limit: int := q.limit;
      if limit <= 0 {
        limit := DEFAULT_LIMIT;
      }
      if limit > MAX_LIMIT {
        limit := MAX_LIMIT;
      }
      var found := Select(q, limit + 1);
      var labels: seq<Label> := [];
      var count, hasMore, lastId := 0, false, 0;
      while count < |found|
        invariant count <= |found| && count <= limit && labels == LabelsOf(found[..count])
        invariant hasMore ==> count == limit && count < |found|
        invariant count > 0 ==> lastId == found[count - 1].id
        decreases |found| - count, !hasMore
      {
        if count >= limit {
          hasMore := true;
          break;
        }
        lastId := found[count].id;
        labels := labels + [found[count].data];
        count := count + 1;
      }
      assert found[..count] == PageRows(rows, q);
      return Page(labels, if hasMore then Some(lastId) else None);
    }
  }

  // ---------------------------------------------------------------- walks

  /** Following cursors through the tables as they are at each request, until a page has none or the walk stops. */
  function Walk(tables: seq<seq<Row>>, q: Query): seq<Row>
    requires tables != []
  {
    var c := Cursor(tables[0], q);
    if c.None? || |tables| == 1 then PageRows(tables[0], q)
    else PageRows(tables[0], q) + Walk(tables[1..], q.(after := c.value))
  }

  /** Whether the walk reached a page without a cursor just with its last table. */
  predicate Ended(tables: seq<seq<Row>>, q: Query)
    requires tables != []
  {
    var c := Cursor(tables[0], q);
    if |tables| == 1 then c.None? else c.Some? && Ended(tables[1..], q.(after := c.value))
  }

  /** Between requests labels are only added, with higher numbers. */
  ghost predicate OnlyAdded(tables: seq<seq<Row>>)
  {
    && (forall i :: 0 <= i < |tables| ==> Increasing(tables[i]))
    && (forall i, j :: 0 <= i <= j < |tables| ==> tables[i] <= tables[j])
  }

  lemma {:induction false} MatchingConcat(a: seq<Row>, b: seq<Row>, q: Query)
    ensures Matching(a + b, q) == Matching(a, q) + Matching(b, q)
  {
    if a == [] {
      assert a + b == b;
    } else {
      assert (a + b)[1..] == a[1..] + b;
      MatchingConcat(a[1..], b, q);
    }
  }

  /** Queries that differ only in where they begin agree on rows beyond both beginnings. */
  lemma {:induction false} MatchingBeyond(rows: seq<Row>, q: Query, after: nat)
    requires forall r <- rows :: r.id > after && r.id > q.after
    ensures Matching(rows, q.(after := after)) == Matching(rows, q)
  {
    if rows != [] {
      MatchingBeyond(rows[1..], q, after);
    }
  }

  /** Asking for what comes after the `k`-th match gives the matches after it. */
  lemma {:induction false} AfterMatch(rows: seq<Row>, q: Query, k: nat)
    requires Increasing(rows) && k < |Matching(rows, q)|
    ensures Matching(rows, q.(after := Matching(rows, q)[k].id)) == Matching(rows, q)[k + 1..]
    ensures Matching(rows, q)[k] in rows && Matching(rows, q)[k].id > q.after
    decreases |rows|
  {
    var cut := Matching(rows, q)[k].id;
    var r, rest := rows[0], rows[1..];
    if Matches(r, q) && k == 0 {
      MatchingBeyond(rest, q, cut);
    } else {
      AfterMatch(rest, q, if Matches(r, q) then k - 1 else k);
    }
  }

  /**
   * A walk that ends has returned exactly the matching labels of the table as it is at the end, each once and in
   * order; nothing that was there at the start is skipped or repeated, whatever is added meanwhile.
   */
  lemma {:induction false} WalkIsComplete(tables: seq<seq<Row>>, q: Query)
    requires tables != [] && OnlyAdded(tables) && Ended(tables, q)
    ensures Walk(tables, q) == Matching(tables[|tables| - 1], q)
    decreases |tables|
  {
    hide Matching;
    if |tables| > 1 {
      var n, first, last := LimitOf(q), tables[0], tables[|tables| - 1];
      var all := Matching(first, q);
      WalkIsComplete(tables[1..], q.(after := all[n - 1].id));
      assert last == first + last[|first|..];
      MatchingConcat(first, last[|first|..], q);
      AfterMatch(last, q, n - 1);
    }
  }

  /** A table that does not change. */
  function Repeated(rows: seq<Row>, n: nat): (r: seq<seq<Row>>)
    ensures |r| == n && forall i :: 0 <= i < n ==> r[i] == rows
  {
    seq(n, i => rows)
  }

  function PagesNeeded(matches: nat, limit: nat): (n: nat)
    requires limit >= 1
    ensures n >= 1
  {
    if matches <= limit then 1 else 1 + PagesNeeded(matches - limit, limit)
  }

  /** With nothing added, the walk ends after as many pages as the matching labels fill. */
  lemma {:induction false} WalkEnds(rows: seq<Row>, q: Query)
    requires Increasing(rows)
    ensures Ended(Repeated(rows, PagesNeeded(|Matching(rows, q)|, LimitOf(q))), q)
    decreases |Matching(rows, q)|
  {
    hide Matching;
    var n, all := LimitOf(q), Matching(rows, q);
    if |all| > n {
      AfterMatch(rows, q, n - 1);
      var next := q.(after := all[n - 1].id);
      WalkEnds(rows, next);
      var pages := PagesNeeded(|all|, n);
      assert Repeated(rows, pages)[1..] == Repeated(rows, pages - 1);
    }
  }

  /** While labels are being added, a walk ends by as many pages as the labels that match at the last of them fill. */
  lemma {:induction false} WalkEndsWhileAdding(tables: seq<seq<Row>>, q: Query)
    requires tables != [] && OnlyAdded(tables)
    requires |tables| >= PagesNeeded(|Matching(tables[|tables| - 1], q)|, LimitOf(q))
    ensures exists k :: 1 <= k <= |tables| && Ended(tables[..k], q)
    decreases |tables|
  {
    hide Matching;
    var n, first, last := LimitOf(q), tables[0], tables[|tables| - 1];
    if Cursor(first, q).None? {
      assert Ended(tables[..1], q);
    } else {
      var next := q.(after := Matching(first, q)[n - 1].id);
      assert last == first + last[|first|..];
      MatchingConcat(first, last[|first|..], q);
      AfterMatch(last, q, n - 1);
      WalkEndsWhileAdding(tables[1..], next);
      var k :| 1 <= k <= |tables| - 1 && Ended(tables[1..][..k], next);
      assert tables[..k + 1][1..] == tables[1..][..k];
      assert Ended(tables[..k + 1], q);
    }
  }

  lemma {:induction false} PagesNeededIsCeiling(matches: nat, limit: nat)
    requires limit >= 1
    ensures var n := PagesNeeded(matches, limit); (n - 1) * limit <= matches && matches <= n * limit
    ensures matches > 0 ==> (PagesNeeded(matches, limit) - 1) * limit < matches
  {
    if matches > limit {
      PagesNeededIsCeiling(matches - limit, limit);
      var n := PagesNeeded(matches - limit, limit);
      assert (n + 1 - 1) * limit == (n - 1) * limit + limit && (n + 1) * limit == n * limit + limit;
    }
  }
}
