/** Sorting encoded map keys: shorter keys first, equal lengths octet by octet. */
module KeyedSort {
  import opened Bytes

  datatype Keyed<+T> = Keyed(key: bytes, item: T)

  predicate LexLess(a: bytes, b: bytes)
  {
    b != [] && (a == [] || a[0] < b[0] || (a[0] == b[0] && LexLess(a[1..], b[1..])))
  }

  predicate KeyLess(a: bytes, b: bytes)
  {
    if |a| != |b| then |a| < |b| else LexLess(a, b)
  }

  function Insert<T>(x: Keyed<T>, xs: seq<Keyed<T>>): (r: seq<Keyed<T>>)
    ensures multiset(r) == multiset(xs) + multiset{x}
    ensures |r| == |xs| + 1
  {
    if xs == [] || !KeyLess(xs[0].key, x.key) then
      [x] + xs
    else
      assert xs == [xs[0]] + xs[1..];
      [xs[0]] + Insert(x, xs[1..])
  }

  function Sort<T>(xs: seq<Keyed<T>>): (r: seq<Keyed<T>>)
    ensures multiset(r) == multiset(xs)
    ensures |r| == |xs|
  {
    if xs == [] then []
    else
      assert xs == [xs[0]] + xs[1..];
      Insert(xs[0], Sort(xs[1..]))
  }

  /** No entry is followed by one with a smaller key. */
  ghost predicate Sorted<T>(xs: seq<Keyed<T>>)
  {
    forall i, j :: 0 <= i < j < |xs| ==> !KeyLess(xs[j].key, xs[i].key)
  }

  ghost predicate DistinctKeys<T>(xs: seq<Keyed<T>>)
  {
    forall i, j :: 0 <= i < j < |xs| ==> xs[i].key != xs[j].key
  }

  lemma {:induction false} LexTotal(a: bytes, b: bytes)
    ensures LexLess(a, b) || LexLess(b, a) || a == b
    ensures !(LexLess(a, b) && LexLess(b, a))
    ensures !LexLess(a, a)
  {
    if a != [] {
      LexTotal(a[1..], a[1..]);
    }
    if a != [] && b != [] {
      LexTotal(a[1..], b[1..]);
      assert a == [a[0]] + a[1..] && b == [b[0]] + b[1..];
    }
  }

  lemma {:induction false} LexTransitive(a: bytes, b: bytes, c: bytes)
    requires LexLess(a, b) && LexLess(b, c)
    ensures LexLess(a, c)
  {
    if a != [] && a[0] == b[0] == c[0] {
      LexTransitive(a[1..], b[1..], c[1..]);
    }
  }

  lemma KeyOrder(a: bytes, b: bytes, c: bytes)
    ensures KeyLess(a, b) || KeyLess(b, a) || a == b
    ensures !(KeyLess(a, b) && KeyLess(b, a)) && !KeyLess(a, a)
    ensures KeyLess(a, b) && KeyLess(b, c) ==> KeyLess(a, c)
    ensures !KeyLess(b, a) && !KeyLess(c, b) ==> !KeyLess(c, a)
  {
    LexTotal(a, b);
    LexTotal(b, c);
    LexTotal(a, c);
    if KeyLess(a, b) && KeyLess(b, c) && |a| == |b| == |c| {
      LexTransitive(a, b, c);
    }
    if !KeyLess(b, a) && !KeyLess(c, b) && |a| == |b| == |c| && a != b && b != c {
      LexTransitive(a, b, c);
    }
  }

  lemma {:induction false} InsertSorted<T>(x: Keyed<T>, xs: seq<Keyed<T>>)
    requires Sorted(xs)
    ensures Sorted(Insert(x, xs))
  {
    var r := Insert(x, xs);
    if xs == [] {
    } else if !KeyLess(xs[0].key, x.key) {
      forall i, j | 0 <= i < j < |r| ensures !KeyLess(r[j].key, r[i].key) {
        if i == 0 && j > 1 {
          KeyOrder(x.key, xs[0].key, xs[j - 1].key);
        }
      }
    } else {
      InsertSorted(x, xs[1..]);
      var rest := Insert(x, xs[1..]);
      forall j | 1 <= j < |r| ensures !KeyLess(r[j].key, r[0].key) {
        assert r[j] in multiset(rest);
        if r[j] == x {
          KeyOrder(xs[0].key, x.key, x.key);
        } else {
          assert r[j] in multiset(xs[1..]);
          var k :| 0 <= k < |xs[1..]| && xs[1..][k] == r[j];
          assert xs[k + 1] == r[j];
        }
      }
    }
  }

  /** Sort puts keys in length-first order. */
  lemma {:induction false} SortSorted<T>(xs: seq<Keyed<T>>)
    ensures Sorted(Sort(xs))
  {
    if xs != [] {
      SortSorted(xs[1..]);
      InsertSorted(xs[0], Sort(xs[1..]));
    }
  }

  /** A list already in order is left alone. */
  lemma {:induction false} SortIdempotent<T>(xs: seq<Keyed<T>>)
    requires Sorted(xs)
    ensures Sort(xs) == xs
  {
    if xs != [] {
      SortIdempotent(xs[1..]);
      assert xs == [xs[0]] + xs[1..];
    }
  }

  /** The first entry of a list in order has a smallest key. */
  lemma SortedHead<T>(xs: seq<Keyed<T>>, e: Keyed<T>)
    requires Sorted(xs) && e in multiset(xs)
    ensures |xs| > 0 && !KeyLess(e.key, xs[0].key)
  {
    var i :| 0 <= i < |xs| && xs[i] == e;
    KeyOrder(xs[0].key, xs[0].key, xs[0].key);
  }

  lemma SameKeySameEntry<T>(xs: seq<Keyed<T>>, a: Keyed<T>, b: Keyed<T>)
    requires DistinctKeys(xs) && a in multiset(xs) && b in multiset(xs) && a.key == b.key
    ensures a == b
  {
    var i :| 0 <= i < |xs| && xs[i] == a;
    var j :| 0 <= j < |xs| && xs[j] == b;
  }

  lemma DropFirst<T>(xs: seq<T>)
    requires xs != []
    ensures multiset(xs[1..]) == multiset(xs) - multiset{xs[0]}
  {
    assert xs == [xs[0]] + xs[1..];
  }

  /** With distinct keys only one arrangement is in order, so any correct sort finds it. */
  lemma {:induction false} SortedUnique<T>(xs: seq<Keyed<T>>, ys: seq<Keyed<T>>)
    requires Sorted(xs) && Sorted(ys) && multiset(xs) == multiset(ys)
    requires DistinctKeys(xs)
    ensures xs == ys
  {
    assert |xs| == |multiset(xs)| == |multiset(ys)| == |ys|;
    if xs != [] {
      SortedHead(xs, ys[0]);
      SortedHead(ys, xs[0]);
      KeyOrder(xs[0].key, ys[0].key, ys[0].key);
      SameKeySameEntry(xs, xs[0], ys[0]);
      DropFirst(xs);
      DropFirst(ys);
      SortedUnique(xs[1..], ys[1..]);
      assert xs == [xs[0]] + xs[1..] && ys == [ys[0]] + ys[1..];
    }
  }

  /** Two lists that carry the same keys are rearranged alike, so a relation between
      their entries survives sorting. */
  lemma {:induction false} SortParametric<A, B>(xs: seq<Keyed<A>>, ys: seq<Keyed<B>>, rel: (Keyed<A>, Keyed<B>) -> bool)
    requires |xs| == |ys|
    requires forall i :: 0 <= i < |xs| ==> xs[i].key == ys[i].key && rel(xs[i], ys[i])
    ensures forall i :: 0 <= i < |xs| ==> Sort(xs)[i].key == Sort(ys)[i].key && rel(Sort(xs)[i], Sort(ys)[i])
  {
    if xs != [] {
      SortParametric(xs[1..], ys[1..], rel);
      InsertParametric(xs[0], ys[0], Sort(xs[1..]), Sort(ys[1..]), rel);
    }
  }

  lemma {:induction false} InsertParametric<A, B>(x: Keyed<A>, y: Keyed<B>, xs: seq<Keyed<A>>, ys: seq<Keyed<B>>,
                                                  rel: (Keyed<A>, Keyed<B>) -> bool)
    requires x.key == y.key && rel(x, y) && |xs| == |ys|
    requires forall i :: 0 <= i < |xs| ==> xs[i].key == ys[i].key && rel(xs[i], ys[i])
    ensures forall i :: 0 <= i <= |xs| ==>
              Insert(x, xs)[i].key == Insert(y, ys)[i].key && rel(Insert(x, xs)[i], Insert(y, ys)[i])
  {
    hide LexLess;
    if xs != [] && KeyLess(xs[0].key, x.key) {
      InsertParametric(x, y, xs[1..], ys[1..], rel);
    }
  }

  /** Sorting neither loses nor invents entries. */
  lemma SortMember<T>(xs: seq<Keyed<T>>, x: Keyed<T>)
    ensures x in xs <==> x in Sort(xs)
  {
    assert x in xs <==> x in multiset(xs);
    assert x in Sort(xs) <==> x in multiset(Sort(xs));
  }
}
