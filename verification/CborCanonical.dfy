/** The main results about the canonical encoding: decoding undoes it, it is canonical,
    and no encoding is the beginning of another. */
module CborCanonical {
  import opened Bytes
  import opened Outcome
  import opened KeyedSort
  import opened Cbor
  import opened CborRoundTrip

  /** Decoding an encoding gives the value in canonical map order, with every boolean negated. */
  lemma DecodeOfEncode(v: Value)
    requires Fits(v)
    ensures Decode(Encode(v)) == Ok(Flip(Normalize(v)))
  {
    EncodingReadsBack(v);
    var bs := Encode(v);
    assert At(bs, 0, bs);
  }

  /** The round trip gives the value itself, in canonical order, exactly for values without booleans. */
  lemma RoundTripExactlyWithoutBooleans(v: Value)
    requires Fits(v)
    ensures Decode(Encode(v)) == Ok(Normalize(v)) <==> BoolFree(v)
  {
    DecodeOfEncode(v);
    FlipFixesBoolFree(Normalize(v));
    NormalizeKeeps(v);
  }

  /** Additional information 20 is false in section 3.3 of RFC 8949. The encoder follows
      that, the decoder reads the two the other way round. */
  lemma BooleansAreExchanged(b: bool)
    ensures Encode(Bool(false)) == [7 * 32 + 20] && Encode(Bool(true)) == [7 * 32 + 21]
    ensures Decode(Encode(Bool(b))) == Ok(Bool(!b))
  {
    DecodeOfEncode(Bool(b));
  }

  /** Anything behind an encoded value is noticed. */
  lemma TrailingOctetsRefused(v: Value, rest: bytes)
    requires Fits(v) && rest != []
    ensures Decode(Encode(v) + rest).Err?
  {
    EncodingReadsBack(v);
    var bs := Encode(v) + rest;
    assert bs[0..|Encode(v)|] == Encode(v);
    assert At(bs, 0, Encode(v));
  }

  /** No encoding is a proper beginning of another. */
  lemma PrefixFree(v: Value, w: Value)
    requires Fits(v) && Fits(w) && Encode(v) <= Encode(w)
    ensures Encode(v) == Encode(w)
  {
    DecodeOfEncode(w);
    var rest := Encode(w)[|Encode(v)|..];
    assert Encode(w) == Encode(v) + rest;
    if rest != [] {
      TrailingOctetsRefused(v, rest);
    }
  }

  /** Two values have the same encoding exactly when they differ in map order only. */
  lemma SameEncodingSameValue(v: Value, w: Value)
    requires Fits(v) && Fits(w)
    ensures Encode(v) == Encode(w) <==> Normalize(v) == Normalize(w)
  {
    NormalizeKeeps(v);
    NormalizeKeeps(w);
    if Encode(v) == Encode(w) {
      DecodeOfEncode(v);
      DecodeOfEncode(w);
      FlipTwice(Normalize(v));
      FlipTwice(Normalize(w));
    }
  }

  lemma NormalizeTwice(v: Value)
    requires Fits(v)
    ensures Fits(Normalize(v)) && Normalize(Normalize(v)) == Normalize(v)
  {
    NormalizeKeeps(v);
    SameEncodingSameValue(v, Normalize(v));
  }

  /** The keys of a normalized map come shortest encoding first, equal lengths octet by
      octet (section 4.2.3 of RFC 8949), and its entries are those of the original. */
  lemma NormalizedMapIsSorted(entries: seq<Entry>)
    requires Fits(Map(entries))
    ensures Normalize(Map(entries)).Map?
    ensures var n := Normalize(Map(entries)).entries;
            && Fits(Map(n))
            && Sorted(EncodeEntries(n))
            && multiset(EncodeEntries(n)) == multiset(EncodeEntries(entries))
  {
    NormalizedEntries(entries);
    SortSorted(EncodeEntries(entries));
  }

  /** Listing the entries of a map in another order does not change its encoding. */
  lemma PermutedMapSameEncoding(es: seq<Entry>, fs: seq<Entry>)
    requires Fits(Map(es)) && Fits(Map(fs))
    requires multiset(es) == multiset(fs) && DistinctKeys(EncodeEntries(es))
    ensures Encode(Map(es)) == Encode(Map(fs))
  {
    var ks, ls := EncodeEntries(es), EncodeEntries(fs);
    PermutedEntries(es, fs);
    SortSorted(ks);
    SortSorted(ls);
    DistinctSurvives(ks, Sort(ks));
    SortedUnique(Sort(ks), Sort(ls));
    assert |es| == |multiset(es)| == |multiset(fs)| == |fs|;
  }

  lemma PermutedEntries(es: seq<Entry>, fs: seq<Entry>)
    requires Fits(Map(es)) && Fits(Map(fs)) && multiset(es) == multiset(fs)
    ensures multiset(EncodeEntries(es)) == multiset(EncodeEntries(fs))
  {
    EntriesAreImages(es);
    EntriesAreImages(fs);
    hide Fits, EncodeEntries, ImageOf, ImageBag;
    ImageBagPermuted(ImageOf, es, fs);
    ImageBagOf(ImageOf, es, EncodeEntries(es));
    ImageBagOf(ImageOf, fs, EncodeEntries(fs));
  }

  function ImageOf(e: Entry): Keyed<bytes> { if Fits(e.key) && Fits(e.val) then EncodeEntry(e) else Keyed([], []) }

  lemma EntriesAreImages(es: seq<Entry>)
    requires Fits(Map(es))
    ensures forall e <- es :: Fits(e.key) && Fits(e.val)
    ensures |EncodeEntries(es)| == |es| && forall i :: 0 <= i < |es| ==> EncodeEntries(es)[i] == ImageOf(es[i])
  {
    hide EncodeEntries, EncodeEntry;
  }

  /** The images of the members of `xs`, each as often as it arises. */
  ghost function ImageBag<A, B>(f: A -> B, xs: seq<A>): multiset<B>
  {
    if xs == [] then multiset{} else multiset{f(xs[0])} + ImageBag(f, xs[1..])
  }

  lemma {:induction false} ImageBagOf<A, B>(f: A -> B, xs: seq<A>, us: seq<B>)
    requires |us| == |xs| && forall i :: 0 <= i < |xs| ==> us[i] == f(xs[i])
    ensures multiset(us) == ImageBag(f, xs)
  {
    if xs != [] {
      ImageBagOf(f, xs[1..], us[1..]);
      assert us == [us[0]] + us[1..];
    }
  }

  lemma {:induction false} ImageBagDrop<A, B>(f: A -> B, xs: seq<A>, j: nat)
    requires j < |xs|
    ensures ImageBag(f, xs) == multiset{f(xs[j])} + ImageBag(f, xs[..j] + xs[j + 1..])
  {
    if j == 0 {
      assert xs[..0] + xs[1..] == xs[1..];
    } else {
      ImageBagDrop(f, xs[1..], j - 1);
      var rest := xs[..j] + xs[j + 1..];
      assert rest[1..] == xs[1..][..j - 1] + xs[1..][j..];
    }
  }

  lemma {:induction false} ImageBagPermuted<A, B>(f: A -> B, xs: seq<A>, ys: seq<A>)
    requires multiset(xs) == multiset(ys)
    ensures ImageBag(f, xs) == ImageBag(f, ys)
  {
    assert |xs| == |multiset(xs)| == |multiset(ys)| == |ys|;
    if xs != [] {
      assert xs[0] in multiset(ys);
      var j :| 0 <= j < |ys| && ys[j] == xs[0];
      DropFirst(xs);
      DropAt(ys, j);
      ImageBagPermuted(f, xs[1..], ys[..j] + ys[j + 1..]);
      ImageBagDrop(f, ys, j);
    }
  }

  lemma DropAt<T>(xs: seq<T>, j: nat)
    requires j < |xs|
    ensures multiset(xs[..j] + xs[j + 1..]) == multiset(xs) - multiset{xs[j]}
  {
    assert xs == xs[..j] + [xs[j]] + xs[j + 1..];
  }

  lemma DistinctSurvives<T>(xs: seq<Keyed<T>>, ys: seq<Keyed<T>>)
    requires DistinctKeys(xs) && multiset(xs) == multiset(ys)
    ensures DistinctKeys(ys)
  {
    forall i, j | 0 <= i < j < |ys| ensures ys[i].key != ys[j].key {
      if ys[i].key == ys[j].key {
        assert ys[i] in multiset(ys) && ys[j] in multiset(ys);
        SameKeySameEntry(xs, ys[i], ys[j]);
        TwiceIn(ys, i, j);
        OnceIn(xs, ys[i]);
      }
    }
  }

  lemma TwiceIn<T>(ys: seq<T>, i: nat, j: nat)
    requires i < j < |ys| && ys[i] == ys[j]
    ensures multiset(ys)[ys[i]] >= 2
  {
    assert ys == ys[..i] + [ys[i]] + ys[i + 1..j] + [ys[j]] + ys[j + 1..];
  }

  lemma {:induction false} OnceIn<T>(xs: seq<Keyed<T>>, x: Keyed<T>)
    requires DistinctKeys(xs)
    ensures multiset(xs)[x] <= 1
  {
    if xs != [] {
      DropFirst(xs);
      OnceIn(xs[1..], x);
      assert xs[0] !in xs[1..];
    }
  }

  // ---------------------------------------------------------------- re-encoding what was decoded

  /** DAG-CBOR keys are strings, so they hold no booleans. */
  predicate BoolFreeKeys(v: Value)
    decreases v
  {
    match v
    case Array(items) => forall e <- items :: BoolFreeKeys(e)
    case Map(entries) => forall e <- entries :: BoolFree(e.key) && BoolFreeKeys(e.val)
    case Tag(_, inner) => BoolFreeKeys(inner)
    case _ => true
  }

  lemma {:induction false} FlipThenNormalize(v: Value)
    requires Fits(v) && BoolFreeKeys(v)
    ensures Fits(Flip(v)) && Normalize(Flip(v)) == Flip(Normalize(v))
    decreases v, 1
  {
    FlipFits(v);
    match v
    case Array(items) =>
      forall i | 0 <= i < |items|
        ensures Fits(Flip(items[i])) && Normalize(Flip(items[i])) == Flip(Normalize(items[i]))
      {
        FlipThenNormalize(items[i]);
      }
      assert NormalizeAll(FlipAll(items)) == FlipAll(NormalizeAll(items));
    case Map(entries) => FlipThenNormalizeMap(entries);
    case Tag(_, inner) => FlipThenNormalize(inner);
    case _ =>
  }

  lemma {:induction false} FlipThenNormalizeEntry(e: Entry)
    requires Fits(e.key) && Fits(e.val) && BoolFree(e.key) && BoolFreeKeys(e.val)
    ensures Fits(Flip(e.val)) && Flip(e.key) == e.key
    ensures NormalizeEntry(FlipEntry(e)) == Keyed(NormalizeEntry(e).key, FlipEntry(NormalizeEntry(e).item))
    decreases e, 0
  {
    FlipFixesBoolFree(e.key);
    NormalizeKeeps(e.key);
    FlipFixesBoolFree(Normalize(e.key));
    FlipThenNormalize(e.val);
  }

  lemma {:induction false} FlipThenNormalizeMap(entries: seq<Entry>)
    requires Fits(Map(entries)) && Fits(Flip(Map(entries))) && BoolFreeKeys(Map(entries))
    ensures Normalize(Flip(Map(entries))) == Flip(Normalize(Map(entries)))
    decreases entries, 0
  {
    hide NormalizeEntry, FlipEntry;
    var a, b := NormalizeEntries(entries), NormalizeEntries(FlipEntries(entries));
    forall i | 0 <= i < |entries| ensures a[i].key == b[i].key && b[i].item == FlipEntry(a[i].item) {
      FlipThenNormalizeEntry(entries[i]);
    }
    SortParametric(a, b, (x: Keyed<Entry>, y: Keyed<Entry>) => y.item == FlipEntry(x.item));
    ItemsFlipped(Sort(a), Sort(b));
  }

  lemma ItemsFlipped(xs: seq<Keyed<Entry>>, ys: seq<Keyed<Entry>>)
    requires |xs| == |ys| && forall i :: 0 <= i < |xs| ==> ys[i].item == FlipEntry(xs[i].item)
    ensures Items(ys) == FlipEntries(Items(xs))
  {
    hide FlipEntry;
  }

  lemma {:induction false} NormalizeBoolFreeKeys(v: Value)
    requires Fits(v) && BoolFreeKeys(v)
    ensures BoolFreeKeys(Normalize(v))
    decreases v, 1
  {
    match v
    case Array(items) =>
      forall e | e in NormalizeAll(items) ensures BoolFreeKeys(e) {
        var i :| 0 <= i < |items| && NormalizeAll(items)[i] == e;
        NormalizeBoolFreeKeys(items[i]);
      }
    case Map(entries) =>
      var norm := NormalizeEntries(entries);
      var sorted := Sort(norm);
      forall e: Entry | e in Items(sorted) ensures BoolFree(e.key) && BoolFreeKeys(e.val) {
        var j :| 0 <= j < |sorted| && Items(sorted)[j] == e;
        assert sorted[j] in multiset(norm);
        var i :| 0 <= i < |norm| && norm[i] == sorted[j];
        NormalizeBoolFreeKeysEntry(entries[i]);
      }
    case Tag(_, inner) => NormalizeBoolFreeKeys(inner);
    case _ =>
  }

  lemma {:induction false} NormalizeBoolFreeKeysEntry(e: Entry)
    requires Fits(e.key) && Fits(e.val) && BoolFree(e.key) && BoolFreeKeys(e.val)
    ensures BoolFree(NormalizeEntry(e).item.key) && BoolFreeKeys(NormalizeEntry(e).item.val)
    decreases e, 0
  {
    NormalizeKeeps(e.key);
    NormalizeBoolFreeKeys(e.val);
  }

  /** A value in canonical map order with true and false exchanged: what decoding an encoding gives. */
  function Exchanged(v: Value): (x: Value)
    requires Fits(v)
    ensures Fits(x)
  {
    NormalizeKeeps(v);
    FlipFits(Normalize(v));
    Flip(Normalize(v))
  }

  /** The verifier signs over a re-encoding of what it decoded. That gives back the original octets exactly when
      exchanging true and false everywhere changes nothing but the order of map entries. */
  lemma ReencodingExactly(v: Value)
    requires Fits(v)
    ensures Decode(Encode(v)) == Ok(Exchanged(v))
    ensures Encode(Exchanged(v)) == Encode(v) <==> Normalize(Exchanged(v)) == Normalize(v)
    ensures BoolFree(v) ==> Encode(Exchanged(v)) == Encode(v)
  {
    DecodeOfEncode(v);
    NormalizeKeeps(v);
    SameEncodingSameValue(Exchanged(v), v);
    FlipFixesBoolFree(Normalize(v));
  }

  /** The verifier signs over a re-encoding of what it decoded. With boolean-free keys that
      re-encoding gives back the original octets exactly when the value holds no boolean. */
  lemma ReencodingExactlyWithoutBooleans(v: Value)
    requires Fits(v) && BoolFreeKeys(v)
    ensures Decode(Encode(v)).Ok? && Fits(Decode(Encode(v)).value)
    ensures Encode(Decode(Encode(v)).value) == Encode(v) <==> BoolFree(v)
  {
    DecodeOfEncode(v);
    NormalizeTwice(v);
    NormalizeKeeps(v);
    NormalizeBoolFreeKeys(v);
    var n := Normalize(v);
    FlipThenNormalize(n);
    SameEncodingSameValue(Flip(n), v);
    FlipFixesBoolFree(n);
  }

  /** With booleans for keys a value that holds some can come back unchanged: its two entries trade places. */
  lemma KeysCanTradePlaces()
    ensures var v := Map([Entry(Bool(false), Null), Entry(Bool(true), Null)]);
            && Fits(v) && !BoolFree(v) && Decode(Encode(v)) == Ok(Exchanged(v)) && Encode(Exchanged(v)) == Encode(v)
  {
    var e, f := Entry(Bool(false), Null), Entry(Bool(true), Null);
    TwoInOrder(e, f);
    TwoKeys(f, e);
    FlippedPair(e, f);
    BooleanKey(e, f);
    hide Fits, BoolFree, Encode, Decode, Normalize, Flip, EncodeEntries, DistinctKeys;
    ReencodingExactly(Map([e, f]));
    PermutedMapSameEncoding([f, e], [e, f]);
  }

  lemma FlippedPair(e: Entry, f: Entry)
    requires e == Entry(Bool(false), Null) && f == Entry(Bool(true), Null)
    ensures Flip(Map([e, f])) == Map([f, e])
  {
    assert FlipEntry(e) == f && FlipEntry(f) == e;
    hide FlipEntry;
    assert FlipEntries([e, f]) == [f, e];
  }

  lemma BooleanKey(e: Entry, f: Entry)
    requires e.key.Bool?
    ensures !BoolFree(Map([e, f]))
  {
    assert e in [e, f];
  }

  lemma TwoInOrder(e: Entry, f: Entry)
    requires e == Entry(Bool(false), Null) && f == Entry(Bool(true), Null)
    ensures Fits(Map([e, f])) && Normalize(Map([e, f])) == Map([e, f])
  {
    BooleanEntries(e, f);
    hide Fits, NormalizeEntry, Sort, KeyLess;
    var a, b := NormalizeEntry(e), NormalizeEntry(f);
    SortTwo(a, b);
    assert NormalizeEntries([e, f]) == [a, b];
    assert Items([a, b]) == [e, f];
  }

  lemma BooleanEntries(e: Entry, f: Entry)
    requires e == Entry(Bool(false), Null) && f == Entry(Bool(true), Null)
    ensures Fits(Map([e, f])) && Fits(e.key) && Fits(e.val) && Fits(f.key) && Fits(f.val)
    ensures NormalizeEntry(e) == Keyed([0xf4], e) && NormalizeEntry(f) == Keyed([0xf5], f) && !KeyLess([0xf5], [0xf4])
  {
    assert forall x <- [e, f] :: Fits(x.key) && Fits(x.val);
  }

  lemma SortTwo<T>(a: Keyed<T>, b: Keyed<T>)
    requires !KeyLess(b.key, a.key)
    ensures Sort([a, b]) == [a, b]
  {
    hide KeyLess;
    assert [a, b][1..] == [b] && [b][1..] == [];
    assert Sort([b]) == Insert(b, []) == [b];
    assert Sort([a, b]) == Insert(a, [b]) == [a, b];
  }

  lemma TwoKeys(e: Entry, f: Entry)
    requires e == Entry(Bool(true), Null) && f == Entry(Bool(false), Null)
    ensures Fits(Map([e, f])) && DistinctKeys(EncodeEntries([e, f])) && multiset([e, f]) == multiset([f, e])
  {
    assert forall x <- [e, f] :: Fits(x.key) && Fits(x.val);
    assert EncodeEntry(e).key == [0xf5] && EncodeEntry(f).key == [0xf4];
  }
}
