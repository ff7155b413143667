/** What encoding followed by decoding keeps, for every value. */
module CborRoundTrip {
  import opened Bytes
  import opened Outcome
  import opened KeyedSort
  import opened Cbor

  /** The value with the entries of every map in canonical order. */
  function Normalize(v: Value): (n: Value)
    requires Fits(v)
    decreases v, 1
  {
    match v
    case Array(items) => Array(NormalizeAll(items))
    case Map(entries) => Map(Items(Sort(NormalizeEntries(entries))))
    case Tag(t, inner) => Tag(t, Normalize(inner))
    case _ => v
  }

  function NormalizeAll(items: seq<Value>): (r: seq<Value>)
    requires forall e <- items :: Fits(e)
    ensures |r| == |items|
    ensures forall i :: 0 <= i < |r| ==> r[i] == Normalize(items[i])
    decreases items, 0
  {
    if items == [] then [] else [Normalize(items[0])] + NormalizeAll(items[1..])
  }

  function NormalizeEntry(e: Entry): Keyed<Entry>
    requires Fits(e.key) && Fits(e.val)
    decreases e, 0
  {
    Keyed(Encode(e.key), Entry(Normalize(e.key), Normalize(e.val)))
  }

  function NormalizeEntries(entries: seq<Entry>): (r: seq<Keyed<Entry>>)
    requires forall e <- entries :: Fits(e.key) && Fits(e.val)
    ensures |r| == |entries|
    ensures forall i :: 0 <= i < |r| ==> r[i] == NormalizeEntry(entries[i])
    decreases entries, 0
  {
    if entries == [] then [] else [NormalizeEntry(entries[0])] + NormalizeEntries(entries[1..])
  }

  function Items<T>(xs: seq<Keyed<T>>): (r: seq<T>)
    ensures |r| == |xs| && forall i :: 0 <= i < |r| ==> r[i] == xs[i].item
  {
    seq(|xs|, i requires 0 <= i < |xs| => xs[i].item)
  }

  /** The value with every boolean in it negated. */
  function Flip(v: Value): (f: Value)
    decreases v, 1
  {
    match v
    case Array(items) => Array(FlipAll(items))
    case Map(entries) => Map(FlipEntries(entries))
    case Tag(t, inner) => Tag(t, Flip(inner))
    case Bool(b) => Bool(!b)
    case _ => v
  }

  function FlipAll(items: seq<Value>): (r: seq<Value>)
    ensures |r| == |items| && forall i :: 0 <= i < |r| ==> r[i] == Flip(items[i])
    decreases items, 0
  {
    if items == [] then [] else [Flip(items[0])] + FlipAll(items[1..])
  }

  function FlipEntry(e: Entry): Entry
    decreases e, 0
  {
    Entry(Flip(e.key), Flip(e.val))
  }

  function FlipEntries(entries: seq<Entry>): (r: seq<Entry>)
    ensures |r| == |entries| && forall i :: 0 <= i < |r| ==> r[i] == FlipEntry(entries[i])
    decreases entries, 0
  {
    if entries == [] then [] else [FlipEntry(entries[0])] + FlipEntries(entries[1..])
  }

  predicate BoolFree(v: Value)
    decreases v
  {
    match v
    case Array(items) => forall e <- items :: BoolFree(e)
    case Map(entries) => forall e <- entries :: BoolFree(e.key) && BoolFree(e.val)
    case Tag(_, inner) => BoolFree(inner)
    case Bool(_) => false
    case _ => true
  }

  /** Wherever `bs` stands, the decoder reads `v` from it and stops right behind it. */
  ghost predicate ReadsAs(bs: bytes, v: Value)
  {
    forall p: bytes, i: nat {:trigger At(p, i, bs)} ::
      At(p, i, bs) ==> DecodeItem(p, i) == Ok(Decoded(v, i + |bs|))
  }

  // ---------------------------------------------------------------- heads

  lemma HeadArgument(major: nat, val: nat, p: bytes, i: nat)
    requires major < 8 && val < UINT64_LIMIT
    requires At(p, i, EncodeHead(major, val))
    ensures i < |p| && p[i] / 32 == major && p[i] % 32 < 28
    ensures Argument(p, i + 1, p[i] % 32) == Ok(Decoded(val, i + |EncodeHead(major, val)|))
  {
    var h := EncodeHead(major, val);
    assert p[i] == h[0];
    assert p[i + 1..i + |h|] == h[1..] by {
      assert p[i..i + |h|][1..] == p[i + 1..i + |h|];
    }
    if 24 <= val < 0x100 {
      assert p[i + 1] == h[1];
    } else if 0x100 <= val < 0x1_0000 {
      BigEndianValue(val, 2) by { assert Pow256(2) == 0x1_0000; }
      assert h[1..] == BigEndian(val, 2);
    } else if 0x1_0000 <= val < 0x1_0000_0000 {
      BigEndianValue(val, 4) by { assert Pow256(4) == 0x1_0000_0000; }
      assert h[1..] == BigEndian(val, 4);
    } else if 0x1_0000_0000 <= val {
      BigEndianValue(val, 8) by { Pow256Is64(); }
      assert h[1..] == BigEndian(val, 8);
    }
  }

  lemma Pow256Is64()
    ensures Pow256(8) == UINT64_LIMIT
  {
    assert Pow256(4) == 0x1_0000_0000;
    assert Pow256(8) == 256 * Pow256(7) == 256 * 256 * Pow256(6);
  }

  // ---------------------------------------------------------------- decode after encode

  ghost predicate EntryReadsAs(kv: Keyed<bytes>, e: Entry)
  {
    ReadsAs(kv.key, e.key) && ReadsAs(kv.item, e.val)
  }

  lemma {:induction false} ItemsReadBack(bss: seq<bytes>, items: seq<Value>, p: bytes, i: nat)
    requires |bss| == |items| && forall k :: 0 <= k < |items| ==> ReadsAs(bss[k], items[k])
    requires At(p, i, Join(bss))
    ensures DecodeItems(p, i, |items|) == Ok(Decoded(items, i + |Join(bss)|))
  {
    if items != [] {
      AtConcat(p, i, bss[0], Join(bss[1..]));
      ItemsReadBack(bss[1..], items[1..], p, i + |bss[0]|);
      assert items == [items[0]] + items[1..];
    }
  }

  function Join(bss: seq<bytes>): bytes
  {
    if bss == [] then [] else bss[0] + Join(bss[1..])
  }

  lemma {:induction false} EncodeAllJoins(items: seq<Value>)
    requires forall e <- items :: Fits(e)
    ensures EncodeAll(items) == Join(seq(|items|, i requires 0 <= i < |items| => Encode(items[i])))
  {
    if items != [] {
      EncodeAllJoins(items[1..]);
      var bss := seq(|items|, i requires 0 <= i < |items| => Encode(items[i]));
      assert bss[1..] == seq(|items[1..]|, i requires 0 <= i < |items[1..]| => Encode(items[1..][i]));
    }
  }

  lemma EntryStep(e: Entry, p: bytes, i: nat, j: nat, k: nat, rest: seq<Entry>, next: nat)
    requires i <= j <= k <= |p|
    requires DecodeItem(p, i) == Ok(Decoded(e.key, j))
    requires DecodeItem(p, j) == Ok(Decoded(e.val, k))
    requires DecodeEntries(p, k, |rest|) == Ok(Decoded(rest, next))
    ensures DecodeEntries(p, i, 1 + |rest|) == Ok(Decoded([e] + rest, next))
  {
    hide DecodeItem;
    assert 1 + |rest| != 0;
    assert (1 + |rest|) - 1 == |rest|;
    assert Entry(e.key, e.val) == e;
  }

  lemma EntryAt(kvs: seq<Keyed<bytes>>, e: Entry, p: bytes, i: nat, j: nat, k: nat)
    requires kvs != [] && EntryReadsAs(kvs[0], e) && At(p, i, Flatten(kvs))
    requires j == i + |kvs[0].key| && k == j + |kvs[0].item|
    ensures At(p, k, Flatten(kvs[1..])) && k <= |p|
    ensures DecodeItem(p, i) == Ok(Decoded(e.key, j)) && DecodeItem(p, j) == Ok(Decoded(e.val, k))
  {
    hide DecodeItem;
    AtConcat(p, i, kvs[0].key + kvs[0].item, Flatten(kvs[1..]));
    AtConcat(p, i, kvs[0].key, kvs[0].item);
  }

  lemma {:induction false} EntriesReadBack(kvs: seq<Keyed<bytes>>, entries: seq<Entry>, p: bytes, i: nat)
    requires |kvs| == |entries| && forall k :: 0 <= k < |entries| ==> EntryReadsAs(kvs[k], entries[k])
    requires At(p, i, Flatten(kvs))
    ensures DecodeEntries(p, i, |entries|) == Ok(Decoded(entries, i + |Flatten(kvs)|))
  {
    hide DecodeItem, EntryReadsAs;
    if entries != [] {
      var j := i + |kvs[0].key|;
      var k := j + |kvs[0].item|;
      EntryAt(kvs, entries[0], p, i, j, k);
      EntriesReadBack(kvs[1..], entries[1..], p, k);
      EntryStep(entries[0], p, i, j, k, entries[1..], k + |Flatten(kvs[1..])|);
      assert entries == [entries[0]] + entries[1..];
    }
  }

  lemma {:induction false} FlattenLength(kvs: seq<Keyed<bytes>>)
    requires forall kv <- kvs :: |kv.key| >= 1
    ensures |Flatten(kvs)| >= |kvs|
  {
    if kvs != [] {
      FlattenLength(kvs[1..]);
    }
  }

  /** The decoder reads back exactly what the encoder wrote, up to map order and the
      exchanged booleans. */
  lemma {:induction false} EncodingReadsBack(v: Value)
    requires Fits(v)
    ensures ReadsAs(Encode(v), Flip(Normalize(v)))
    decreases v, 1
  {
    hide DecodeItem, EncodeHead, At;
    match v
    case Array(items) => ArrayReadsBack(items);
    case Map(entries) => MapReadsBack(entries);
    case Tag(t, inner) =>
      EncodingReadsBack(inner);
      var back := Flip(Normalize(inner));
      assert Flip(Normalize(v)) == Tag(t, back) && Encode(v) == EncodeHead(6, t) + Encode(inner);
      forall p: bytes, i: nat | At(p, i, Encode(v))
        ensures DecodeItem(p, i) == Ok(Decoded(Tag(t, back), i + |Encode(v)|))
      {
        TagReadsBack(t, inner, back, p, i);
      }
    case _ => ScalarReadsAs(v);
  }

  lemma ScalarReadsAs(v: Value)
    requires Fits(v) && !v.Array? && !v.Map? && !v.Tag?
    ensures ReadsAs(Encode(v), Flip(Normalize(v)))
  {
    assert Normalize(v) == v;
    forall p: bytes, i: nat | At(p, i, Encode(v))
      ensures DecodeItem(p, i) == Ok(Decoded(Flip(v), i + |Encode(v)|))
    {
      ScalarReadsBack(v, p, i);
    }
  }

  lemma DecodeByMajor(p: bytes, i: nat)
    requires i < |p|
    ensures var major, ai := p[i] / 32, p[i] % 32;
            && (major <= 1 ==> DecodeItem(p, i) == DecodeInteger(p, i + 1, ai, major == 1))
            && (2 <= major <= 3 ==> DecodeItem(p, i) == DecodeString(p, i + 1, ai, major == 3))
            && (major == 4 ==> DecodeItem(p, i) == DecodeArray(p, i + 1, ai))
            && (major == 5 ==> DecodeItem(p, i) == DecodeMap(p, i + 1, ai))
            && (major == 6 ==> DecodeItem(p, i) == DecodeTag(p, i + 1, ai))
            && (major == 7 ==> DecodeItem(p, i) == DecodeSimple(i + 1, ai))
  {
    hide DecodeInteger, DecodeString, DecodeArray, DecodeMap, DecodeTag, DecodeSimple;
  }

  lemma TagReadsBack(t: nat, inner: Value, back: Value, p: bytes, i: nat)
    requires t < UINT64_LIMIT && Fits(inner) && ReadsAs(Encode(inner), back)
    requires At(p, i, EncodeHead(6, t) + Encode(inner))
    ensures DecodeItem(p, i) == Ok(Decoded(Tag(t, back), i + |EncodeHead(6, t)| + |Encode(inner)|))
  {
    hide DecodeItem, EncodeHead, Argument, At, Encode;
    AtConcat(p, i, EncodeHead(6, t), Encode(inner));
    HeadArgument(6, t, p, i);
    DecodeByMajor(p, i);
  }

  lemma ScalarReadsBack(v: Value, p: bytes, i: nat)
    requires Fits(v) && !v.Array? && !v.Map? && !v.Tag?
    requires At(p, i, Encode(v))
    ensures DecodeItem(p, i) == Ok(Decoded(Flip(v), i + |Encode(v)|))
  {
    hide DecodeItem, At;
    match v
    case Int(n) => IntReadsBack(n, p, i);
    case Octets(d) => StringReadsBack(d, false, p, i);
    case Text(d) => StringReadsBack(d, true, p, i);
    case _ => SimpleReadsBack(v, p, i);
  }

  lemma SimpleReadsBack(v: Value, p: bytes, i: nat)
    requires v.Null? || v.Bool?
    requires At(p, i, Encode(v))
    ensures DecodeItem(p, i) == Ok(Decoded(Flip(v), i + 1))
  {
    hide DecodeItem;
    assert p[i..i + 1][0] == p[i] == Encode(v)[0];
    assert p[i] / 32 == 7;
    DecodeByMajor(p, i);
  }

  lemma IntReadsBack(n: int, p: bytes, i: nat)
    requires Fits(Int(n)) && At(p, i, Encode(Int(n)))
    ensures DecodeItem(p, i) == Ok(Decoded(Int(n), i + |Encode(Int(n))|))
  {
    hide DecodeItem, EncodeHead, Argument, At;
    if n >= 0 {
      HeadArgument(0, n, p, i);
    } else {
      HeadArgument(1, -1 - n, p, i);
    }
    DecodeByMajor(p, i);
  }

  lemma StringReadsBack(d: bytes, text: bool, p: bytes, i: nat)
    requires |d| < UINT64_LIMIT
    requires At(p, i, EncodeHead(if text then 3 else 2, |d|) + d)
    ensures DecodeItem(p, i) ==
            Ok(Decoded(if text then Text(d) else Octets(d), i + |EncodeHead(if text then 3 else 2, |d|)| + |d|))
  {
    hide DecodeItem, EncodeHead, Argument;
    var major := if text then 3 else 2;
    AtConcat(p, i, EncodeHead(major, |d|), d);
    HeadArgument(major, |d|, p, i);
    DecodeByMajor(p, i);
  }

  lemma ArrayReadsBackAt(bss: seq<bytes>, back: seq<Value>, p: bytes, i: nat)
    requires |bss| == |back| < UINT64_LIMIT && |Join(bss)| >= |bss|
    requires forall k :: 0 <= k < |back| ==> ReadsAs(bss[k], back[k])
    requires At(p, i, EncodeHead(4, |bss|) + Join(bss))
    ensures DecodeItem(p, i) == Ok(Decoded(Array(back), i + |EncodeHead(4, |bss|)| + |Join(bss)|))
  {
    hide DecodeItem, DecodeItems, EncodeHead, Argument, At;
    AtConcat(p, i, EncodeHead(4, |bss|), Join(bss));
    HeadArgument(4, |bss|, p, i);
    ItemsReadBack(bss, back, p, i + |EncodeHead(4, |bss|)|);
    DecodeByMajor(p, i);
  }

  lemma MapReadsBackAt(kvs: seq<Keyed<bytes>>, back: seq<Entry>, p: bytes, i: nat)
    requires |kvs| == |back| < UINT64_LIMIT && |Flatten(kvs)| >= |kvs|
    requires forall k :: 0 <= k < |back| ==> EntryReadsAs(kvs[k], back[k])
    requires At(p, i, EncodeHead(5, |kvs|) + Flatten(kvs))
    ensures DecodeItem(p, i) == Ok(Decoded(Map(back), i + |EncodeHead(5, |kvs|)| + |Flatten(kvs)|))
  {
    hide DecodeItem, DecodeEntries, EncodeHead, Argument, At, Flatten, EntryReadsAs;
    AtConcat(p, i, EncodeHead(5, |kvs|), Flatten(kvs));
    HeadArgument(5, |kvs|, p, i);
    EntriesReadBack(kvs, back, p, i + |EncodeHead(5, |kvs|)|);
    DecodeByMajor(p, i);
  }

  lemma {:induction false} ArrayReadsBack(items: seq<Value>)
    requires Fits(Array(items))
    ensures ReadsAs(Encode(Array(items)), Flip(Normalize(Array(items))))
    decreases items, 0
  {
    hide DecodeItem, EncodeHead, At;
    var v := Array(items);
    var bss := seq(|items|, i requires 0 <= i < |items| => Encode(items[i]));
    var back := FlipAll(NormalizeAll(items));
    forall k | 0 <= k < |items| ensures ReadsAs(bss[k], back[k]) {
      EncodingReadsBack(items[k]);
    }
    EncodeAllJoins(items);
    forall p: bytes, i: nat | At(p, i, Encode(v))
      ensures DecodeItem(p, i) == Ok(Decoded(Flip(Normalize(v)), i + |Encode(v)|))
    {
      ArrayReadsBackAt(bss, back, p, i);
    }
  }

  lemma {:induction false} EntryReadsBack(e: Entry)
    requires Fits(e.key) && Fits(e.val)
    ensures EntryReadsAs(EncodeEntry(e), FlipEntry(NormalizeEntry(e).item))
    decreases e, 0
  {
    EncodingReadsBack(e.key);
    EncodingReadsBack(e.val);
  }

  lemma {:induction false} MapReadsBack(entries: seq<Entry>)
    requires Fits(Map(entries))
    ensures ReadsAs(Encode(Map(entries)), Flip(Normalize(Map(entries))))
    decreases entries, 0
  {
    hide DecodeItem, EncodeHead, At;
    var v := Map(entries);
    var kvs, norm := EncodeEntries(entries), NormalizeEntries(entries);
    var rel := (kv: Keyed<bytes>, ne: Keyed<Entry>) => |kv.key| >= 1 && EntryReadsAs(kv, FlipEntry(ne.item));
    forall k | 0 <= k < |entries| ensures kvs[k].key == norm[k].key && rel(kvs[k], norm[k]) {
      EntryReadsBack(entries[k]);
    }
    SortParametric(kvs, norm, rel);
    var back := FlipEntries(Items(Sort(norm)));
    FlattenLength(Sort(kvs));
    MapReadsAs(Sort(kvs), back);
    assert Encode(v) == EncodeHead(5, |entries|) + Flatten(Sort(kvs));
    assert Flip(Normalize(v)) == Map(back);
  }

  lemma MapReadsAs(kvs: seq<Keyed<bytes>>, back: seq<Entry>)
    requires |kvs| == |back| < UINT64_LIMIT && |Flatten(kvs)| >= |kvs|
    requires forall k :: 0 <= k < |back| ==> EntryReadsAs(kvs[k], back[k])
    ensures ReadsAs(EncodeHead(5, |kvs|) + Flatten(kvs), Map(back))
  {
    forall p: bytes, i: nat | At(p, i, EncodeHead(5, |kvs|) + Flatten(kvs))
      ensures DecodeItem(p, i) == Ok(Decoded(Map(back), i + |EncodeHead(5, |kvs|) + Flatten(kvs)|))
    {
      MapReadsBackAt(kvs, back, p, i);
    }
  }

  // ---------------------------------------------------------------- what normalization keeps

  lemma {:induction false} FlipFits(v: Value)
    requires Fits(v)
    ensures Fits(Flip(v))
    decreases v, 1
  {
    match v
    case Array(items) =>
      forall e | e in items ensures Fits(Flip(e)) { FlipFits(e); }
    case Map(entries) =>
      forall e | e in entries ensures Fits(FlipEntry(e).key) && Fits(FlipEntry(e).val) { FlipEntryFits(e); }
    case Tag(_, inner) => FlipFits(inner);
    case _ =>
  }

  lemma {:induction false} FlipEntryFits(e: Entry)
    requires Fits(e.key) && Fits(e.val)
    ensures Fits(FlipEntry(e).key) && Fits(FlipEntry(e).val)
    decreases e, 0
  {
    FlipFits(e.key);
    FlipFits(e.val);
  }

  lemma {:induction false} FlipTwice(v: Value)
    ensures Flip(Flip(v)) == v
    decreases v, 1
  {
    match v
    case Array(items) =>
      forall i | 0 <= i < |items| ensures Flip(Flip(items[i])) == items[i] { FlipTwice(items[i]); }
      assert FlipAll(FlipAll(items)) == items;
    case Map(entries) =>
      forall i | 0 <= i < |entries| ensures FlipEntry(FlipEntry(entries[i])) == entries[i] {
        FlipEntryTwice(entries[i]);
      }
      assert FlipEntries(FlipEntries(entries)) == entries;
    case Tag(_, inner) => FlipTwice(inner);
    case _ =>
  }

  lemma {:induction false} FlipEntryTwice(e: Entry)
    ensures FlipEntry(FlipEntry(e)) == e
    decreases e, 0
  {
    FlipTwice(e.key);
    FlipTwice(e.val);
  }

  /** Negating every boolean changes a value exactly when it holds one. */
  lemma {:induction false} FlipFixesBoolFree(v: Value)
    ensures Flip(v) == v <==> BoolFree(v)
    decreases v, 1
  {
    match v
    case Array(items) =>
      forall i | 0 <= i < |items| ensures Flip(items[i]) == items[i] <==> BoolFree(items[i]) {
        FlipFixesBoolFree(items[i]);
      }
      assert FlipAll(items) == items <==> forall i :: 0 <= i < |items| ==> Flip(items[i]) == items[i];
    case Map(entries) =>
      forall i | 0 <= i < |entries|
        ensures FlipEntry(entries[i]) == entries[i] <==> BoolFree(entries[i].key) && BoolFree(entries[i].val)
      {
        FlipFixesEntry(entries[i]);
      }
      assert FlipEntries(entries) == entries <==> forall i :: 0 <= i < |entries| ==> FlipEntry(entries[i]) == entries[i];
    case Tag(_, inner) => FlipFixesBoolFree(inner);
    case _ =>
  }

  lemma {:induction false} FlipFixesEntry(e: Entry)
    ensures FlipEntry(e) == e <==> BoolFree(e.key) && BoolFree(e.val)
    decreases e, 0
  {
    FlipFixesBoolFree(e.key);
    FlipFixesBoolFree(e.val);
  }

  /** Normalizing keeps the program's size limits, the encoding, and which booleans occur. */
  lemma {:induction false} NormalizeKeeps(v: Value)
    requires Fits(v)
    ensures Fits(Normalize(v)) && Encode(Normalize(v)) == Encode(v)
    ensures BoolFree(Normalize(v)) <==> BoolFree(v)
    decreases v, 1
  {
    match v
    case Array(items) =>
      var norm := NormalizeAll(items);
      forall i | 0 <= i < |items|
        ensures Fits(norm[i]) && Encode(norm[i]) == Encode(items[i]) && (BoolFree(norm[i]) <==> BoolFree(items[i]))
      {
        NormalizeKeeps(items[i]);
      }
      SameEncodings(norm, items);
      SameBoolFree(norm, items);
    case Map(entries) => NormalizeKeepsMap(entries);
    case Tag(_, inner) => NormalizeKeeps(inner);
    case _ =>
  }

  lemma {:induction false} SameBoolFree(xs: seq<Value>, ys: seq<Value>)
    requires |xs| == |ys| && forall i :: 0 <= i < |xs| ==> (BoolFree(xs[i]) <==> BoolFree(ys[i]))
    ensures BoolFree(Array(xs)) <==> BoolFree(Array(ys))
  {
    if BoolFree(Array(xs)) {
      forall e | e in ys ensures BoolFree(e) {
        var i :| 0 <= i < |ys| && ys[i] == e;
        assert xs[i] in xs;
      }
    }
    if BoolFree(Array(ys)) {
      forall e | e in xs ensures BoolFree(e) {
        var i :| 0 <= i < |xs| && xs[i] == e;
        assert ys[i] in ys;
      }
    }
  }

  lemma {:induction false} SameEncodings(xs: seq<Value>, ys: seq<Value>)
    requires |xs| == |ys|
    requires forall i :: 0 <= i < |xs| ==> Fits(xs[i]) && Fits(ys[i]) && Encode(xs[i]) == Encode(ys[i])
    ensures EncodeAll(xs) == EncodeAll(ys)
  {
    if xs != [] {
      SameEncodings(xs[1..], ys[1..]);
    }
  }

  /** What normalizing one entry keeps, as a relation between its two keyed forms. */
  ghost predicate EntryKept(kv: Keyed<bytes>, ne: Keyed<Entry>)
  {
    Fits(ne.item.key) && Fits(ne.item.val) && EncodeEntry(ne.item) == kv
  }

  lemma {:induction false} EntryKeeps(e: Entry)
    requires Fits(e.key) && Fits(e.val)
    ensures EntryKept(EncodeEntry(e), NormalizeEntry(e))
    ensures EntryBoolFree(NormalizeEntry(e).item) <==> EntryBoolFree(e)
    decreases e, 0
  {
    NormalizeKeeps(e.key);
    NormalizeKeeps(e.val);
  }

  predicate EntryBoolFree(e: Entry) { BoolFree(e.key) && BoolFree(e.val) }

  /** Encoding the normalized entries gives the sorted encoded entries. */
  lemma {:induction false} NormalizedEntries(entries: seq<Entry>)
    requires Fits(Map(entries))
    ensures var back := Items(Sort(NormalizeEntries(entries)));
            && Fits(Map(back))
            && EncodeEntries(back) == Sort(EncodeEntries(entries))
            && |back| == |entries|
    decreases entries, 0
  {
    var kvs, norm := EncodeEntries(entries), NormalizeEntries(entries);
    forall i | 0 <= i < |entries| ensures kvs[i].key == norm[i].key && EntryKept(kvs[i], norm[i]) {
      EntryKeeps(entries[i]);
    }
    SortParametric(kvs, norm, (kv, ne) => EntryKept(kv, ne));
    var sorted := Sort(norm);
    var back := Items(sorted);
    forall i | 0 <= i < |back| ensures Fits(back[i].key) && Fits(back[i].val) && EncodeEntry(back[i]) == Sort(kvs)[i] {
      assert EntryKept(Sort(kvs)[i], sorted[i]);
    }
  }

  lemma {:induction false} NormalizeKeepsMap(entries: seq<Entry>)
    requires Fits(Map(entries))
    ensures Fits(Normalize(Map(entries))) && Encode(Normalize(Map(entries))) == Encode(Map(entries))
    ensures BoolFree(Normalize(Map(entries))) <==> BoolFree(Map(entries))
    decreases entries, 1
  {
    NormalizedEntries(entries);
    SortSorted(EncodeEntries(entries));
    SortIdempotent(Sort(EncodeEntries(entries)));
    forall i | 0 <= i < |entries|
      ensures EntryBoolFree(NormalizeEntries(entries)[i].item) <==> EntryBoolFree(entries[i])
    {
      EntryKeeps(entries[i]);
    }
    SortedBoolFree(NormalizeEntries(entries), entries);
  }

  lemma {:induction false} SortedBoolFree(norm: seq<Keyed<Entry>>, entries: seq<Entry>)
    requires |norm| == |entries|
    requires forall i :: 0 <= i < |norm| ==> (EntryBoolFree(norm[i].item) <==> EntryBoolFree(entries[i]))
    ensures BoolFree(Map(Items(Sort(norm)))) <==> BoolFree(Map(entries))
  {
    hide Sort;
    var sorted := Sort(norm);
    assert BoolFree(Map(Items(sorted))) <==> forall x <- sorted :: EntryBoolFree(x.item) by {
      ItemsBoolFree(sorted);
    }
    assert (forall x <- sorted :: EntryBoolFree(x.item)) <==> forall x <- norm :: EntryBoolFree(x.item) by {
      forall x ensures x in norm <==> x in sorted { SortMember(norm, x); }
    }
    assert (forall x <- norm :: EntryBoolFree(x.item)) <==> forall i :: 0 <= i < |entries| ==> EntryBoolFree(entries[i]);
    assert BoolFree(Map(entries)) <==> forall i :: 0 <= i < |entries| ==> EntryBoolFree(entries[i]);
  }

  lemma {:induction false} ItemsBoolFree(xs: seq<Keyed<Entry>>)
    ensures BoolFree(Map(Items(xs))) <==> forall x <- xs :: EntryBoolFree(x.item)
  {
    var es := Items(xs);
    assert forall i :: 0 <= i < |xs| ==> es[i] == xs[i].item;
    if BoolFree(Map(es)) {
      forall x | x in xs ensures EntryBoolFree(x.item) {
        var i :| 0 <= i < |xs| && xs[i] == x;
        assert es[i] in es;
      }
    }
  }
}
