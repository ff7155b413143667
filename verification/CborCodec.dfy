/** The decoder with its cursor and the encoder with its output buffer. */
module CborCodec {
  import opened Bytes
  import opened Outcome
  import opened KeyedSort
  import opened Cbor
  import CborCanonical
  import CborRoundTrip

  // ---------------------------------------------------------------- decoder

  class Decoder {
    const p: Buffer
    var i: nat
    var err: string

    constructor (p: Buffer)
      ensures this.p == p && i == 0 && err == ""
    {
      this.p := p;
      i := 0;
      err := "";
    }

    /** The method ended as the functional decoder does on the same input. */
    ghost predicate Agrees<T>(r: Result<Decoded<T>, string>, ok: bool, out: T)
      reads this
    {
      match r
      case Ok(d) => ok && out == d.value && i == d.next && err == ""
      case Err(e) => !ok && err == e
    }

    method Fail(msg: string) returns (ok: bool)
      modifies this`err
      ensures !ok && err == if old(err) == "" then msg else old(err)
    {
      if err == "" {
        err := msg;
      }
      ok := false;
    }

    method NextByte() returns (ok: bool, out: byte)
      requires i <= |p| && err == ""
      modifies this
      ensures Agrees(DecodeByte(p, old(i)), ok, out) && i <= |p|
    {
      out := 0;
      if i >= |p| {
        ok := Fail(END_OF_DATA);
        return;
      }
      out := p[i];
      i := i + 1;
      ok := true;
    }

    method ReadBe(width: nat) returns (ok: bool, out: nat)
      requires i <= |p| && err == ""
      modifies this
      ensures Agrees(ReadBigEndian(p, old(i), width), ok, out) && i <= |p|
    {
      out := 0;
      if i + width > |p| {
        ok := Fail(END_OF_DATA);
        return;
      }
      var v: nat := 0;
      for k := 0 to width
        invariant i == old(i) + k && i + (width - k) <= |p| && err == ""
        invariant v == BeValue(p[old(i)..i])
      {
        assert p[old(i)..i + 1][..k] == p[old(i)..i];
        v := v * 256 + p[i];
        i := i + 1;
      }
      out := v;
      ok := true;
    }

    method Aux(ai: nat) returns (ok: bool, out: nat)
      requires i <= |p| && err == "" && ai < 32
      modifies this
      ensures Agrees(Argument(p, old(i), ai), ok, out) && i <= |p|
    {
      if ai < 24 {
        return true, ai;
      }
      match ai
      case 24 =>
        var b;
        ok, b := NextByte();
        out := b;
      case 25 => ok, out := ReadBe(2);
      case 26 => ok, out := ReadBe(4);
      case 27 => ok, out := ReadBe(8);
      case _ =>
        out := 0;
        ok := Fail("reserved additional info");
    }

    method Item() returns (ok: bool, v: Value)
      requires i <= |p| && err == ""
      modifies this
      ensures Agrees(DecodeItem(p, old(i)), ok, v)
      ensures i <= |p|
      decreases |p| - i, 0
    {
      v := Null;
      var b: byte;
      ok, b := NextByte();
      if !ok { return; }
      var major, ai := b / 32, b % 32;
      match major
      case 0 => ok, v := Integer(ai, false);
      case 1 => ok, v := Integer(ai, true);
      case 2 => ok, v := String(ai, false);
      case 3 => ok, v := String(ai, true);
      case 4 => ok, v := ArrayItem(ai);
      case 5 => ok, v := MapItem(ai);
      case 6 => ok, v := TagItem(ai);
      case _ =>
        if ai == 20 { return true, Bool(true); }
        if ai == 21 { return true, Bool(false); }
        if ai == 22 || ai == 23 { return true, Null; }
        ok := Fail("unsupported simple value or float");
    }

    method Integer(ai: nat, negative: bool) returns (ok: bool, v: Value)
      requires i <= |p| && err == "" && ai < 32
      modifies this
      ensures Agrees(DecodeInteger(p, old(i), ai, negative), ok, v)
      ensures i <= |p|
    {
      v := Null;
      var a;
      ok, a := Aux(ai);
      if !ok { return; }
      if a > INT64_MAX {
        ok := Fail("integer out of range");
        return;
      }
      v := Int(if negative then -1 - a else a);
    }

    method String(ai: nat, text: bool) returns (ok: bool, v: Value)
      requires i <= |p| && err == "" && ai < 32
      modifies this
      ensures Agrees(DecodeString(p, old(i), ai, text), ok, v)
      ensures i <= |p|
    {
      v := Null;
      if ai == 31 {
        ok := Fail("indefinite-length strings not supported");
        return;
      }
      var len;
      ok, len := Aux(ai);
      if !ok { return; }
      ArgumentFits(p, old(i), ai);
      Sum64Is(i, len);
      if Sum64(i, len) > |p| {
        ok := Fail("truncated string");
        return;
      }
      if len > INT64_MAX {
        ok := Fail(LENGTH_ERROR);
        return;
      }
      var data := p[i..i + len];
      v := if text then Text(data) else Octets(data);
      i := i + len;
    }

    method ArrayLoop(len: nat) returns (ok: bool, items: seq<Value>)
      requires i <= |p| && err == ""
      modifies this
      ensures Agrees(DecodeItems(p, old(i), len), ok, items) && i <= |p|
      decreases |p| - i, 1, len
    {
      items := [];
      ghost var start := i;
      AfterNothing(DecodeItems(p, start, len));
      hide DecodeItem, DecodeItems, AfterItems;
      for k := 0 to len
        invariant start <= i <= |p| && err == "" && |items| == k
        invariant DecodeItems(p, start, len) == AfterItems(items, DecodeItems(p, i, len - k))
      {
        ItemsTurn(p, i, len - k, items);
        var e;
        ok, e := Item();
        if !ok { return; }
        items := items + [e];
      }
      ItemsDone(p, i, items);
      ok := true;
    }

    method ArrayItem(ai: nat) returns (ok: bool, v: Value)
      requires i <= |p| && err == "" && ai < 32
      modifies this
      ensures Agrees(DecodeArray(p, old(i), ai), ok, v)
      ensures i <= |p|
      decreases |p| - i, 2
    {
      v := Null;
      if ai == 31 {
        ok := Fail("indefinite-length arrays not supported");
        return;
      }
      var len;
      ok, len := Aux(ai);
      if !ok { return; }
      if len > |p| - i {
        ok := Fail("array length exceeds data");
        return;
      }
      var items;
      ok, items := ArrayLoop(len);
      if !ok { return; }
      v := Array(items);
    }

    method MapLoop(len: nat) returns (ok: bool, entries: seq<Entry>)
      requires i <= |p| && err == ""
      modifies this
      ensures Agrees(DecodeEntries(p, old(i), len), ok, entries) && i <= |p|
      decreases |p| - i, 1, len
    {
      entries := [];
      ghost var start := i;
      AfterNothing(DecodeEntries(p, start, len));
      hide DecodeItem, DecodeEntries, AfterItems;
      for k := 0 to len
        invariant start <= i <= |p| && err == "" && |entries| == k
        invariant DecodeEntries(p, start, len) == AfterItems(entries, DecodeEntries(p, i, len - k))
      {
        EntriesTurn(p, i, len - k, entries);
        var key, val;
        ok, key := Item();
        if !ok { return; }
        ok, val := Item();
        if !ok { return; }
        entries := entries + [Entry(key, val)];
      }
      EntriesDone(p, i, entries);
      ok := true;
    }

    method MapItem(ai: nat) returns (ok: bool, v: Value)
      requires i <= |p| && err == "" && ai < 32
      modifies this
      ensures Agrees(DecodeMap(p, old(i), ai), ok, v)
      ensures i <= |p|
      decreases |p| - i, 2
    {
      v := Null;
      if ai == 31 {
        ok := Fail("indefinite-length maps not supported");
        return;
      }
      var len;
      ok, len := Aux(ai);
      if !ok { return; }
      if len > |p| - i {
        ok := Fail("map length exceeds data");
        return;
      }
      var entries;
      ok, entries := MapLoop(len);
      if !ok { return; }
      v := Map(entries);
    }

    method TagItem(ai: nat) returns (ok: bool, v: Value)
      requires i <= |p| && err == "" && ai < 32
      modifies this
      ensures Agrees(DecodeTag(p, old(i), ai), ok, v)
      ensures i <= |p|
      decreases |p| - i, 2
    {
      v := Null;
      var tag;
      ok, tag := Aux(ai);
      if !ok { return; }
      var inner;
      ok, inner := Item();
      if !ok { return; }
      v := Tag(tag, inner);
    }
  }

  /** An argument is a 64-bit number. */
  lemma ArgumentFits(p: bytes, i: nat, ai: nat)
    requires i <= |p|
    ensures Argument(p, i, ai).Ok? ==> Argument(p, i, ai).value.value < UINT64_LIMIT
  {
    EightOctets();
    var width := if ai == 25 then 2 else if ai == 26 then 4 else 8;
    if 25 <= ai <= 27 && i + width <= |p| {
      BeValueBelow(p[i..i + width]);
    }
  }

  lemma {:induction false} BeValueBelow(bs: bytes)
    ensures BeValue(bs) < Pow256(|bs|)
  {
    if bs != [] {
      BeValueBelow(bs[..|bs| - 1]);
    }
  }

  /** A byte string that announces `n` octets of which none are there: from 2^64 - 9 on the sum of position and length
      wraps, and the program ends with an exception where it would report a truncated string. */
  lemma AnnouncedLengthThrows(n: nat)
    requires 0 < n < UINT64_LIMIT
    ensures Decode([0x5b] + BigEndian(n, 8)) == Err(if n < UINT64_LIMIT - 9 then "truncated string" else LENGTH_ERROR)
  {
    hide BigEndian, BeValue;
    var size := BigEndian(n, 8);
    var p := [0x5b] + size;
    assert Pow256(8) == UINT64_LIMIT by { EightOctets(); }
    BigEndianValue(n, 8);
    assert p[1..9] == size;
    assert DecodeItem(p, 0) == DecodeString(p, 1, 27, false);
  }

  lemma EightOctets()
    ensures Pow256(2) == 0x1_0000 && Pow256(4) == 0x1_0000_0000 && Pow256(8) == UINT64_LIMIT
  {
    assert Pow256(4) == 256 * Pow256(3) == 0x1_0000 * Pow256(2);
    assert Pow256(8) == 256 * Pow256(7) == 0x1_0000 * Pow256(6) == 0x100_0000 * Pow256(5) == 0x1_0000_0000 * Pow256(4);
  }

  /** The program's entry point: one item, nothing behind it. */
  method DecodeValue(p: Buffer) returns (r: Result<Value, string>)
    ensures r == Decode(p)
  {
    var decoder := new Decoder(p);
    var ok, v := decoder.Item();
    if !ok {
      return Err(decoder.err);
    }
    return if decoder.i == |p| then Ok(v) else Err("");
  }

  /** A list result with `done` in front of it. */
  ghost function AfterItems<T>(done: seq<T>, r: Result<Decoded<seq<T>>, string>): Result<Decoded<seq<T>>, string>
  {
    match r
    case Ok(d) => Ok(Decoded(done + d.value, d.next))
    case Err(e) => Err(e)
  }

  lemma ItemsTurn(p: bytes, i: nat, count: nat, items: seq<Value>)
    requires i <= |p| && count > 0
    ensures AfterItems(items, DecodeItems(p, i, count)) ==
            match DecodeItem(p, i)
            case Err(e) => Err(e)
            case Ok(d) => AfterItems(items + [d.value], DecodeItems(p, d.next, count - 1))
  {
    hide DecodeItem;
    if DecodeItem(p, i).Ok? {
      AfterItemsTwice(items, [DecodeItem(p, i).value.value]);
    }
  }

  lemma EntriesTurn(p: bytes, i: nat, count: nat, entries: seq<Entry>)
    requires i <= |p| && count > 0
    ensures AfterItems(entries, DecodeEntries(p, i, count)) ==
            match DecodeItem(p, i)
            case Err(e) => Err(e)
            case Ok(key) =>
              match DecodeItem(p, key.next)
              case Err(e) => Err(e)
              case Ok(val) => AfterItems(entries + [Entry(key.value, val.value)], DecodeEntries(p, val.next, count - 1))
  {
    hide DecodeItem;
    if DecodeItem(p, i).Ok? {
      var key := DecodeItem(p, i).value;
      if DecodeItem(p, key.next).Ok? {
        AfterItemsTwice(entries, [Entry(key.value, DecodeItem(p, key.next).value.value)]);
      }
    }
  }

  lemma ItemsDone(p: bytes, i: nat, items: seq<Value>)
    requires i <= |p|
    ensures AfterItems(items, DecodeItems(p, i, 0)) == Ok(Decoded(items, i))
  {
    assert items + [] == items;
  }

  lemma EntriesDone(p: bytes, i: nat, entries: seq<Entry>)
    requires i <= |p|
    ensures AfterItems(entries, DecodeEntries(p, i, 0)) == Ok(Decoded(entries, i))
  {
    assert entries + [] == entries;
  }

  lemma AfterItemsTwice<T>(xs: seq<T>, ys: seq<T>)
    ensures forall r :: AfterItems(xs, AfterItems(ys, r)) == AfterItems(xs + ys, r)
  {
    forall r ensures AfterItems(xs, AfterItems(ys, r)) == AfterItems(xs + ys, r) {
      if r.Ok? {
        assert xs + (ys + r.value.value) == (xs + ys) + r.value.value;
      }
    }
  }

  lemma AfterNothing<T>(r: Result<Decoded<seq<T>>, string>)
    ensures AfterItems([], r) == r
  {
    if r.Ok? {
      assert [] + r.value.value == r.value.value;
    }
  }

  // ---------------------------------------------------------------- encoder

  /** The output string the encoder appends to. */
  class ByteBuffer {
    var data: bytes

    constructor ()
      ensures data == []
    {
      data := [];
    }

    method Push(b: byte)
      modifies this
      ensures data == old(data) + [b]
    {
      data := data + [b];
    }

    method Append(bs: bytes)
      modifies this
      ensures data == old(data) + bs
    {
      data := data + bs;
    }
  }

  /** `val` shifted right by `k` octets. */
  function ShiftOctets(val: nat, k: nat): nat
  {
    if k == 0 then val else ShiftOctets(val / 256, k - 1)
  }

  lemma {:induction false} ShiftOneMore(val: nat, k: nat)
    ensures ShiftOctets(val, k + 1) == ShiftOctets(val, k) / 256
  {
    if k > 0 {
      ShiftOneMore(val / 256, k - 1);
    }
  }

  lemma {:induction false} ShiftAllOut(val: nat, width: nat)
    requires val < Pow256(width)
    ensures ShiftOctets(val, width) == 0
  {
    if width > 0 {
      ShiftAllOut(val / 256, width - 1);
    }
  }

  /** Shift-and-truncate from the top octet down writes the big-endian form. */
  method PutShifted(out: ByteBuffer, val: nat, width: nat)
    requires val < Pow256(width)
    modifies out
    ensures out.data == old(out.data) + BigEndian(val, width)
  {
    var s: nat := width;
    ShiftAllOut(val, width);
    while s > 0
      invariant s <= width
      invariant out.data == old(out.data) + BigEndian(ShiftOctets(val, s), width - s)
    {
      s := s - 1;
      ShiftOneMore(val, s);
      out.Push(ShiftOctets(val, s) % 256);
      assert out.data == old(out.data) + (BigEndian(ShiftOctets(val, s + 1), width - s - 1) + [ShiftOctets(val, s) % 256]);
    }
  }

  method EncHead(out: ByteBuffer, major: nat, val: nat)
    requires major < 8 && val < UINT64_LIMIT
    modifies out
    ensures out.data == old(out.data) + EncodeHead(major, val)
  {
    ghost var was := out.data;
    if val < 24 {
      out.Push(major * 32 + val);
    } else if val < 0x100 {
      out.Push(major * 32 + 24);
      out.Push(val);
      assert out.data == was + [major * 32 + 24, val];
    } else if val < 0x1_0000 {
      out.Push(major * 32 + 25);
      assert Pow256(2) == 0x1_0000;
      PutShifted(out, val, 2);
      assert out.data == was + ([major * 32 + 25] + BigEndian(val, 2));
    } else if val < 0x1_0000_0000 {
      out.Push(major * 32 + 26);
      assert Pow256(4) == 0x1_0000_0000;
      PutShifted(out, val, 4);
      assert out.data == was + ([major * 32 + 26] + BigEndian(val, 4));
    } else {
      out.Push(major * 32 + 27);
      CborRoundTrip.Pow256Is64();
      PutShifted(out, val, 8);
      assert out.data == was + ([major * 32 + 27] + BigEndian(val, 8));
    }
  }

  /** No two keys of any map in the value have the same encoding. */
  predicate UniqueKeys(v: Value)
    requires Fits(v)
    decreases v
  {
    match v
    case Array(items) => forall e <- items :: UniqueKeys(e)
    case Map(entries) =>
      && (forall i, j :: 0 <= i < j < |entries| ==> EncodeEntry(entries[i]).key != EncodeEntry(entries[j]).key)
      && forall e <- entries :: UniqueKeys(e.key) && UniqueKeys(e.val)
    case Tag(_, inner) => UniqueKeys(inner)
    case _ => true
  }

  /** The library sort: some arrangement in key order, ties in no promised order. */
  method StdSort<T>(xs: seq<Keyed<T>>) returns (r: seq<Keyed<T>>)
    ensures Sorted(r) && multiset(r) == multiset(xs)
  {
    r := Sort(xs);
    SortSorted(xs);
  }

  /** Appends the canonical encoding. With repeated keys the order of the repeats is open. */
  method CborEncode(v: Value, out: ByteBuffer)
    requires Fits(v)
    modifies out
    ensures UniqueKeys(v) ==> out.data == old(out.data) + Encode(v)
    decreases v, 1
  {
    match v
    case Int(n) =>
      if n >= 0 { EncHead(out, 0, n); } else { EncHead(out, 1, -1 - n); }
    case Octets(d) =>
      EncHead(out, 2, |d|);
      out.Append(d);
      assert out.data == old(out.data) + (EncodeHead(2, |d|) + d);
    case Text(d) =>
      EncHead(out, 3, |d|);
      out.Append(d);
      assert out.data == old(out.data) + (EncodeHead(3, |d|) + d);
    case Array(items) => EncodeArray(items, out);
    case Map(entries) => EncodeMap(entries, out);
    case Tag(t, inner) =>
      EncHead(out, 6, t);
      CborEncode(inner, out);
      if UniqueKeys(v) {
        assert out.data == old(out.data) + (EncodeHead(6, t) + Encode(inner));
      }
    case Null => out.Push(0xf6);
    case Bool(b) => out.Push(if b then 0xf5 else 0xf4);
  }

  method EncodeArray(items: seq<Value>, out: ByteBuffer)
    requires Fits(Array(items))
    modifies out
    ensures UniqueKeys(Array(items)) ==> out.data == old(out.data) + Encode(Array(items))
    decreases items, 0
  {
    hide Encode, EncodeHead;
    ghost var unique := UniqueKeys(Array(items));
    EncHead(out, 4, |items|);
    ghost var start := out.data;
    for k := 0 to |items|
      invariant unique ==> out.data + EncodeAll(items[k..]) == start + EncodeAll(items)
    {
      ghost var was := out.data;
      assert items[k] in items && items[k..][0] == items[k] && items[k..][1..] == items[k + 1..];
      CborEncode(items[k], out);
      if unique {
        assert out.data + EncodeAll(items[k + 1..]) == was + (Encode(items[k]) + EncodeAll(items[k + 1..]));
      }
    }
    if unique {
      assert out.data + EncodeAll([]) == out.data;
      assert out.data == old(out.data) + (EncodeHead(4, |items|) + EncodeAll(items));
      ArrayEncoding(items);
    }
  }

  lemma ArrayEncoding(items: seq<Value>)
    requires Fits(Array(items))
    ensures Encode(Array(items)) == EncodeHead(4, |items|) + EncodeAll(items)
  {
  }

  function KeyedValues(entries: seq<Entry>): (r: seq<Keyed<Value>>)
    requires forall e <- entries :: Fits(e.key) && Fits(e.val)
    ensures |r| == |entries|
    ensures forall i :: 0 <= i < |r| ==> r[i] == Keyed(EncodeEntry(entries[i]).key, entries[i].val)
  {
    seq(|entries|, i requires 0 <= i < |entries| => Keyed(EncodeEntry(entries[i]).key, entries[i].val))
  }

  /** What a keyed value owes its encoding. */
  ghost predicate EncodesAs(x: Keyed<Value>, y: Keyed<bytes>)
  {
    Fits(x.item) && UniqueKeys(x.item) && y == Keyed(x.key, Encode(x.item))
  }

  /** Any arrangement in key order is the one the canonical encoding uses, when keys are unique. */
  lemma SortedAlike(entries: seq<Entry>, sorted: seq<Keyed<Value>>)
    requires Fits(Map(entries)) && UniqueKeys(Map(entries))
    requires Sorted(sorted) && multiset(sorted) == multiset(KeyedValues(entries))
    ensures AllEncodeAs(sorted, Sort(EncodeEntries(entries)))
  {
    hide Encode, UniqueKeys, LexLess, KeyLess, Sort, DistinctKeys, Sorted, EncodesAs, Insert;
    var kv, enc := KeyedValues(entries), EncodeEntries(entries);
    KeyedValuesUnique(entries);
    SortSorted(kv);
    CborCanonical.DistinctSurvives(kv, sorted);
    SortedUnique(sorted, Sort(kv));
    SortParametric(kv, enc, (x, y) => EncodesAs(x, y));
  }

  lemma KeyedValuesUnique(entries: seq<Entry>)
    requires Fits(Map(entries)) && UniqueKeys(Map(entries))
    ensures DistinctKeys(KeyedValues(entries))
    ensures forall k :: 0 <= k < |entries| ==>
              && KeyedValues(entries)[k].key == EncodeEntries(entries)[k].key
              && EncodesAs(KeyedValues(entries)[k], EncodeEntries(entries)[k])
  {
    hide Encode;
    forall k | 0 <= k < |entries| ensures EncodesAs(KeyedValues(entries)[k], EncodeEntries(entries)[k]) {
      assert entries[k] in entries;
      assert UniqueKeys(entries[k].val);
    }
  }

  /** Every keyed value comes from an entry. */
  ghost predicate FromEntries(entries: seq<Entry>, kvs: seq<Keyed<Value>>)
  {
    forall k :: 0 <= k < |kvs| ==> exists j :: 0 <= j < |entries| && entries[j].val == kvs[k].item
  }

  lemma ValuesFromEntries(entries: seq<Entry>, kv: seq<Keyed<Value>>, sorted: seq<Keyed<Value>>)
    requires |kv| == |entries| && forall j :: 0 <= j < |kv| ==> kv[j].item == entries[j].val
    requires multiset(sorted) == multiset(kv)
    ensures FromEntries(entries, sorted)
  {
    forall k | 0 <= k < |sorted| ensures exists j :: 0 <= j < |entries| && entries[j].val == sorted[k].item {
      assert sorted[k] in multiset(sorted);
      assert sorted[k] in multiset(kv);
      var j :| 0 <= j < |kv| && kv[j] == sorted[k];
      assert entries[j].val == sorted[k].item;
    }
  }

  ghost predicate AllEncodeAs(xs: seq<Keyed<Value>>, ys: seq<Keyed<bytes>>)
  {
    |xs| == |ys| && forall k :: 0 <= k < |xs| ==> EncodesAs(xs[k], ys[k])
  }

  lemma FlattenStep(ys: seq<Keyed<bytes>>, k: nat, head: bytes)
    requires k < |ys|
    ensures head + ys[k].key + ys[k].item + Flatten(ys[k + 1..]) == head + Flatten(ys[k..])
  {
    assert ys[k..][0] == ys[k] && ys[k..][1..] == ys[k + 1..];
    assert head + ys[k].key + ys[k].item + Flatten(ys[k + 1..]) == head + (ys[k].key + ys[k].item + Flatten(ys[k + 1..]));
  }

  method EncodeMap(entries: seq<Entry>, out: ByteBuffer)
    requires Fits(Map(entries))
    modifies out
    ensures UniqueKeys(Map(entries)) ==> out.data == old(out.data) + Encode(Map(entries))
    decreases entries, 2
  {
    hide UniqueKeys, Sort, AllEncodeAs, EncodeHead, FromEntries, Flatten, Sorted;
    ghost var unique := UniqueKeys(Map(entries));
    var kv := EncodeKeys(entries);
    var sorted := StdSort(kv);
    assert |sorted| == |multiset(sorted)| == |multiset(kv)| == |kv|;
    EncHead(out, 5, |sorted|);
    if unique {
      SortedAlike(entries, sorted);
    }
    ValuesFromEntries(entries, kv, sorted);
    ghost var enc := Sort(EncodeEntries(entries));
    WriteSorted(entries, sorted, enc, out);
    if unique {
      assert out.data == old(out.data) + (EncodeHead(5, |entries|) + Flatten(enc));
    }
  }

  /** Each value with the encoding of its key. */
  method EncodeKeys(entries: seq<Entry>) returns (kv: seq<Keyed<Value>>)
    requires Fits(Map(entries))
    ensures |kv| == |entries| && forall j :: 0 <= j < |kv| ==> kv[j].item == entries[j].val
    ensures UniqueKeys(Map(entries)) ==> kv == KeyedValues(entries)
    decreases entries, 1
  {
    kv := [];
    for k := 0 to |entries|
      invariant |kv| == k && forall j :: 0 <= j < k ==> kv[j].item == entries[j].val
      invariant UniqueKeys(Map(entries)) ==> forall j :: 0 <= j < k ==> kv[j] == KeyedValues(entries)[j]
    {
      var key := new ByteBuffer();
      assert entries[k] in entries;
      assert entries decreases to entries[k];
      CborEncode(entries[k].key, key);
      kv := kv + [Keyed(key.data, entries[k].val)];
    }
  }

  method WriteSorted(ghost entries: seq<Entry>, sorted: seq<Keyed<Value>>, ghost enc: seq<Keyed<bytes>>, out: ByteBuffer)
    requires Fits(Map(entries)) && FromEntries(entries, sorted)
    modifies out
    ensures AllEncodeAs(sorted, enc) ==> out.data == old(out.data) + Flatten(enc)
    decreases entries, 1
  {
    hide Encode, UniqueKeys, Flatten;
    for k := 0 to |sorted|
      invariant AllEncodeAs(sorted, enc) ==> out.data + Flatten(enc[k..]) == old(out.data) + Flatten(enc)
    {
      ghost var was := out.data;
      out.Append(sorted[k].key);
      ghost var j :| 0 <= j < |entries| && entries[j].val == sorted[k].item;
      assert entries[j] in entries;
      assert entries decreases to entries[j];
      CborEncode(sorted[k].item, out);
      if AllEncodeAs(sorted, enc) {
        assert EncodesAs(sorted[k], enc[k]);
        assert out.data == was + enc[k].key + enc[k].item;
        FlattenStep(enc, k, was);
      }
    }
    if AllEncodeAs(sorted, enc) {
      FlattenNothing(enc[|sorted|..], out.data);
    }
  }

  lemma FlattenNothing(ys: seq<Keyed<bytes>>, head: bytes)
    requires ys == []
    ensures head + Flatten(ys) == head
  {
  }
}
