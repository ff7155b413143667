/** DAG-CBOR values, their canonical encoding and the decoder of the repository verifier.

    Everything here is a function of values; CborCodec holds the cursor and the output
    buffer of the program and is proved against these functions. */
module Cbor {
  import opened Bytes
  import opened Outcome
  import opened KeyedSort

  datatype Value =
    | Int(i: int)
    | Octets(data: bytes)
    | Text(data: bytes)
    | Array(items: seq<Value>)
    | Map(entries: seq<Entry>)
    | Tag(tag: nat, inner: Value)
    | Null
    | Bool(b: bool)

  datatype Entry = Entry(key: Value, val: Value)

  datatype Decoded<+T> = Decoded(value: T, next: nat)

  const INT64_MAX := 0x7fff_ffff_ffff_ffff
  const UINT64_LIMIT := 0x1_0000_0000_0000_0000

  // ---------------------------------------------------------------- encoding

  function EncodeHead(major: nat, val: nat): (bs: bytes)
    requires major < 8 && val < UINT64_LIMIT
    ensures |bs| >= 1
  {
    if val < 24 then [major * 32 + val]
    else if val < 0x100 then [major * 32 + 24, val]
    else if val < 0x1_0000 then [major * 32 + 25] + BigEndian(val, 2)
    else if val < 0x1_0000_0000 then [major * 32 + 26] + BigEndian(val, 4)
    else [major * 32 + 27] + BigEndian(val, 8)
  }

  /** The program's types: 64-bit integers, tags and container sizes. */
  predicate Fits(v: Value)
    decreases v
  {
    match v
    case Int(i) => -INT64_MAX - 1 <= i <= INT64_MAX
    case Octets(d) => |d| < UINT64_LIMIT
    case Text(d) => |d| < UINT64_LIMIT
    case Array(items) => |items| < UINT64_LIMIT && forall e <- items :: Fits(e)
    case Map(entries) => |entries| < UINT64_LIMIT && forall e <- entries :: Fits(e.key) && Fits(e.val)
    case Tag(t, inner) => t < UINT64_LIMIT && Fits(inner)
    case Null => true
    case Bool(_) => true
  }

  function Encode(v: Value): (bs: bytes)
    requires Fits(v)
    ensures |bs| >= 1
    decreases v, 1
  {
    match v
    case Int(i) => if i >= 0 then EncodeHead(0, i) else EncodeHead(1, -1 - i)
    case Octets(d) => EncodeHead(2, |d|) + d
    case Text(d) => EncodeHead(3, |d|) + d
    case Array(items) => EncodeHead(4, |items|) + EncodeAll(items)
    case Map(entries) => EncodeHead(5, |entries|) + Flatten(Sort(EncodeEntries(entries)))
    case Tag(t, inner) => EncodeHead(6, t) + Encode(inner)
    case Null => [0xf6]
    case Bool(b) => [if b then 0xf5 else 0xf4]
  }

  function EncodeAll(items: seq<Value>): (bs: bytes)
    requires forall e <- items :: Fits(e)
    ensures |bs| >= |items|
    decreases items, 0
  {
    if items == [] then [] else Encode(items[0]) + EncodeAll(items[1..])
  }

  /** An entry as its encoded key with its encoded value. */
  function EncodeEntry(e: Entry): Keyed<bytes>
    requires Fits(e.key) && Fits(e.val)
    decreases e, 0
  {
    Keyed(Encode(e.key), Encode(e.val))
  }

  function EncodeEntries(entries: seq<Entry>): (kvs: seq<Keyed<bytes>>)
    requires forall e <- entries :: Fits(e.key) && Fits(e.val)
    ensures |kvs| == |entries|
    ensures forall i :: 0 <= i < |kvs| ==> kvs[i] == EncodeEntry(entries[i])
    decreases entries, 0
  {
    if entries == [] then [] else [EncodeEntry(entries[0])] + EncodeEntries(entries[1..])
  }

  function Flatten(kvs: seq<Keyed<bytes>>): bytes
  {
    if kvs == [] then [] else kvs[0].key + kvs[0].item + Flatten(kvs[1..])
  }

  // ---------------------------------------------------------------- decoding

  /** What a string of the program can hold. */
  type Buffer = p: bytes | |p| <= INT64_MAX

  const END_OF_DATA := "unexpected end of data"

  /** The exception for a string longer than any can be. It ends the program; the model carries it like an error. */
  const LENGTH_ERROR := "std::length_error"

  /** Sums of sizes, in 64 bits. */
  function Sum64(a: nat, b: nat): nat { (a + b) % UINT64_LIMIT }

  /** A sum that passes 64 bits comes out below both of its parts, and so gets past a comparison with the end. */
  lemma Sum64Is(a: nat, b: nat)
    requires a <= INT64_MAX && b < UINT64_LIMIT
    ensures Sum64(a, b) == if a + b < UINT64_LIMIT then a + b else a + b - UINT64_LIMIT
  {
    assert (a + b) % UINT64_LIMIT == if a + b < UINT64_LIMIT then a + b else a + b - UINT64_LIMIT;
  }

  function DecodeByte(p: bytes, i: nat): (r: Result<Decoded<byte>, string>)
    ensures r.Ok? <==> i < |p|
    ensures r.Ok? ==> r.value == Decoded(p[i], i + 1)
  {
    if i >= |p| then Err(END_OF_DATA) else Ok(Decoded(p[i], i + 1))
  }

  function ReadBigEndian(p: bytes, i: nat, width: nat): (r: Result<Decoded<nat>, string>)
    ensures r.Ok? ==> r.value.next == i + width <= |p|
  {
    if i + width > |p| then Err(END_OF_DATA) else Ok(Decoded(BeValue(p[i..i + width]), i + width))
  }

  /** The argument that follows an initial octet with additional information `ai`. */
  function Argument(p: bytes, i: nat, ai: nat): (r: Result<Decoded<nat>, string>)
    requires i <= |p|
    ensures r.Ok? ==> i <= r.value.next <= |p|
  {
    if ai < 24 then Ok(Decoded(ai, i))
    else if ai == 24 then
      var b :- DecodeByte(p, i);
      Ok(Decoded(b.value, b.next))
    else if ai == 25 then ReadBigEndian(p, i, 2)
    else if ai == 26 then ReadBigEndian(p, i, 4)
    else if ai == 27 then ReadBigEndian(p, i, 8)
    else Err("reserved additional info")
  }

  function DecodeItem(p: bytes, i: nat): (r: Result<Decoded<Value>, string>)
    ensures r.Ok? ==> i < r.value.next <= |p|
    decreases |p| - i, 0
  {
    var head :- DecodeByte(p, i);
    var major, ai := head.value / 32, head.value % 32;
    match major
    case 0 => DecodeInteger(p, head.next, ai, false)
    case 1 => DecodeInteger(p, head.next, ai, true)
    case 2 => DecodeString(p, head.next, ai, false)
    case 3 => DecodeString(p, head.next, ai, true)
    case 4 => DecodeArray(p, head.next, ai)
    case 5 => DecodeMap(p, head.next, ai)
    case 6 => DecodeTag(p, head.next, ai)
    case _ => DecodeSimple(head.next, ai)
  }

  function DecodeInteger(p: bytes, i: nat, ai: nat, negative: bool): (r: Result<Decoded<Value>, string>)
    requires i <= |p|
    ensures r.Ok? ==> i <= r.value.next <= |p|
  {
    var a :- Argument(p, i, ai);
    if a.value > INT64_MAX then Err("integer out of range")
    else Ok(Decoded(Int(if negative then -1 - a.value else a.value), a.next))
  }

  function DecodeString(p: bytes, i: nat, ai: nat, text: bool): (r: Result<Decoded<Value>, string>)
    requires i <= |p|
    ensures r.Ok? ==> i <= r.value.next <= |p|
  {
    if ai == 31 then Err("indefinite-length strings not supported") else
    var len :- Argument(p, i, ai);
    var end := len.next + len.value;
    if end > |p| then Err(if end < UINT64_LIMIT then "truncated string" else LENGTH_ERROR) else
    var data := p[len.next..len.next + len.value];
    Ok(Decoded(if text then Text(data) else Octets(data), len.next + len.value))
  }

  function DecodeArray(p: bytes, i: nat, ai: nat): (r: Result<Decoded<Value>, string>)
    requires i <= |p|
    ensures r.Ok? ==> i <= r.value.next <= |p|
    decreases |p| - i, 2
  {
    if ai == 31 then Err("indefinite-length arrays not supported") else
    var len :- Argument(p, i, ai);
    if len.value > |p| - len.next then Err("array length exceeds data") else
    var items :- DecodeItems(p, len.next, len.value);
    Ok(Decoded(Array(items.value), items.next))
  }

  function DecodeMap(p: bytes, i: nat, ai: nat): (r: Result<Decoded<Value>, string>)
    requires i <= |p|
    ensures r.Ok? ==> i <= r.value.next <= |p|
    decreases |p| - i, 2
  {
    if ai == 31 then Err("indefinite-length maps not supported") else
    var len :- Argument(p, i, ai);
    if len.value > |p| - len.next then Err("map length exceeds data") else
    var entries :- DecodeEntries(p, len.next, len.value);
    Ok(Decoded(Map(entries.value), entries.next))
  }

  function DecodeTag(p: bytes, i: nat, ai: nat): (r: Result<Decoded<Value>, string>)
    requires i <= |p|
    ensures r.Ok? ==> i <= r.value.next <= |p|
    decreases |p| - i, 2
  {
    var tag :- Argument(p, i, ai);
    var inner :- DecodeItem(p, tag.next);
    Ok(Decoded(Tag(tag.value, inner.value), inner.next))
  }

  function DecodeSimple(i: nat, ai: nat): (r: Result<Decoded<Value>, string>)
    ensures r.Ok? ==> r.value.next == i
  {
    match ai
    case 20 => Ok(Decoded(Bool(true), i))
    case 21 => Ok(Decoded(Bool(false), i))
    case 22 => Ok(Decoded(Null, i))
    case 23 => Ok(Decoded(Null, i))
    case _ => Err("unsupported simple value or float")
  }

  function DecodeItems(p: bytes, i: nat, count: nat): (r: Result<Decoded<seq<Value>>, string>)
    requires i <= |p|
    ensures r.Ok? ==> i <= r.value.next <= |p| && |r.value.value| == count
    decreases |p| - i, 1, count
  {
    if count == 0 then Ok(Decoded([], i))
    else
      var first :- DecodeItem(p, i);
      var rest :- DecodeItems(p, first.next, count - 1);
      Ok(Decoded([first.value] + rest.value, rest.next))
  }

  function DecodeEntries(p: bytes, i: nat, count: nat): (r: Result<Decoded<seq<Entry>>, string>)
    requires i <= |p|
    ensures r.Ok? ==> i <= r.value.next <= |p| && |r.value.value| == count
    decreases |p| - i, 1, count
  {
    if count == 0 then Ok(Decoded([], i))
    else
      var key :- DecodeItem(p, i);
      var val :- DecodeItem(p, key.next);
      var rest :- DecodeEntries(p, val.next, count - 1);
      Ok(Decoded([Entry(key.value, val.value)] + rest.value, rest.next))
  }

  /** One item that takes up the whole input. Trailing octets are refused without a message. */
  function Decode(p: bytes): Result<Value, string>
  {
    var item :- DecodeItem(p, 0);
    if item.next == |p| then Ok(item.value) else Err("")
  }
}
